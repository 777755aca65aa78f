/** The tuning constants of options.h that the modelled code reads. */
module Options {
  import opened Data

  /** An average RGB value below this is black. */
  const GrayShade: int := 127
  /** Largest horizontal drift, in pixels, of boxes meant to be in one column. */
  const MaxError: int := 5
  /** Largest difference between two diagonals that are still alike. */
  const DiagError: int := 15
  /** How many diagonal samples are gathered before one is adopted. */
  const DiagCount: int := 5
  /** Arm length of the cross drawn at a marked point. */
  const MarkSize: int := 10
  /** Gray value the marks are drawn in. */
  const MarkColor: Shade := 127
  /** First and one-past-last box numbers of the student ID column. */
  const IdStart: int := 2
  const IdEnd: int := 11
}
