/** The per-upload records of forms.h and forms.cpp: a `Form` for each
    uploaded PDF, holding its log text and the `FormImage` read from each
    page, with equality by id. */
module Forms {

  /** `LogType`, written by `operator<<` as its name. */
  datatype LogType = Error | Warning | Notice

  function LogTypeName(t: LogType): (name: string)
    ensures |name| > 0
  {
    match t
    case Error => "Error"
    case Warning => "Warning"
    case Notice => "Notice"
  }

  /** One answer bubble row as read from a page: nothing filled in, or the
      choice that was. */
  datatype Answer = Blank | Choice(choice: int)

  /** `FormImage`: the student (or key) id read from one page, the reading
      thread's id, and the answers. The page image itself is not part of this
      model. */
  datatype FormImage = FormImage(id: int, threadId: int, answers: seq<Answer>)

  /** The fields a `FormImage` starts with. */
  const NewFormImage: FormImage := FormImage(-1, -1, [])

  class Form {
    var id: int
    var key: int
    var pages: int
    var filename: string
    /** How many pages were processed. */
    var done: int
    /** Whether processing ended. */
    var finished: bool
    /** The text written by `log`. */
    var output: string
    var formImages: seq<FormImage>

    /** `Form(processor)`: the placeholder form. */
    constructor Placeholder()
      ensures id == -1 && key == 0 && pages == -1 && done == 0 && !finished
      ensures filename == "" && output == "" && formImages == []
    {
      id, key, pages, done := -1, 0, -1, 0;
      finished := false;
      filename, output, formImages := "", "", [];
    }

    /** `Form(id, key, filename, processor)`: a form whose page count is
        not known yet. */
    constructor (id: int, key: int, filename: string)
      ensures this.id == id && this.key == key && this.filename == filename
      ensures pages == -1 && done == 0 && !finished && output == "" && formImages == []
    {
      this.id, this.key, this.filename := id, key, filename;
      pages, done := -1, 0;
      finished := false;
      output, formImages := "", [];
    }

    /** `Form(Form&&)`: takes over f's id, key, page count, file name,
        images and log text. `done` and `finished` are not set, so their
        values are unknown. */
    constructor Move(f: Form)
      modifies f
      ensures id == old(f.id) && key == old(f.key) && pages == old(f.pages)
      ensures filename == old(f.filename) && formImages == old(f.formImages) && output == old(f.output)
      ensures f.id == old(f.id) && f.key == old(f.key) && f.pages == old(f.pages)
    {
      id, key, pages := f.id, f.key, f.pages;
      filename, formImages, output := f.filename, f.formImages, f.output;
    }

    /** `log(msg, t)`: appends "<type>: msg" and a newline to the log
        text; nothing else changes. */
    method Log(msg: string, t: LogType)
      modifies this
      ensures output == old(output) + LogTypeName(t) + ": " + msg + "\n"
      ensures id == old(id) && key == old(key) && pages == old(pages) && filename == old(filename)
      ensures done == old(done) && finished == old(finished) && formImages == old(formImages)
    {
      output := output + LogTypeName(t) + ": " + msg + "\n";
    }
  }

  /** `operator==` on forms: the ids agree. */
  predicate FormEq(a: Form, b: Form)
    reads a, b
  {
    a.id == b.id
  }

  /** `operator!=` on forms. */
  predicate FormNotEq(a: Form, b: Form)
    reads a, b
    ensures FormNotEq(a, b) <==> !FormEq(a, b)
  {
    a.id != b.id
  }

  /** `FormPredicate(id)` applied to a form. */
  predicate Matches(id: int, f: Form)
    reads f
  {
    f.id == id
  }

  /** Form equality is an equivalence, and `FormPredicate(id)` accepts
      exactly the forms equal to one whose id is id. */
  lemma FormEqIsIdEquality(a: Form, b: Form, c: Form)
    ensures FormEq(a, a)
    ensures FormEq(a, b) ==> FormEq(b, a)
    ensures FormEq(a, b) && FormEq(b, c) ==> FormEq(a, c)
    ensures Matches(b.id, a) <==> FormEq(a, b)
  {
  }
}
