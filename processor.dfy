/** The grading and status decisions of processor.cpp: finding a form by id,
    whether it is done, the progress percentage, and the report `print`
    builds by picking the key page and scoring every student page against
    it. */
module Processor {
  import opened Wrappers
  import opened MapUtils
  import opened MathUtils
  import opened Forms
  import Read

  /** A line of the report after the key's: a page whose student id could
      not be read (by reading thread), or a student's id and the answers
      at the positions the key filled in. */
  datatype Row = Failed(threadId: int) | Student(id: int, shown: seq<Answer>)

  /** What `print` reports: nothing for the placeholder form; the ids
      found when no page carries the key's id; otherwise the key's answers,
      how many it filled in, how many later key pages were skipped, one row
      per other page, and the scores by student id in increasing order.
      Each report but the first ends with the form's log text. */
  datatype Report =
    | NoReport
    | KeyNotFound(given: seq<int>, log: string)
    | Graded(key: seq<Answer>, total: nat, skipped: nat, rows: seq<Row>, scores: seq<(int, real)>, log: string)

  /** The index of the first page whose id is the key's id. */
  function KeyIndex(images: seq<FormImage>, key: int): (r: Option<nat>)
    ensures r.Some? ==> r.value < |images| && images[r.value].id == key
    ensures r.Some? ==> forall j :: 0 <= j < r.value ==> images[j].id != key
    ensures r.None? ==> forall j :: 0 <= j < |images| ==> images[j].id != key
  {
    if |images| == 0 then None
    else
      var r := KeyIndex(images[..|images| - 1], key);
      if r.Some? then r
      else if images[|images| - 1].id == key then Some(|images| - 1)
      else None
  }

  /** How many pages carry the key's id. */
  function KeyCount(images: seq<FormImage>, key: int): (n: nat)
    ensures n <= |images|
  {
    if |images| == 0 then 0
    else KeyCount(images[..|images| - 1], key) + (if images[|images| - 1].id == key then 1 else 0)
  }

  /** There is a key page exactly when some page carries the key's id. */
  lemma {:induction false} KeyCountPositive(images: seq<FormImage>, key: int)
    ensures KeyCount(images, key) > 0 <==> KeyIndex(images, key).Some?
  {
    if |images| > 0 {
      KeyCountPositive(images[..|images| - 1], key);
    }
  }

  /** The number of answers that are not `Blank`. */
  function NonBlank(a: seq<Answer>): (n: nat)
    ensures n <= |a|
  {
    if |a| == 0 then 0
    else NonBlank(a[..|a| - 1]) + (if a[|a| - 1] != Blank then 1 else 0)
  }

  /** Among the first n questions, those the key filled in and the student
      answered the same way. */
  function Same(key: seq<Answer>, a: seq<Answer>, n: nat): nat
    requires n <= |a| && n <= |key|
  {
    if n == 0 then 0
    else Same(key, a, n - 1) + (if key[n - 1] != Blank && key[n - 1] == a[n - 1] then 1 else 0)
  }

  /** The student's answers to the first n questions, keeping the ones the
      key filled in. */
  function Shown(key: seq<Answer>, a: seq<Answer>, n: nat): seq<Answer>
    requires n <= |a| && n <= |key|
  {
    if n == 0 then []
    else Shown(key, a, n - 1) + (if key[n - 1] != Blank then [a[n - 1]] else [])
  }

  /** The fraction of the key's filled-in answers matched, or 1 when the
      key has none. */
  function Score(same: nat, total: nat): real
  {
    if total > 0 then same as real / total as real else 1.0
  }

  /** Pages that are scored: neither unreadable nor carrying the key's id. */
  predicate Scored(img: FormImage, keyId: int)
  {
    img.id != Read.DefaultID && img.id != keyId
  }

  /** Every scored page has no more answers than the key: the scoring loop
      reads the key at each of the student's positions. */
  predicate Fits(images: seq<FormImage>, keyId: int, key: seq<Answer>)
  {
    forall j :: 0 <= j < |images| && Scored(images[j], keyId) ==> |images[j].answers| <= |key|
  }

  function RowsOf(images: seq<FormImage>, keyId: int, key: seq<Answer>): seq<Row>
    requires Fits(images, keyId, key)
  {
    if |images| == 0 then []
    else
      var img := images[|images| - 1];
      RowsOf(images[..|images| - 1], keyId, key) +
        if img.id == Read.DefaultID then [Failed(img.threadId)]
        else if img.id != keyId then [Student(img.id, Shown(key, img.answers, |img.answers|))]
        else []
  }

  /** The page's score against the key. */
  function PageScore(img: FormImage, key: seq<Answer>, total: nat): real
    requires |img.answers| <= |key|
  {
    Score(Same(key, img.answers, |img.answers|), total)
  }

  /** The `scores` map after the pages, as a list in increasing id order. */
  function Scores(images: seq<FormImage>, keyId: int, key: seq<Answer>, total: nat): seq<(int, real)>
    requires Fits(images, keyId, key)
  {
    if |images| == 0 then []
    else
      var img := images[|images| - 1];
      var before := Scores(images[..|images| - 1], keyId, key, total);
      if Scored(img, keyId) then Put(before, img.id, PageScore(img, key, total)) else before
  }

  /** The ids listed when there is no key: every readable page's id is
      listed, and nothing but readable pages' ids. */
  function Given(images: seq<FormImage>): (ids: seq<int>)
    ensures forall i :: 0 <= i < |images| && images[i].id != Read.DefaultID ==> images[i].id in ids
    ensures forall id :: id in ids ==> id != Read.DefaultID && exists i :: 0 <= i < |images| && images[i].id == id
    ensures |ids| <= |images|
  {
    if |images| == 0 then []
    else
      var img := images[|images| - 1];
      Given(images[..|images| - 1]) + if img.id != Read.DefaultID then [img.id] else []
  }

  /** The ids are listed in page order: the listing of two runs of pages is
      the first run's listing followed by the second's. */
  lemma {:induction false} GivenInPageOrder(a: seq<FormImage>, b: seq<FormImage>)
    ensures Given(a + b) == Given(a) + Given(b)
    decreases |b|
  {
    if |b| > 0 {
      var last := b[|b| - 1];
      var tail := if last.id != Read.DefaultID then [last.id] else [];
      assert (a + b)[..|a + b| - 1] == a + b[..|b| - 1];
      assert (a + b)[|a + b| - 1] == last;
      assert Given(a + b) == Given(a + b[..|b| - 1]) + tail;
      assert Given(b) == Given(b[..|b| - 1]) + tail;
      GivenInPageOrder(a, b[..|b| - 1]);
    } else {
      assert a + b == a;
    }
  }

  /** A single page lists its id exactly when it is readable. */
  lemma GivenOfPage(img: FormImage)
    ensures Given([img]) == if img.id != Read.DefaultID then [img.id] else []
  {
    assert [img][..0] == [];
  }

  /** The pages may be scored against the key the form's key id picks. */
  predicate Gradable(images: seq<FormImage>, keyId: int)
  {
    match KeyIndex(images, keyId)
    case None => true
    case Some(k) => Fits(images, keyId, images[k].answers)
  }

  /** The report for a form with the given id, key id, pages and log text,
      the placeholder form having id `defaultId`. */
  function PrintSpec(defaultId: int, id: int, keyId: int, images: seq<FormImage>, output: string): Report
    requires Gradable(images, keyId)
  {
    if id == defaultId then NoReport
    else match KeyIndex(images, keyId)
      case None => KeyNotFound(Given(images), output)
      case Some(k) =>
        KeyCountPositive(images, keyId);
        var key := images[k].answers;
        var total := NonBlank(key);
        Graded(key, total, KeyCount(images, keyId) - 1, RowsOf(images, keyId, key), Scores(images, keyId, key, total), output)
  }

  lemma {:induction false} NonBlankPrefix(a: seq<Answer>, n: nat)
    requires n <= |a|
    ensures NonBlank(a[..n]) <= NonBlank(a)
  {
    if n < |a| {
      assert a[..|a| - 1][..n] == a[..n];
      NonBlankPrefix(a[..|a| - 1], n);
    } else {
      assert a[..n] == a;
    }
  }

  lemma {:induction false} SameAtMostFilled(key: seq<Answer>, a: seq<Answer>, n: nat)
    requires n <= |a| && n <= |key|
    ensures Same(key, a, n) <= NonBlank(key[..n])
  {
    if n > 0 {
      SameAtMostFilled(key, a, n - 1);
      assert key[..n][..n - 1] == key[..n - 1];
    }
  }

  /** A score is a fraction between 0 and 1. */
  lemma ScoreBounds(img: FormImage, key: seq<Answer>)
    requires |img.answers| <= |key|
    ensures 0.0 <= PageScore(img, key, NonBlank(key)) <= 1.0
  {
    SameAtMostFilled(key, img.answers, |img.answers|);
    NonBlankPrefix(key, |img.answers|);
    ScoreBetween(Same(key, img.answers, |img.answers|), NonBlank(key));
  }

  lemma ScoreBetween(same: nat, total: nat)
    requires same <= total
    ensures 0.0 <= Score(same, total) <= 1.0
    ensures same == total ==> Score(same, total) == 1.0
  {
    if total > 0 {
      DivideBounds(total as real, 0.0, same as real, 1.0);
      if same == total {
        DivideBounds(total as real, 1.0, same as real, 1.0);
      }
    }
  }

  lemma {:induction false} SameAsKey(key: seq<Answer>, n: nat)
    requires n <= |key|
    ensures Same(key, key, n) == NonBlank(key[..n])
  {
    if n > 0 {
      SameAsKey(key, n - 1);
      assert key[..n][..n - 1] == key[..n - 1];
    }
  }

  /** A page answering exactly as the key scores 1. */
  lemma KeyScoresFull(img: FormImage, key: seq<Answer>)
    requires img.answers == key
    ensures PageScore(img, key, NonBlank(key)) == 1.0
  {
    SameAsKey(key, |key|);
    assert key[..|key|] == key;
    ScoreBetween(NonBlank(key), NonBlank(key));
  }

  /** A student's row shows one answer per question the key filled in among
      the questions the student has. */
  lemma {:induction false} ShownLength(key: seq<Answer>, a: seq<Answer>, n: nat)
    requires n <= |a| && n <= |key|
    ensures |Shown(key, a, n)| == NonBlank(key[..n])
  {
    if n > 0 {
      ShownLength(key, a, n - 1);
      assert key[..n][..n - 1] == key[..n - 1];
    }
  }

  /** The score of the last scored page with the given id, if any. */
  function LastScore(images: seq<FormImage>, keyId: int, key: seq<Answer>, total: nat, id: int): Option<real>
    requires Fits(images, keyId, key)
  {
    if |images| == 0 then None
    else
      var img := images[|images| - 1];
      if img.id == id && Scored(img, keyId) then Some(PageScore(img, key, total))
      else LastScore(images[..|images| - 1], keyId, key, total, id)
  }

  /** The scores are listed in increasing id order, and a student id repeated
      on several pages keeps the score of its last page. */
  lemma {:induction false} ScoresByLastPage(images: seq<FormImage>, keyId: int, key: seq<Answer>, total: nat, id: int)
    requires Fits(images, keyId, key)
    ensures KeysIncreasing(Scores(images, keyId, key, total))
    ensures Lookup(Scores(images, keyId, key, total), id) == LastScore(images, keyId, key, total, id)
  {
    if |images| > 0 {
      var img := images[|images| - 1];
      ScoresByLastPage(images[..|images| - 1], keyId, key, total, id);
      if Scored(img, keyId) {
        var before := Scores(images[..|images| - 1], keyId, key, total);
        PutKeysIncreasing(before, img.id, PageScore(img, key, total));
        PutLookup(before, img.id, PageScore(img, key, total), id);
      }
    }
  }

  /** `100.0 * a / b` rounded down, for b != 0. */
  function FloorDiv(a: int, b: int): int
    requires b != 0
  {
    if b > 0 then a / b else (-a) / (-b)
  }

  lemma DivBelow(x: int, p: int, k: int)
    requires p > 0 && 0 <= x < k * p
    ensures x / p < k
  {
    var q, r := x / p, x % p;
    assert x == q * p + r && 0 <= r;
    if q >= k {
      MulMonotone(k, q, p);
    }
  }

  /** The percentage of pages done, rounded down, with 100 reported as
      99. */
  function Percent(doneNow: int, pages: int): int
    requires pages != 0
  {
    var percentage := FloorDiv(100 * doneNow, pages);
    if percentage == 100 then 99 else percentage
  }

  /** Part way through, the percentage done rounded down; all done, 99. */
  lemma PercentBounds(doneNow: int, pages: int)
    requires 0 <= doneNow <= pages && pages > 0
    ensures 0 <= Percent(doneNow, pages) <= 99
    ensures doneNow < pages ==> Percent(doneNow, pages) == 100 * doneNow / pages
    ensures doneNow == pages ==> Percent(doneNow, pages) == 99
  {
    if doneNow < pages {
      DivBelow(100 * doneNow, pages, 100);
    } else {
      assert (100 * pages) / pages == 100;
    }
  }

  /** The first form in fs with the given id. */
  function FindIn(fs: seq<Form>, id: int): (r: Option<nat>)
    reads set f | f in fs
    ensures r.Some? ==> r.value < |fs| && fs[r.value].id == id
    ensures r.Some? ==> forall j :: 0 <= j < r.value ==> fs[j].id != id
    ensures r.None? ==> forall j :: 0 <= j < |fs| ==> fs[j].id != id
  {
    if |fs| == 0 then None
    else
      var r := FindIn(fs[..|fs| - 1], id);
      if r.Some? then r
      else if fs[|fs| - 1].id == id then Some(|fs| - 1)
      else None
  }

  class Processor {
    /** The form handed out for an unknown id. */
    const defaultForm: Form
    /** The forms being processed, oldest first. */
    var forms: seq<Form>

    constructor ()
      ensures fresh(defaultForm) && forms == []
      ensures defaultForm.id == -1 && defaultForm.pages == -1 && defaultForm.done == 0
    {
      defaultForm := new Form.Placeholder();
      forms := [];
    }

    /** `findForm(id)`: the first form with that id, or the placeholder. */
    function FindForm(id: int): (f: Form)
      reads this, set g | g in forms
    {
      match FindIn(forms, id)
      case None => defaultForm
      case Some(i) => forms[i]
    }

    /** `done(id)`: the form is the placeholder, or equal to it, or
        finished. */
    predicate Done(id: int)
      reads this, defaultForm, set g | g in forms
    {
      var f := FindForm(id);
      FormEq(f, defaultForm) || f.finished
    }

    /** `statusWait(id)` once the wait is over: 100 for the placeholder, a
        finished form or one without pages, and when the processor is
        exiting; otherwise the percentage of pages done, with 100 reported
        as 99. `doneNow` is the form's count after the wait. */
    function StatusWait(id: int, doneNow: int, exiting: bool): int
      reads this, defaultForm, set g | g in forms
    {
      var f := FindForm(id);
      if FormEq(f, defaultForm) || f.finished || f.pages == 0 then 100
      else if exiting then 100
      else
        Percent(doneNow, f.pages)
    }

    /** `findForm` finds the first form with the id; an id no form has gives
        the placeholder. `done` holds for such an id and for a finished
        form. */
    lemma FindFormMeaning(id: int)
      ensures FindIn(forms, id).None? ==> FindForm(id) == defaultForm && Done(id)
      ensures forall i :: FindIn(forms, id) == Some(i) ==>
        FindForm(id) == forms[i] && (Done(id) <==> id == defaultForm.id || forms[i].finished)
      ensures (exists j :: 0 <= j < |forms| && forms[j].id == id) ==> FindIn(forms, id).Some?
    {
    }

    /** While pages remain, the progress is the percentage done rounded
        down, between 0 and 99; a form with all pages done reports 99. */
    lemma StatusWaitProgress(id: int, doneNow: int)
      requires FindIn(forms, id).Some? && id != defaultForm.id
      requires !FindForm(id).finished && FindForm(id).pages > 0
      requires 0 <= doneNow <= FindForm(id).pages
      ensures 0 <= StatusWait(id, doneNow, false) <= 99
      ensures doneNow < FindForm(id).pages ==> StatusWait(id, doneNow, false) == 100 * doneNow / FindForm(id).pages
      ensures doneNow == FindForm(id).pages ==> StatusWait(id, doneNow, false) == 99
      ensures StatusWait(id, doneNow, true) == 100
    {
      PercentBounds(doneNow, FindForm(id).pages);
    }

    /** `print(form)`: "" for the placeholder; otherwise the first page
        with the key's id is the key (later ones are skipped with a log
        message), `total` counts its filled-in answers, and every other
        page is either reported as unreadable or scored; without a key page
        the readable ids are listed. The text layout is not modelled. */
    method Print(form: Form) returns (report: Report)
      requires Gradable(form.formImages, form.key)
      ensures report == PrintSpec(defaultForm.id, form.id, form.key, form.formImages, form.output)
    {
      if FormEq(form, defaultForm) {
        return NoReport;
      }
      var images := form.formImages;
      var found, key, total, skipped := FindKey(images, form.key);
      if found {
        var rows, scores := GradePages(images, form.key, key, total);
        report := Graded(key, total, skipped, rows, scores, form.output);
      } else {
        var given := ListGiven(images);
        report := KeyNotFound(given, form.output);
      }
    }
  }

  /** The first loop of `print`: the first page carrying the key's id
      becomes the key and `total` counts its filled-in answers; each later
      such page is skipped. */
  method FindKey(images: seq<FormImage>, keyId: int) returns (found: bool, key: seq<Answer>, total: nat, skipped: nat)
    ensures found <==> KeyIndex(images, keyId).Some?
    ensures found ==> key == images[KeyIndex(images, keyId).value].answers && total == NonBlank(key)
    ensures found ==> skipped == KeyCount(images, keyId) - 1
  {
    total := 0;
    found := false;
    key := [];
    skipped := 0;
    var i := 0;
    while i < |images|
      invariant 0 <= i <= |images|
      invariant found <==> KeyIndex(images[..i], keyId).Some?
      invariant found ==> key == images[KeyIndex(images[..i], keyId).value].answers && total == NonBlank(key)
      invariant skipped == if found then KeyCount(images[..i], keyId) - 1 else 0
      invariant !found ==> KeyCount(images[..i], keyId) == 0
    {
      assert images[..i + 1][..i] == images[..i];
      KeyCountPositive(images[..i], keyId);
      var img := images[i];
      if img.id == keyId {
        if found {
          skipped := skipped + 1;
        } else {
          total := CountFilled(img.answers);
          key := img.answers;
          found := true;
        }
      }
      i := i + 1;
    }
    assert images[..i] == images;
  }

  /** The second loop of `print`, run when a key was found: a row for each
      unreadable page, and a row and a score for each other page without
      the key's id. */
  method GradePages(images: seq<FormImage>, keyId: int, key: seq<Answer>, total: nat)
    returns (rows: seq<Row>, scores: seq<(int, real)>)
    requires Fits(images, keyId, key)
    ensures rows == RowsOf(images, keyId, key)
    ensures scores == Scores(images, keyId, key, total)
  {
    rows := [];
    scores := [];
    var i := 0;
    while i < |images|
      invariant 0 <= i <= |images|
      invariant Fits(images[..i], keyId, key)
      invariant rows == RowsOf(images[..i], keyId, key)
      invariant scores == Scores(images[..i], keyId, key, total)
    {
      assert images[..i + 1][..i] == images[..i];
      var img := images[i];
      if img.id == Read.DefaultID {
        rows := rows + [Failed(img.threadId)];
      } else if img.id != keyId {
        var same, shown := ScorePage(key, img.answers);
        rows := rows + [Student(img.id, shown)];
        scores := Put(scores, img.id, Score(same, total));
      }
      i := i + 1;
    }
    assert images[..i] == images;
  }

  /** The loop of `print` run when no key was found: the ids of the
      readable pages. */
  method ListGiven(images: seq<FormImage>) returns (given: seq<int>)
    ensures given == Given(images)
  {
    given := [];
    var i := 0;
    while i < |images|
      invariant 0 <= i <= |images| && given == Given(images[..i])
    {
      assert images[..i + 1][..i] == images[..i];
      if images[i].id != Read.DefaultID {
        given := given + [images[i].id];
      }
      i := i + 1;
    }
    assert images[..i] == images;
  }

  /** The key loop of `print`: one more for each answer that is not
      `Blank`. */
  method CountFilled(answers: seq<Answer>) returns (total: nat)
    ensures total == NonBlank(answers)
  {
    total := 0;
    var q := 0;
    while q < |answers|
      invariant 0 <= q <= |answers| && total == NonBlank(answers[..q])
    {
      assert answers[..q + 1][..q] == answers[..q];
      if answers[q] != Blank {
        total := total + 1;
      }
      q := q + 1;
    }
    assert answers[..q] == answers;
  }

  /** The student loop of `print`: over the student's answers, the ones at
      positions the key filled in are shown, and those equal to the key's
      are counted. */
  method ScorePage(key: seq<Answer>, answers: seq<Answer>) returns (same: nat, shown: seq<Answer>)
    requires |answers| <= |key|
    ensures same == Same(key, answers, |answers|)
    ensures shown == Shown(key, answers, |answers|)
  {
    same := 0;
    shown := [];
    var q := 0;
    while q < |answers|
      invariant 0 <= q <= |answers|
      invariant same == Same(key, answers, q) && shown == Shown(key, answers, q)
    {
      if key[q] != Blank {
        shown := shown + [answers[q]];
        if key[q] == answers[q] {
          same := same + 1;
        }
      }
      q := q + 1;
    }
  }
}
