/** The browser-side checks of the upload page (website/files/script.js):
    the username, key and PDF tests, and the "unsaved work" flag that an
    upload raises and its completion or failure lowers, asked for before
    the page is left. */
module Script {
  import opened Wrappers
  import opened Data

  /** A character of `[A-Za-z0-9\-_\.]`. */
  predicate UserChar(c: char)
  {
    || 'A' <= c <= 'Z' || 'a' <= c <= 'z' || '0' <= c <= '9'
    || c == '-' || c == '_' || c == '.'
  }

  /** `/^[A-Za-z0-9\-_\.]+$/`: one or more such characters and nothing else. */
  predicate MatchesUserPattern(s: string)
  {
    |s| >= 1 && forall i :: 0 <= i < |s| ==> UserChar(s[i])
  }

  /** `validUser(username)`: the length check, then the pattern. */
  predicate ValidUser(username: string)
  {
    if |username| < 4 || |username| > 30 then false
    else MatchesUserPattern(username)
  }

  /** `validKey(key)`: the length check, then `/^[0-9]+$/`. */
  predicate ValidKey(key: string)
  {
    if |key| < 1 || |key| > 10 then false
    else AllDigits(key)
  }

  /** A name passes exactly when it has 4 to 30 characters, each a letter,
      a digit, '-', '_' or '.'. */
  lemma ValidUserMeaning(username: string)
    ensures ValidUser(username) <==>
      4 <= |username| <= 30 && forall i :: 0 <= i < |username| ==> UserChar(username[i])
  {
  }

  /** A key passes exactly when it has 1 to 10 characters, all digits. */
  lemma ValidKeyMeaning(key: string)
    ensures ValidKey(key) <==> 1 <= |key| <= 10 && forall i :: 0 <= i < |key| ==> IsDigit(key[i])
  {
  }

  /** A valid key names a number of at most ten decimal digits. */
  lemma ValidKeyValue(key: string)
    requires ValidKey(key)
    ensures AllDigits(key) && 0 <= ParseNat(key) < 10000000000
  {
    KeyBelow(key, |key|);
    Pow10Monotone(|key|, 10);
  }

  /** A number of n digits is below 10^n. */
  lemma {:induction false} KeyBelow(key: string, n: nat)
    requires AllDigits(key) && n == |key|
    ensures ParseNat(key) < Pow10(n)
  {
    if n > 0 {
      var front := key[..n - 1];
      KeyBelow(front, n - 1);
      assert ParseNat(key) == ParseNat(front) * 10 + (key[n - 1] as int - '0' as int);
    }
  }

  function Pow10(n: nat): nat
  {
    if n == 0 then 1 else 10 * Pow10(n - 1)
  }

  lemma {:induction false} Pow10Monotone(m: nat, n: nat)
    requires m <= n
    ensures Pow10(m) <= Pow10(n)
  {
    if m < n {
      Pow10Monotone(m, n - 1);
    }
  }

  /** `toLowerCase` on the letters A to Z; other characters are kept. */
  function Lower(c: char): (l: char)
    ensures 'a' <= l <= 'z' <==> ('a' <= c <= 'z' || 'A' <= c <= 'Z')
  {
    if 'A' <= c <= 'Z' then (c as int - 'A' as int + 'a' as int) as char else c
  }

  function LowerAll(s: string): (r: string)
    ensures |r| == |s|
  {
    if |s| == 0 then [] else LowerAll(s[..|s| - 1]) + [Lower(s[|s| - 1])]
  }

  /** `name.substr(-3, 3)`: the last three characters, or the whole name
      when it is shorter. */
  function LastThree(name: string): (r: string)
    ensures |r| == if |name| < 3 then |name| else 3
  {
    if |name| < 3 then name else name[|name| - 3..]
  }

  /** `isPdf(type, name)`. */
  predicate IsPdf(fileType: string, name: string)
  {
    fileType == "application/pdf" || LowerAll(LastThree(name)) == "pdf"
  }

  /** A file is taken as a PDF by its type, or by a name of at least three
      characters ending in p, d, f in either case. */
  lemma IsPdfMeaning(fileType: string, name: string)
    ensures IsPdf(fileType, name) <==>
      || fileType == "application/pdf"
      || (&& |name| >= 3
          && name[|name| - 3] in "pP" && name[|name| - 2] in "dD" && name[|name| - 1] in "fF")
  {
    var last := LastThree(name);
    var lowered := LowerAll(last);
    if |name| >= 3 {
      assert lowered == [Lower(last[0]), Lower(last[1]), Lower(last[2])] by {
        assert last[..2][..1] == last[..1];
        assert last[..1][..0] == [];
        assert LowerAll(last[..1]) == [Lower(last[0])];
        assert LowerAll(last[..2]) == [Lower(last[0]), Lower(last[1])];
      }
      assert last[0] == name[|name| - 3] && last[1] == name[|name| - 2] && last[2] == name[|name| - 1];
    } else {
      assert |lowered| < 3;
    }
  }

  /** `result.split("\n")`. */
  function Split(s: string): (pieces: seq<string>)
    ensures |pieces| >= 1
  {
    if |s| == 0 then [""]
    else
      var before := Split(s[..|s| - 1]);
      if s[|s| - 1] == '\n' then before + [""]
      else before[..|before| - 1] + [before[|before| - 1] + [s[|s| - 1]]]
  }

  /** `lines[lines.length - 2]`: undefined when there is no newline. */
  function SecondToLast(s: string): (line: Option<string>)
  {
    var lines := Split(s);
    if |lines| >= 2 then Some(lines[|lines| - 2]) else None
  }

  lemma {:induction false} SplitAppend(s: string, t: string)
    requires '\n' !in t
    ensures |Split(s + t)| == |Split(s)|
    ensures Split(s + t)[..|Split(s)| - 1] == Split(s)[..|Split(s)| - 1]
    ensures Split(s + t)[|Split(s)| - 1] == Split(s)[|Split(s)| - 1] + t
  {
    if |t| > 0 {
      var t' := t[..|t| - 1];
      assert (s + t)[..|s + t| - 1] == s + t';
      SplitAppend(s, t');
    } else {
      assert s + t == s;
    }
  }

  /** A reply whose last line is ended by a newline, the text before that
      line being empty or ended by a newline too, yields that line. */
  lemma LastLineOfReply(body: string, line: string)
    requires '\n' !in line
    requires |body| == 0 || body[|body| - 1] == '\n'
    ensures SecondToLast(body + line + "\n") == Some(line)
  {
    var s := body + line;
    SplitAppend(body, line);
    assert (s + "\n")[..|s + "\n"| - 1] == s;
    assert Split(s + "\n") == Split(s) + [""];
    var before := Split(body);
    if |body| > 0 {
      assert before == Split(body[..|body| - 1]) + [""];
    }
    assert before[|before| - 1] == "";
    assert Split(s)[|before| - 1] == line;
  }

  /** The characters `parseInt` skips before a number: JavaScript's white
      space and line terminators. */
  function IsSpace(c: char): bool
  {
    || c == '\t' || c == '\U{000B}' || c == '\U{000C}' || c == ' ' || c == '\U{00A0}' || c == '\U{FEFF}'
    || c == '\n' || c == '\r' || c == '\U{2028}' || c == '\U{2029}'
    || c == '\U{1680}' || '\U{2000}' <= c <= '\U{200A}' || c == '\U{202F}' || c == '\U{205F}' || c == '\U{3000}'
  }

  /** The longest run of digits at the start of s. */
  function DigitPrefix(s: string): (d: string)
    ensures |d| <= |s| && d == s[..|d|] && AllDigits(d)
    ensures |d| < |s| ==> !IsDigit(s[|d|])
  {
    if |s| == 0 || !IsDigit(s[0]) then [] else [s[0]] + DigitPrefix(s[1..])
  }

  /** `parseInt(s, 10)` on the text the server sends: leading white space,
      an optional sign, then as many digits as there are; NaN (None) when
      there is no digit. */
  function ParseIntJs(s: string): (r: Option<int>)
    decreases |s|
  {
    if |s| > 0 && IsSpace(s[0]) then ParseIntJs(s[1..])
    else if |s| > 0 && (s[0] == '-' || s[0] == '+') then
      var d := DigitPrefix(s[1..]);
      if |d| == 0 then None
      else if s[0] == '-' then Some(0 - ParseNat(d) as int)
      else Some(ParseNat(d))
    else
      var d := DigitPrefix(s);
      if |d| == 0 then None else Some(ParseNat(d))
  }

  /** An id written in decimal, possibly followed by other text, reads back
      as that id. */
  lemma ParseIntJsReadsId(id: nat, rest: string)
    requires |rest| == 0 || !IsDigit(rest[0])
    ensures ParseIntJs(NatToString(id) + rest) == Some(id)
  {
    NatToStringRoundTrip(id);
    var s := NatToString(id);
    DigitPrefixOf(s, rest);
  }

  lemma {:induction false} DigitPrefixOf(s: string, rest: string)
    requires AllDigits(s) && (|rest| == 0 || !IsDigit(rest[0]))
    ensures DigitPrefix(s + rest) == s
  {
    if |s| > 0 {
      assert (s + rest)[1..] == s[1..] + rest;
      DigitPrefixOf(s[1..], rest);
    } else {
      assert s + rest == rest;
    }
  }

  /** A selected file: its MIME type and name. */
  datatype File = File(fileType: string, name: string)

  /** The requests the page sends: an upload for a key, and a status poll
      for the id the upload reply carried (NaN as None). */
  datatype Request = Upload(key: string) | Process(id: Option<int>)

  /** The warning `confirmExit` returns. */
  const LeaveWarning := "Are you sure you want to leave this page? You will lose data if you do."

  /** The parts of the upload page that the handlers set. */
  class Page {
    /** `window.needToConfirm`. */
    var needToConfirm: bool
    /** The upload button's `disabled`. */
    var buttonDisabled: bool
    /** The progress element's text, and whether it is displayed. */
    var progress: string
    var progressShown: bool
    /** The error element's text, and whether it is displayed. */
    var error: string
    var errorShown: bool
    /** Requests sent, oldest first. */
    var requests: seq<Request>
    /** Ids whose results were requested with `formGetOne` (NaN as None). */
    var fetched: seq<Option<int>>
    /** How many times the upload form was reset. */
    var resets: nat

    /** `window.onload`: nothing to confirm yet. */
    constructor Load()
      ensures !needToConfirm && requests == [] && fetched == [] && resets == 0
    {
      needToConfirm := false;
      requests, fetched, resets := [], [], 0;
    }

    /** `uploadFile()`: with a file that passes `isPdf` and a key that passes
        `validKey`, sends the upload, shows the progress, hides the error,
        disables the button and raises the flag; otherwise changes nothing.
        It always returns false. */
    method UploadFile(file: Option<File>, key: string) returns (r: bool)
      modifies this
      ensures !r
      ensures var go := file.Some? && IsPdf(file.value.fileType, file.value.name) && ValidKey(key);
        && (go ==> && requests == old(requests) + [Upload(key)]
                   && progressShown && !errorShown && buttonDisabled && needToConfirm
                   && progress == old(progress) && error == old(error))
        && (!go ==> && requests == old(requests) && progressShown == old(progressShown)
                    && errorShown == old(errorShown) && buttonDisabled == old(buttonDisabled)
                    && needToConfirm == old(needToConfirm)
                    && progress == old(progress) && error == old(error))
      ensures fetched == old(fetched) && resets == old(resets)
    {
      if file.Some? && IsPdf(file.value.fileType, file.value.name) && ValidKey(key) {
        requests := requests + [Upload(key)];
        progressShown := true;
        errorShown := false;
        buttonDisabled := true;
        needToConfirm := true;
      }
      r := false;
    }

    /** `uploadComplete(result)`: lowers the flag first; then a reply other
        than "failed" starts polling the id it carries, and "failed" shows
        the upload error. */
    method UploadComplete(result: string)
      modifies this
      ensures !needToConfirm
      ensures result != "failed" ==>
        && requests == old(requests) + [Process(ParseIntJs(result))] && progress == "Processing"
        && error == old(error) && errorShown == old(errorShown)
      ensures result == "failed" ==>
        && requests == old(requests) && progress == ""
        && error == "Error uploading file" && errorShown
      ensures buttonDisabled == old(buttonDisabled) && progressShown == old(progressShown)
      ensures fetched == old(fetched) && resets == old(resets)
    {
      needToConfirm := false;
      if result != "failed" {
        var id := ParseIntJs(result);
        progress := "Processing";
        requests := requests + [Process(id)];
      } else {
        progress := "";
        error := "Error uploading file";
        errorShown := true;
      }
    }

    /** `processComplete(result)`: the second-to-last line of the reply
        decides; "failed" shows the processing error, anything else resets
        the form, shows "Done" and fetches the results for the id it reads.
        The flag is left as it is. */
    method ProcessComplete(result: string)
      modifies this
      ensures var lastLine := SecondToLast(result);
        && (lastLine != Some("failed") ==>
              && resets == old(resets) + 1 && progress == "Done"
              && fetched == old(fetched) + [if lastLine.Some? then ParseIntJs(lastLine.value) else None]
              && error == old(error) && errorShown == old(errorShown))
        && (lastLine == Some("failed") ==>
              && resets == old(resets) && fetched == old(fetched) && progress == ""
              && error == "Error processing file" && errorShown)
      ensures needToConfirm == old(needToConfirm) && buttonDisabled == old(buttonDisabled)
      ensures requests == old(requests) && progressShown == old(progressShown)
    {
      var lastLine := SecondToLast(result);
      if lastLine != Some("failed") {
        resets := resets + 1;
        progress := "Done";
        var id := if lastLine.Some? then ParseIntJs(lastLine.value) else None;
        fetched := fetched + [id];
      } else {
        progress := "";
        error := "Error processing file";
        errorShown := true;
      }
    }

    /** `fileError(msg)`: clears the progress, shows msg, re-enables the
        button and lowers the flag. */
    method FileError(msg: string)
      modifies this
      ensures progress == "" && error == msg && errorShown && !buttonDisabled && !needToConfirm
      ensures requests == old(requests) && fetched == old(fetched) && resets == old(resets)
      ensures progressShown == old(progressShown)
    {
      progress := "";
      error := msg;
      errorShown := true;
      buttonDisabled := false;
      needToConfirm := false;
    }

    /** `confirmExit()`: the warning while the flag is raised, otherwise
        nothing (undefined). */
    method ConfirmExit() returns (warning: Option<string>)
      ensures warning.Some? <==> needToConfirm
      ensures warning.Some? ==> warning.value == LeaveWarning
    {
      if needToConfirm {
        warning := Some(LeaveWarning);
      } else {
        warning := None;
      }
    }
  }
}
