/** Heading detection of the classic template
    (`heading` in rucco_lib/src/templates/classic.rs): a hand-written
    matcher for the anchored pattern `(?i)\A[ \t]*<h(\d)+>(.*?)</h\d+>`,
    proved equal to a declarative reading of that pattern. */
module Heading {
  import opened Wrappers

  predicate IsBlank(c: char) { c == ' ' || c == '\t' }

  predicate IsDigit(c: char) { '0' <= c <= '9' }

  /** The letter h under case-insensitive matching. */
  predicate IsH(c: char) { c == 'h' || c == 'H' }

  /** The end of the run of blanks starting at `i`. */
  function SkipBlanks(s: string, i: nat): (j: nat)
    requires i <= |s|
    ensures i <= j <= |s|
    ensures forall k | i <= k < j :: IsBlank(s[k])
    ensures j == |s| || !IsBlank(s[j])
    decreases |s| - i
  {
    if i < |s| && IsBlank(s[i]) then SkipBlanks(s, i + 1) else i
  }

  /** The end of the run of digits starting at `i`. */
  function SkipDigits(s: string, i: nat): (j: nat)
    requires i <= |s|
    ensures i <= j <= |s|
    ensures forall k | i <= k < j :: IsDigit(s[k])
    ensures j == |s| || !IsDigit(s[j])
    decreases |s| - i
  {
    if i < |s| && IsDigit(s[i]) then SkipDigits(s, i + 1) else i
  }

  // ---- The pattern, read declaratively ----

  /** `[ \t]*<h(\d)+>` matches `doc[..d + 1]`: blanks before `b`, "<h" at
      `b`, digits from `b + 2` up to the '>' at `d`. */
  ghost predicate Opens(doc: string, b: int, d: int) {
    && 0 <= b && b + 2 < d < |doc|
    && (forall k | 0 <= k < b :: IsBlank(doc[k]))
    && doc[b] == '<' && IsH(doc[b + 1])
    && (forall k | b + 2 <= k < d :: IsDigit(doc[k]))
    && doc[d] == '>'
  }

  /** `</h\d+>` matches from `j` to the '>' at `e`. */
  ghost predicate ClosesWith(doc: string, j: int, e: int) {
    && 0 <= j && j + 3 < e < |doc|
    && doc[j] == '<' && doc[j + 1] == '/' && IsH(doc[j + 2])
    && (forall k | j + 3 <= k < e :: IsDigit(doc[k]))
    && doc[e] == '>'
  }

  /** The whole pattern matches with heading text `doc[d + 1..j]`, which
      `.` keeps free of newlines. */
  ghost predicate Matches(doc: string, b: int, d: int, j: int, e: int) {
    && Opens(doc, b, d)
    && d + 1 <= j
    && ClosesWith(doc, j, e)
    && (forall k | d + 1 <= k < j :: doc[k] != '\n')
  }

  /** The lazy `.*?` stops at the first closing tag. */
  ghost predicate FirstClose(doc: string, d: int, j: int) {
    forall j', e' | d + 1 <= j' < j :: !ClosesWith(doc, j', e')
  }

  // ---- The matcher ----

  /** A closing tag `</h\d+>` starts at `j`. */
  predicate Closes(s: string, j: nat)
    requires j <= |s|
  {
    && j + 3 < |s| && s[j] == '<' && s[j + 1] == '/' && IsH(s[j + 2])
    && var e := SkipDigits(s, j + 3); j + 3 < e < |s| && s[e] == '>'
  }

  lemma ClosesIsClosesWith(s: string, j: nat)
    requires j <= |s|
    ensures Closes(s, j) ==> ClosesWith(s, j, SkipDigits(s, j + 3))
    ensures forall e | ClosesWith(s, j, e) :: Closes(s, j) && e == SkipDigits(s, j + 3)
  {
    forall e | ClosesWith(s, j, e)
      ensures Closes(s, j) && e == SkipDigits(s, j + 3)
    {
    }
  }

  /** The first closing tag at or after `i` with no newline before it. */
  function FindClose(s: string, i: nat): (r: Option<nat>)
    requires i <= |s|
    ensures r.Some? ==> i <= r.value <= |s| && Closes(s, r.value)
    ensures r.Some? ==> forall k | i <= k < r.value :: s[k] != '\n' && !Closes(s, k)
    ensures r.None? ==> forall j | i <= j <= |s| && (forall k | i <= k < j :: s[k] != '\n') :: !Closes(s, j)
    decreases |s| - i
  {
    if Closes(s, i) then Some(i)
    else if i == |s| || s[i] == '\n' then None
    else FindClose(s, i + 1)
  }

  /** `heading`: the level (the last digit of the opening tag) and the text
      of a heading the documentation starts with, or `None`. */
  function Heading(doc: string): (r: Option<(string, string)>)
    ensures r.Some? ==> |r.value.0| == 1 && IsDigit(r.value.0[0])
    ensures r.Some? ==> forall k | 0 <= k < |r.value.1| :: r.value.1[k] != '\n'
  {
    var b := SkipBlanks(doc, 0);
    if b + 2 < |doc| && doc[b] == '<' && IsH(doc[b + 1]) then
      var d := SkipDigits(doc, b + 2);
      if b + 2 < d < |doc| && doc[d] == '>' then
        match FindClose(doc, d + 1)
        case Some(j) => Some(([doc[d - 1]], doc[d + 1..j]))
        case None => None
      else None
    else None
  }

  // ---- The matcher agrees with the pattern ----

  /** The matcher's result once its scans are known. */
  lemma HeadingFromScans(doc: string, b: nat, d: nat, j: nat)
    requires b + 2 < d < |doc| && SkipBlanks(doc, 0) == b && SkipDigits(doc, b + 2) == d
    requires doc[b] == '<' && IsH(doc[b + 1]) && doc[d] == '>'
    requires FindClose(doc, d + 1) == Some(j)
    ensures Heading(doc) == Some(([doc[d - 1]], doc[d + 1..j]))
  {
  }

  /** The blanks and digits of an opening tag are where the matcher looks. */
  lemma {:induction false} OpensAtSkips(doc: string, b: int, d: int)
    requires Opens(doc, b, d)
    ensures b == SkipBlanks(doc, 0) && d == SkipDigits(doc, b + 2)
  {
  }

  /** Whatever the matcher returns is the pattern's leftmost match. */
  lemma {:induction false} HeadingSound(doc: string)
    requires Heading(doc).Some?
    ensures exists b, d, j, e ::
              && Matches(doc, b, d, j, e) && FirstClose(doc, d, j)
              && Heading(doc).value == ([doc[d - 1]], doc[d + 1..j])
  {
    var b := SkipBlanks(doc, 0);
    var d := SkipDigits(doc, b + 2);
    var j := FindClose(doc, d + 1).value;
    var e := SkipDigits(doc, j + 3);
    ClosesIsClosesWith(doc, j);
    forall j', e' | d + 1 <= j' < j
      ensures !ClosesWith(doc, j', e')
    {
      ClosesIsClosesWith(doc, j');
    }
    assert Matches(doc, b, d, j, e);
  }

  /** Whenever the pattern matches, the matcher finds the heading: its level
      is the last digit of the opening tag and its text ends at the first
      closing tag. */
  lemma {:induction false} HeadingComplete(doc: string, b: int, d: int, j: int, e: int)
    requires Matches(doc, b, d, j, e)
    ensures Heading(doc).Some? && Heading(doc).value.0 == [doc[d - 1]]
    ensures FirstClose(doc, d, j) ==> Heading(doc).value.1 == doc[d + 1..j]
  {
    OpensAtSkips(doc, b, d);
    var jr := FindCloseReaches(doc, d + 1, j, e);
    HeadingFromScans(doc, b, d, jr);
    if FirstClose(doc, d, j) {
      FirstCloseIsFound(doc, d, j, jr);
    }
  }

  /** Before the first closing tag the matcher finds no other. */
  lemma FirstCloseIsFound(doc: string, d: nat, j: int, jr: nat)
    requires d + 1 <= |doc| && FindClose(doc, d + 1) == Some(jr) && jr <= j
    requires FirstClose(doc, d, j)
    ensures jr == j
  {
    ClosesIsClosesWith(doc, jr);
    assert ClosesWith(doc, jr, SkipDigits(doc, jr + 3));
  }

  /** A closing tag reachable from `i` without crossing a newline is found,
      at it or before it. */
  lemma {:induction false} FindCloseReaches(s: string, i: nat, j: int, e: int) returns (jr: nat)
    requires i <= j && ClosesWith(s, j, e)
    requires forall k | i <= k < j :: s[k] != '\n'
    ensures FindClose(s, i) == Some(jr) && jr <= j
  {
    ClosesIsClosesWith(s, j);
    jr := FindClose(s, i).value;
  }

  /** No heading means the pattern matches nowhere. */
  lemma HeadingNone(doc: string)
    requires Heading(doc).None?
    ensures forall b, d, j, e :: !Matches(doc, b, d, j, e)
  {
    forall b, d, j, e | Matches(doc, b, d, j, e)
      ensures false
    {
      HeadingComplete(doc, b, d, j, e);
    }
  }

  // Concrete runs of the matcher, traced one step at a time.

  lemma ScanExampleOpen(doc: string)
    requires doc == "<h1>MAH TITLE</h1>docdocdoc"
    ensures SkipBlanks(doc, 0) == 0 && SkipDigits(doc, 2) == 3
  {
    assert SkipDigits(doc, 3) == 3;
  }

  lemma ScanExampleCloser(doc: string)
    requires doc == "<h1>MAH TITLE</h1>docdocdoc"
    ensures Closes(doc, 13)
  {
    assert SkipDigits(doc, 17) == 17;
    assert SkipDigits(doc, 16) == 17;
  }

  lemma ScanExampleText(doc: string)
    requires doc == "<h1>MAH TITLE</h1>docdocdoc"
    ensures FindClose(doc, 4) == Some(13)
  {
    ScanExampleCloser(doc);
    ExampleSlices(doc);
    PlainText(doc, 4, 13);
    FindCloseAt(doc, 4, 13);
  }

  lemma PlainText(doc: string, i: nat, j: nat)
    requires i <= j <= |doc| && doc[i..j] == "MAH TITLE"
    ensures forall k | i <= k < j :: doc[k] != '\n' && doc[k] != '<'
  {
    forall k | i <= k < j
      ensures doc[k] != '\n' && doc[k] != '<'
    {
      assert doc[k] == doc[i..j][k - i];
    }
  }

  /** A closing tag preceded only by plain text is the one found. */
  lemma {:induction false} FindCloseAt(s: string, i: nat, j: nat)
    requires i <= j <= |s| && Closes(s, j)
    requires forall k | i <= k < j :: s[k] != '\n' && s[k] != '<'
    ensures FindClose(s, i) == Some(j)
    decreases j - i
  {
    if i < j {
      FindCloseAt(s, i + 1, j);
    }
  }

  /** The template's own example: `<h1>MAH TITLE</h1>docdocdoc`. */
  lemma HeadingExample(doc: string)
    requires doc == "<h1>MAH TITLE</h1>docdocdoc"
    ensures Heading(doc) == Some(("1", "MAH TITLE"))
  {
    ScanExampleOpen(doc);
    ScanExampleText(doc);
    ExampleSlices(doc);
    HeadingFromScans(doc, 0, 3, 13);
  }

  lemma ExampleSlices(doc: string)
    requires doc == "<h1>MAH TITLE</h1>docdocdoc"
    ensures [doc[2]] == "1" && doc[4..13] == "MAH TITLE"
    ensures doc[0] == '<' && IsH(doc[1]) && doc[3] == '>'
  {
    var title := "MAH TITLE";
    assert doc == "<h1>" + title + "</h1>docdocdoc";
  }

  lemma ScanLastDigit(doc: string)
    requires doc == "<h12>x</h3>"
    ensures SkipBlanks(doc, 0) == 0 && SkipDigits(doc, 2) == 4
    ensures FindClose(doc, 5) == Some(6)
  {
    assert SkipDigits(doc, 4) == 4;
    assert SkipDigits(doc, 3) == 4;
    assert SkipDigits(doc, 9) == 10;
    assert Closes(doc, 6);
    assert FindClose(doc, 6) == Some(6);
  }

  /** The repeated group `(\d)+` captures its last repetition: `<h12>` has level "2". */
  lemma HeadingLastDigit(doc: string)
    requires doc == "<h12>x</h3>"
    ensures Heading(doc) == Some(("2", "x"))
  {
    ScanLastDigit(doc);
    HeadingFromScans(doc, 0, 4, 6);
    assert doc[5..6] == "x";
  }
}
