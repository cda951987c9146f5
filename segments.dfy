/** Segments of a source file and the rule that merges them
    (rucco_lib/src/segment.rs): a "current" segment is extended by data of
    its own kind, or replaced by data of another kind, the old one being
    handed back as finished. Folding that rule over a stream of segments
    gives the compactor. */
module Segments {
  import opened Wrappers

  /** `Segment`, with the `Empty` case the merge rule matches on. A title's
      level is the number of leading '#' of its text; the text is kept
      verbatim ("## lol" is `Title(2, "## lol")`). */
  datatype Segment = Empty | Title(level: nat, text: string) | Code(text: string) | Doc(text: string)

  datatype Kind = NoKind | TitleKind | CodeKind | DocKind

  function KindOf(s: Segment): Kind {
    match s
    case Empty => NoKind
    case Title(_, _) => TitleKind
    case Code(_) => CodeKind
    case Doc(_) => DocKind
  }

  /** The number of '#' characters `line` starts with. */
  function LeadingHashes(line: string): (n: nat)
    ensures n <= |line|
    ensures forall i | 0 <= i < n :: line[i] == '#'
    ensures n == |line| || line[n] != '#'
  {
    if line != [] && line[0] == '#' then 1 + LeadingHashes(line[1..]) else 0
  }

  /** The title segment for a heading line, or `None` if it does not start with '#'. */
  function TitleOf(line: string): (r: Option<Segment>)
    ensures r.Some? <==> line != [] && line[0] == '#'
    ensures r.Some? ==> r.value == Title(LeadingHashes(line), line) && r.value.level >= 1
  {
    if line != [] && line[0] == '#' then Some(Title(LeadingHashes(line), line)) else None
  }

  lemma TitleOfExample()
    ensures TitleOf("## lol") == Some(Title(2, "## lol"))
  {
    assert "## lol"[0] == '#' && "## lol"[1..] == "# lol";
    assert "# lol"[0] == '#' && "# lol"[1..] == " lol";
    assert " lol"[0] == ' ';
  }

  /** The merge rule of `Segment::push`: the new current segment and the
      finished segment it hands back, if any. */
  function Step(current: Segment, s: Segment): (Segment, Option<Segment>)
  {
    match (current, s)
    case (_, Empty) => (current, None)
    case (Empty, _) => (s, None)
    case (Title(_, _), Title(_, _)) => (current, None)
    case (Code(c), Code(cc)) => (Code(c + cc), None)
    case (Doc(d), Doc(dd)) => (Doc(d + dd), None)
    case (_, _) => (s, Some(current))
  }

  /** The segment being accumulated (the `&mut self` of `Segment::push`). */
  class Accumulator {
    var current: Segment

    constructor ()
      ensures current == Empty
    {
      current := Empty;
    }

    /** `Segment::push`. */
    method Push(s: Segment) returns (flushed: Option<Segment>)
      modifies this
      ensures (current, flushed) == Step(old(current), s)
      // pushing nothing changes nothing
      ensures s == Empty ==> current == old(current) && flushed == None
      // an empty slot takes the new segment
      ensures old(current) == Empty && s != Empty ==> current == s && flushed == None
      // same-kind text is appended after the current text
      ensures old(current).Code? && s.Code? ==> current == Code(old(current).text + s.text) && flushed == None
      ensures old(current).Doc? && s.Doc? ==> current == Doc(old(current).text + s.text) && flushed == None
      // a title right after a title is dropped (the source logs an error)
      ensures old(current).Title? && s.Title? ==> current == old(current) && flushed == None
      // any change of kind replaces the current segment and hands it back
      ensures old(current) != Empty && s != Empty && KindOf(old(current)) != KindOf(s) ==>
        current == s && flushed == Some(old(current))
    {
      var (c, f) := Step(current, s);
      current, flushed := c, f;
    }
  }

  /** The state of the compactor after a stream of segments. */
  datatype State = State(current: Segment, flushed: seq<Segment>)

  /** `Step` folded over `events`, left to right, from an empty slot. */
  function Fold(events: seq<Segment>): State
    decreases |events|
  {
    if events == [] then State(Empty, [])
    else
      var st := Fold(events[..|events| - 1]);
      var (c, f) := Step(st.current, events[|events| - 1]);
      State(c, if f.Some? then st.flushed + [f.value] else st.flushed)
  }

  /** The compacted stream: every finished segment, then the last current one. */
  function Compacted(events: seq<Segment>): seq<Segment> {
    var st := Fold(events);
    st.flushed + if st.current == Empty then [] else [st.current]
  }

  /** The compactor: pushes every segment into one accumulator, collects what
      it hands back, and flushes the final current segment. */
  method Compact(events: seq<Segment>) returns (out: seq<Segment>)
    ensures out == Compacted(events)
  {
    var acc := new Accumulator();
    out := [];
    for i := 0 to |events|
      invariant acc.current == Fold(events[..i]).current
      invariant out == Fold(events[..i]).flushed
    {
      assert events[..i + 1][..i] == events[..i];
      var f := acc.Push(events[i]);
      if f.Some? {
        out := out + [f.value];
      }
    }
    assert events[..|events|] == events;
    if acc.current != Empty {
      out := out + [acc.current];
    }
  }

  /** No empty segment and no two adjacent segments of the same kind. */
  ghost predicate Dense(s: seq<Segment>) {
    && (forall i | 0 <= i < |s| :: s[i] != Empty)
    && (forall i | 0 <= i < |s| - 1 :: KindOf(s[i]) != KindOf(s[i + 1]))
  }

  /** The kind of the last non-empty segment of `events`. */
  function LastKind(events: seq<Segment>): Kind
    decreases |events|
  {
    if events == [] then NoKind
    else if events[|events| - 1] == Empty then LastKind(events[..|events| - 1])
    else KindOf(events[|events| - 1])
  }

  /** What stays true of the fold: the finished segments are dense, the
      current segment has the kind of the last non-empty input and differs
      in kind from the last finished one. */
  lemma {:induction false} FoldInvariant(events: seq<Segment>)
    ensures var st := Fold(events);
      && Dense(st.flushed)
      && KindOf(st.current) == LastKind(events)
      && (st.current == Empty ==> st.flushed == [])
      && (st.flushed != [] ==> KindOf(st.flushed[|st.flushed| - 1]) != KindOf(st.current))
    decreases |events|
  {
    if events != [] {
      FoldInvariant(events[..|events| - 1]);
    }
  }

  /** The compactor's output never holds an empty segment nor two adjacent
      segments of the same kind. */
  lemma {:induction false} CompactedIsDense(events: seq<Segment>)
    ensures Dense(Compacted(events))
  {
    FoldInvariant(events);
  }

  /** The text `x` contributes to kind `k`. */
  function SegText(x: Segment, k: Kind): string {
    if KindOf(x) == k && x != Empty then x.text else ""
  }

  /** The concatenated text of the segments of kind `k`. */
  function TextOf(s: seq<Segment>, k: Kind): string
    decreases |s|
  {
    if s == [] then "" else TextOf(s[..|s| - 1], k) + SegText(s[|s| - 1], k)
  }

  lemma {:induction false} TextOfAppend(s: seq<Segment>, x: Segment, k: Kind)
    ensures TextOf(s + [x], k) == TextOf(s, k) + SegText(x, k)
  {
    assert (s + [x])[..|s|] == s;
  }

  /** One push keeps the text of kind `k` held by the accumulator and the
      finished segments equal to the text pushed. */
  lemma StepText(current: Segment, x: Segment, k: Kind)
    requires k == CodeKind || k == DocKind
    ensures var (c, f) := Step(current, x);
      (if f.Some? then SegText(f.value, k) else "") + SegText(c, k) == SegText(current, k) + SegText(x, k)
  {
  }

  /** Concatenation regroups freely (used for texts and for title lists). */
  lemma Assoc<T>(a: seq<T>, b: seq<T>, c: seq<T>)
    ensures (a + b) + c == a + (b + c)
  {
  }

  lemma {:induction false} FoldText(events: seq<Segment>, k: Kind)
    requires k == CodeKind || k == DocKind
    ensures TextOf(Fold(events).flushed, k) + SegText(Fold(events).current, k) == TextOf(events, k)
    decreases |events|
  {
    if events != [] {
      var prefix := events[..|events| - 1];
      var x := events[|events| - 1];
      var pre := Fold(prefix);
      FoldText(prefix, k);
      StepText(pre.current, x, k);
      var step := Step(pre.current, x);
      var st := Fold(events);
      assert TextOf(events, k) == TextOf(prefix, k) + SegText(x, k);
      assert st.current == step.0;
      var a, b, c := TextOf(pre.flushed, k), SegText(pre.current, k), SegText(x, k);
      assert TextOf(events, k) == (a + b) + c;
      if step.1.Some? {
        assert st.flushed == pre.flushed + [step.1.value];
        TextOfAppend(pre.flushed, step.1.value, k);
        var f, n := SegText(step.1.value, k), SegText(step.0, k);
        assert f + n == b + c;
        calc {
          TextOf(st.flushed, k) + SegText(st.current, k);
          (a + f) + n;
          { Assoc(a, f, n); }
          a + (f + n);
          a + (b + c);
          { Assoc(a, b, c); }
          (a + b) + c;
        }
      } else {
        assert st.flushed == pre.flushed;
        assert SegText(step.0, k) == b + c;
        Assoc(a, b, c);
      }
    }
  }

  /** Code text and documentation text come out whole and in their original
      order: merging only concatenates, and nothing but a repeated title is
      ever dropped. */
  lemma {:induction false} CompactedKeepsText(events: seq<Segment>, k: Kind)
    requires k == CodeKind || k == DocKind
    ensures TextOf(Compacted(events), k) == TextOf(events, k)
  {
    var st := Fold(events);
    FoldText(events, k);
    if st.current != Empty {
      TextOfAppend(st.flushed, st.current, k);
    } else {
      assert Compacted(events) == st.flushed;
    }
  }

  function TitleList(x: Segment): seq<Segment> {
    if x.Title? then [x] else []
  }

  /** The title segments of `s`, in order. */
  function TitlesOf(s: seq<Segment>): seq<Segment>
    decreases |s|
  {
    if s == [] then [] else TitlesOf(s[..|s| - 1]) + TitleList(s[|s| - 1])
  }

  /** A title arriving after segments whose last kind is `last` survives
      unless `last` is itself a title. */
  function Surviving(x: Segment, last: Kind): seq<Segment> {
    if x.Title? && last != TitleKind then [x] else []
  }

  /** Reference definition of the titles that survive: those that do not
      arrive while the last non-empty segment is itself a title. */
  function FirstTitles(events: seq<Segment>): seq<Segment>
    decreases |events|
  {
    if events == [] then []
    else
      var prefix := events[..|events| - 1];
      var x := events[|events| - 1];
      FirstTitles(prefix) + Surviving(x, LastKind(prefix))
  }

  lemma {:induction false} TitlesOfAppend(s: seq<Segment>, x: Segment)
    ensures TitlesOf(s + [x]) == TitlesOf(s) + TitleList(x)
  {
    assert (s + [x])[..|s|] == s;
  }

  /** One push hands back and keeps exactly the titles that survive. */
  lemma StepTitles(current: Segment, x: Segment, last: Kind)
    requires KindOf(current) == last
    ensures var (c, f) := Step(current, x);
      (if f.Some? then TitleList(f.value) else []) + TitleList(c) == TitleList(current) + Surviving(x, last)
  {
  }

  lemma {:induction false} FoldTitles(events: seq<Segment>)
    ensures TitlesOf(Fold(events).flushed) + TitleList(Fold(events).current) == FirstTitles(events)
    decreases |events|
  {
    if events != [] {
      var prefix := events[..|events| - 1];
      var x := events[|events| - 1];
      var pre := Fold(prefix);
      var st := Fold(events);
      FoldTitles(prefix);
      FoldInvariant(prefix);
      StepTitles(pre.current, x, LastKind(prefix));
      var step := Step(pre.current, x);
      var a, b, c := TitlesOf(pre.flushed), TitleList(pre.current), Surviving(x, LastKind(prefix));
      assert FirstTitles(events) == (a + b) + c;
      assert st.current == step.0;
      if step.1.Some? {
        assert st.flushed == pre.flushed + [step.1.value];
        TitlesOfAppend(pre.flushed, step.1.value);
        Assoc(a, TitleList(step.1.value), TitleList(step.0));
        Assoc(a, b, c);
      } else {
        assert st.flushed == pre.flushed;
        assert TitleList(step.0) == b + c;
        Assoc(a, b, c);
      }
    }
  }

  /** The compactor keeps exactly the titles of `FirstTitles`, in order. */
  lemma {:induction false} CompactedTitles(events: seq<Segment>)
    ensures TitlesOf(Compacted(events)) == FirstTitles(events)
  {
    var st := Fold(events);
    FoldTitles(events);
    if st.current != Empty {
      TitlesOfAppend(st.flushed, st.current);
    } else {
      assert Compacted(events) == st.flushed;
    }
  }

  // ---- Order across kinds ----

  /** `x` cut into pieces of one character each, kind kept; a title stays whole. */
  function Units(x: Segment): (u: seq<Segment>)
    ensures x.Code? ==> |u| == |x.text| && forall i | 0 <= i < |u| :: u[i] == Code([x.text[i]])
    ensures x.Doc? ==> |u| == |x.text| && forall i | 0 <= i < |u| :: u[i] == Doc([x.text[i]])
  {
    match x
    case Empty => []
    case Title(_, _) => [x]
    case Code(t) => seq(|t|, i requires 0 <= i < |t| => Code([t[i]]))
    case Doc(t) => seq(|t|, i requires 0 <= i < |t| => Doc([t[i]]))
  }

  /** The whole stream as one-character pieces, across all kinds, in order. */
  function Atoms(s: seq<Segment>): seq<Segment>
    decreases |s|
  {
    if s == [] then [] else Atoms(s[..|s| - 1]) + Units(s[|s| - 1])
  }

  /** The pieces of `x` that survive after segments whose last kind is `last`. */
  function KeptUnits(x: Segment, last: Kind): seq<Segment> {
    if x.Title? && last == TitleKind then [] else Units(x)
  }

  /** Reference definition of what the compactor should hand on: every
      character of every code and documentation segment, and every title that
      does not follow a title, all in arrival order. */
  function KeptAtoms(events: seq<Segment>): seq<Segment>
    decreases |events|
  {
    if events == [] then []
    else
      var prefix := events[..|events| - 1];
      KeptAtoms(prefix) + KeptUnits(events[|events| - 1], LastKind(prefix))
  }

  lemma {:induction false} AtomsAppend(s: seq<Segment>, x: Segment)
    ensures Atoms(s + [x]) == Atoms(s) + Units(x)
  {
    assert (s + [x])[..|s|] == s;
  }

  /** Extending a segment by text of its own kind extends its pieces. */
  lemma UnitsConcat(x: Segment, y: Segment)
    requires (x.Code? && y.Code?) || (x.Doc? && y.Doc?)
    ensures x.Code? ==> Units(Code(x.text + y.text)) == Units(x) + Units(y)
    ensures x.Doc? ==> Units(Doc(x.text + y.text)) == Units(x) + Units(y)
  {
  }

  /** One push hands back and keeps exactly the pieces that survive. */
  lemma StepAtoms(current: Segment, x: Segment, last: Kind)
    requires KindOf(current) == last
    ensures var (c, f) := Step(current, x);
      (if f.Some? then Units(f.value) else []) + Units(c) == Units(current) + KeptUnits(x, last)
  {
    if (current.Code? && x.Code?) || (current.Doc? && x.Doc?) {
      UnitsConcat(current, x);
    }
  }

  lemma {:induction false} FoldAtoms(events: seq<Segment>)
    ensures Atoms(Fold(events).flushed) + Units(Fold(events).current) == KeptAtoms(events)
    decreases |events|
  {
    if events != [] {
      var prefix := events[..|events| - 1];
      var x := events[|events| - 1];
      var pre := Fold(prefix);
      var st := Fold(events);
      FoldAtoms(prefix);
      FoldInvariant(prefix);
      StepAtoms(pre.current, x, LastKind(prefix));
      var step := Step(pre.current, x);
      var a, b, c := Atoms(pre.flushed), Units(pre.current), KeptUnits(x, LastKind(prefix));
      assert KeptAtoms(events) == (a + b) + c;
      assert st.current == step.0;
      if step.1.Some? {
        assert st.flushed == pre.flushed + [step.1.value];
        AtomsAppend(pre.flushed, step.1.value);
        Assoc(a, Units(step.1.value), Units(step.0));
        Assoc(a, b, c);
      } else {
        assert st.flushed == pre.flushed;
        assert Units(step.0) == b + c;
        Assoc(a, b, c);
      }
    }
  }

  /** The compactor keeps the source order across kinds: cut into
      one-character pieces, its output is the reference `KeptAtoms`. */
  lemma {:induction false} CompactedKeepsOrder(events: seq<Segment>)
    ensures Atoms(Compacted(events)) == KeptAtoms(events)
  {
    var st := Fold(events);
    FoldAtoms(events);
    if st.current != Empty {
      AtomsAppend(st.flushed, st.current);
    } else {
      assert Compacted(events) == st.flushed;
    }
  }

  /** When no title follows a title, compaction only regroups characters:
      cut into pieces, output and input are the same sequence. */
  lemma {:induction false} CompactedIsRegrouping(events: seq<Segment>)
    requires NoRepeatedTitle(events)
    ensures Atoms(Compacted(events)) == Atoms(events)
  {
    CompactedKeepsOrder(events);
    KeptAtomsAreAllAtoms(events);
  }

  lemma {:induction false} KeptAtomsAreAllAtoms(events: seq<Segment>)
    requires NoRepeatedTitle(events)
    ensures KeptAtoms(events) == Atoms(events)
    decreases |events|
  {
    if events != [] {
      var n := |events| - 1;
      var prefix := events[..n];
      assert forall i | 0 <= i < n :: prefix[..i] == events[..i];
      KeptAtomsAreAllAtoms(prefix);
      assert KeptUnits(events[n], LastKind(prefix)) == Units(events[n]);
    }
  }

  lemma AtomsOfThree(x: Segment, y: Segment, z: Segment)
    ensures Atoms([x, y, z]) == Units(x) + Units(y) + Units(z)
  {
    assert [x, y] + [z] == [x, y, z];
    AtomsAppend([x, y], z);
    AtomsOfTwo(x, y);
  }

  lemma AtomsOfTwo(x: Segment, y: Segment)
    ensures Atoms([x, y]) == Units(x) + Units(y)
  {
    assert [x] + [y] == [x, y];
    AtomsAppend([x], y);
    assert [x][..0] == [];
  }

  /** The order the compactor keeps tells apart outputs that per-kind text
      alone does not: documentation, code, documentation stays in that order,
      which the stream `[Code("b"), Doc("ac")]` would not. */
  lemma OrderExample(events: seq<Segment>)
    requires events == [Doc("a"), Code("b"), Doc("c")]
    ensures Atoms(Compacted(events)) == [Doc("a"), Code("b"), Doc("c")]
    ensures Atoms([Code("b"), Doc("ac")]) != Atoms(Compacted(events))
  {
    assert NoRepeatedTitle(events) by {
      assert forall i | 0 <= i < |events| :: !events[i].Title?;
    }
    CompactedIsRegrouping(events);
    AtomsOfThree(events[0], events[1], events[2]);
    assert Units(Doc("a")) == [Doc("a")];
    assert Units(Code("b")) == [Code("b")];
    AtomsOfTwo(Code("b"), Doc("ac"));
    assert Units(Doc("ac"))[0] == Doc("a");
  }

  /** No title arrives while the last non-empty segment is a title. */
  ghost predicate NoRepeatedTitle(events: seq<Segment>) {
    forall i | 0 <= i < |events| :: events[i].Title? ==> LastKind(events[..i]) != TitleKind
  }

  /** When no title follows a title, every title survives compaction. */
  lemma {:induction false} AllTitlesKept(events: seq<Segment>)
    requires NoRepeatedTitle(events)
    ensures TitlesOf(Compacted(events)) == TitlesOf(events)
  {
    CompactedTitles(events);
    FirstTitlesAreAllTitles(events);
  }

  lemma {:induction false} FirstTitlesAreAllTitles(events: seq<Segment>)
    requires NoRepeatedTitle(events)
    ensures FirstTitles(events) == TitlesOf(events)
    decreases |events|
  {
    if events != [] {
      var n := |events| - 1;
      var prefix := events[..n];
      assert forall i | 0 <= i < n :: prefix[..i] == events[..i];
      FirstTitlesAreAllTitles(prefix);
      assert Surviving(events[n], LastKind(prefix)) == TitleList(events[n]);
    }
  }

  /** A dense stream folds to its last segment, everything before it finished. */
  lemma {:induction false} DenseFold(s: seq<Segment>)
    requires Dense(s) && s != []
    ensures Fold(s) == State(s[|s| - 1], s[..|s| - 1])
    decreases |s|
  {
    var prefix := s[..|s| - 1];
    if prefix != [] {
      assert Dense(prefix);
      DenseFold(prefix);
      assert prefix[..|prefix| - 1] + [prefix[|prefix| - 1]] == prefix;
    }
  }

  /** Merging is maximal: a dense stream is its own compaction. */
  lemma {:induction false} DenseIsCompacted(s: seq<Segment>)
    requires Dense(s)
    ensures Compacted(s) == s
  {
    if s != [] {
      DenseFold(s);
      assert s[..|s| - 1] + [s[|s| - 1]] == s;
    }
  }

  /** Compacting twice is compacting once. */
  lemma {:induction false} CompactIdempotent(events: seq<Segment>)
    ensures Compacted(Compacted(events)) == Compacted(events)
  {
    CompactedIsDense(events);
    DenseIsCompacted(Compacted(events));
  }
}
