/** The decisions of the classic page template
    (`render` in rucco_lib/src/templates/classic.rs): the page title,
    whether a separate title row is shown, the jump-to list, and each
    section's id, anchor and pilcrow class. The HTML markup is not modelled:
    a page is the record of those decisions. */
module ClassicTemplate {
  import opened Wrappers
  import opened Heading

  /** A documentation/code pair (`Section` in rucco_lib/src/section.rs). */
  datatype Section = Section(doc: string, code: string)

  /** A page of the jump-to list: its path as a string and its file name. */
  datatype DocFile = DocFile(path: string, fileName: Option<string>)

  datatype JumpLink = JumpLink(href: string, name: string)

  /** One list item per section. */
  datatype Item = Item(id: string, pilwrapClass: string, pilcrowHref: string, doc: string, code: string)

  /** What `render` produces: the placeholder text for a file without
      sections, or a page made of the decisions below. */
  datatype Page =
    | Placeholder(text: string)
    | Page(title: string, cssPath: string, jumpTo: Option<seq<JumpLink>>, titleRow: Option<string>, items: seq<Item>)

  const NothingToSee: string := "nothing to see here..."

  // ---- Decimal numbers, as `Display` writes a section index ----

  function DigitChar(d: nat): (c: char)
    requires d < 10
    ensures IsDigit(c)
  {
    "0123456789"[d]
  }

  function DigitValue(c: char): nat
    requires IsDigit(c)
  {
    (c as int - '0' as int) as nat
  }

  lemma DigitRoundTrip(d: nat)
    requires d < 10
    ensures DigitValue(DigitChar(d)) == d
  {
  }

  /** The decimal notation of `n`, without leading zeros. */
  function Decimal(n: nat): (s: string)
    ensures |s| >= 1 && forall i | 0 <= i < |s| :: IsDigit(s[i])
    decreases n
  {
    if n < 10 then [DigitChar(n)] else Decimal(n / 10) + [DigitChar(n % 10)]
  }

  /** The value of a string of decimal digits. */
  function DecimalValue(s: string): nat
    requires forall i | 0 <= i < |s| :: IsDigit(s[i])
    decreases |s|
  {
    if s == [] then 0 else 10 * DecimalValue(s[..|s| - 1]) + DigitValue(s[|s| - 1])
  }

  lemma {:induction false} DecimalRoundTrip(n: nat)
    ensures DecimalValue(Decimal(n)) == n
    decreases n
  {
    DigitRoundTrip(n % 10);
    if n >= 10 {
      DecimalRoundTrip(n / 10);
      var s := Decimal(n);
      assert s[..|s| - 1] == Decimal(n / 10);
    }
  }

  /** Distinct indices are written differently. */
  lemma DecimalInjective(i: nat, j: nat)
    requires Decimal(i) == Decimal(j)
    ensures i == j
  {
    DecimalRoundTrip(i);
    DecimalRoundTrip(j);
  }

  // ---- Per-section decisions ----

  /** `"section-" (i)`: the id of the i-th list item. */
  function SectionId(i: nat): string {
    "section-" + Decimal(i)
  }

  /** The pilcrow link as the template writes it: `"#section" (i)`. */
  function PilcrowHrefAsWritten(i: nat): string {
    "#section" + Decimal(i)
  }

  /** The pilcrow link as intended: an anchor to the item's own id. */
  function PilcrowHref(i: nat): string {
    "#" + SectionId(i)
  }

  /** The as-written pilcrow link never names an item of the page: the item
      ids carry a '-' after "section", the link a digit. */
  lemma {:induction false} AsWrittenPilcrowMissesEveryId(i: nat, j: nat)
    ensures PilcrowHrefAsWritten(i) != "#" + SectionId(j)
  {
    var written, target := PilcrowHrefAsWritten(i), "#" + SectionId(j);
    assert written[8] == Decimal(i)[0];
    assert target[8] == '-';
  }

  /** The corrected pilcrow link of the i-th item names exactly that item. */
  lemma {:induction false} PilcrowTargetsOwnItem(i: nat, j: nat)
    ensures PilcrowHref(i) == "#" + SectionId(j) <==> i == j
  {
    if PilcrowHref(i) == "#" + SectionId(j) {
      var a, b := PilcrowHref(i), "#" + SectionId(j);
      assert a[9..] == Decimal(i) && b[9..] == Decimal(j);
      DecimalInjective(i, j);
    }
  }

  /** The class of the pilcrow wrapper: "pilwrap for-<level>" for a section
      whose documentation starts with a heading, "pilwrap " otherwise. */
  function PilwrapClass(s: Section): string {
    "pilwrap " + match Heading.Heading(s.doc)
      case Some((level, _)) => "for-" + level
      case None => ""
  }

  function MakeItem(i: nat, s: Section): Item {
    Item(SectionId(i), PilwrapClass(s), PilcrowHref(i), s.doc, s.code)
  }

  /** The list items of `sections`, numbered from `start`. */
  function Items(sections: seq<Section>, start: nat): (r: seq<Item>)
    ensures |r| == |sections|
    ensures forall k | 0 <= k < |sections| :: r[k] == MakeItem(start + k, sections[k])
    decreases |sections|
  {
    if sections == [] then [] else [MakeItem(start, sections[0])] + Items(sections[1..], start + 1)
  }

  function JumpLinks(docfiles: seq<DocFile>): (r: seq<JumpLink>)
    requires forall k | 0 <= k < |docfiles| :: docfiles[k].fileName.Some?
    ensures |r| == |docfiles|
    ensures forall k | 0 <= k < |docfiles| ::
      r[k] == JumpLink(docfiles[k].path, docfiles[k].fileName.value)
    decreases |docfiles|
  {
    if docfiles == [] then []
    else [JumpLink(docfiles[0].path, docfiles[0].fileName.value)] + JumpLinks(docfiles[1..])
  }

  /** `render`. The jump-to list, shown only for more than one page, needs
      every listed page to have a file name (the template unwraps it). Each
      pilcrow links to its own item's id (`PilcrowHref`), not to the
      `PilcrowHrefAsWritten` of the template, which names no item. */
  function Render(docfiles: seq<DocFile>, cssPath: string, sourcePath: string, sections: seq<Section>): (p: Page)
    requires |docfiles| > 1 ==> forall k | 0 <= k < |docfiles| :: docfiles[k].fileName.Some?
    ensures sections == [] <==> p == Placeholder(NothingToSee)
    ensures sections != [] ==> p.Page? && p.cssPath == cssPath
    ensures sections != [] ==>
      p.title == match Heading.Heading(sections[0].doc)
        case Some((_, text)) => text
        case None => sourcePath
    ensures sections != [] ==> (p.titleRow.Some? <==> Heading.Heading(sections[0].doc).None?)
    ensures sections != [] && p.titleRow.Some? ==> p.titleRow.value == sourcePath
    ensures sections != [] ==> (p.jumpTo.Some? <==> |docfiles| > 1)
    ensures sections != [] && p.jumpTo.Some? ==> p.jumpTo.value == JumpLinks(docfiles)
    ensures sections != [] ==> |p.items| == |sections|
    ensures sections != [] ==> forall i | 0 <= i < |sections| ::
      && p.items[i].id == "section-" + Decimal(i)
      && p.items[i].doc == sections[i].doc && p.items[i].code == sections[i].code
      && p.items[i].pilcrowHref == "#" + p.items[i].id
      && p.items[i].pilwrapClass == PilwrapClass(sections[i])
  {
    if sections == [] then Placeholder(NothingToSee)
    else
      var heading := Heading.Heading(sections[0].doc);
      var hasTitle := heading.Some?;
      var title := if hasTitle then heading.value.1 else sourcePath;
      var jumpTo := if |docfiles| > 1 then Some(JumpLinks(docfiles)) else None;
      Page(title, cssPath, jumpTo, if hasTitle then None else Some(title), Items(sections, 0))
  }

  /** No two items of a page share an id. */
  lemma {:induction false} ItemIdsDistinct(docfiles: seq<DocFile>, cssPath: string, sourcePath: string, sections: seq<Section>, i: nat, j: nat)
    requires |docfiles| > 1 ==> forall k | 0 <= k < |docfiles| :: docfiles[k].fileName.Some?
    requires i < j < |sections|
    ensures Render(docfiles, cssPath, sourcePath, sections).items[i].id !=
            Render(docfiles, cssPath, sourcePath, sections).items[j].id
  {
    var items := Render(docfiles, cssPath, sourcePath, sections).items;
    if items[i].id == items[j].id {
      assert items[i].id[8..] == Decimal(i) && items[j].id[8..] == Decimal(j);
      DecimalInjective(i, j);
    }
  }

  /** The pilcrow class names the level of a section's heading, and is the
      bare "pilwrap " for a section without one. */
  lemma PilwrapClassLevel(s: Section)
    ensures Heading.Heading(s.doc).Some? ==> PilwrapClass(s) == "pilwrap for-" + Heading.Heading(s.doc).value.0
    ensures Heading.Heading(s.doc).None? ==> PilwrapClass(s) == "pilwrap "
  {
  }

  lemma ExampleClass(s: Section)
    requires s.doc == "<h1>MAH TITLE</h1>docdocdoc"
    ensures PilwrapClass(s) == "pilwrap for-1"
  {
    HeadingExample(s.doc);
  }

  lemma FirstItemNames()
    ensures SectionId(0) == "section-0" && PilcrowHref(0) == "#section-0"
  {
    assert Decimal(0) == "0";
  }

  lemma ExampleItems(sections: seq<Section>)
    requires sections == [Section("<h1>MAH TITLE</h1>docdocdoc", "codecodecdoe")]
    ensures Items(sections, 0) ==
      [Item("section-0", "pilwrap for-1", "#section-0", sections[0].doc, "codecodecdoe")]
  {
    ExampleClass(sections[0]);
    FirstItemNames();
    assert Items(sections, 0) == [MakeItem(0, sections[0])];
  }

  lemma ExampleLinks(docfiles: seq<DocFile>)
    requires docfiles == [DocFile("/lol", Some("lol")), DocFile("wut", Some("wut"))]
    ensures JumpLinks(docfiles) == [JumpLink("/lol", "lol"), JumpLink("wut", "wut")]
  {
  }

  /** A page whose first section opens with a heading. */
  lemma RenderTitled(docfiles: seq<DocFile>, cssPath: string, sourcePath: string, sections: seq<Section>, level: string, text: string)
    requires |docfiles| > 1 && forall k | 0 <= k < |docfiles| :: docfiles[k].fileName.Some?
    requires sections != [] && Heading.Heading(sections[0].doc) == Some((level, text))
    ensures Render(docfiles, cssPath, sourcePath, sections) ==
      Page(text, cssPath, Some(JumpLinks(docfiles)), None, Items(sections, 0))
  {
  }

  /** The page of the template's own usage example: two pages in the
      jump-to list and one section whose documentation opens with a level-1
      heading, which becomes the title and suppresses the title row. */
  lemma RenderExample(docfiles: seq<DocFile>, sections: seq<Section>)
    requires docfiles == [DocFile("/lol", Some("lol")), DocFile("wut", Some("wut"))]
    requires sections == [Section("<h1>MAH TITLE</h1>docdocdoc", "codecodecdoe")]
    ensures Render(docfiles, "csspafouuu", "sourcepafouuu", sections) ==
      Page("MAH TITLE", "csspafouuu",
           Some([JumpLink("/lol", "lol"), JumpLink("wut", "wut")]), None,
           [Item("section-0", "pilwrap for-1", "#section-0", sections[0].doc, "codecodecdoe")])
  {
    HeadingExample(sections[0].doc);
    ExampleItems(sections);
    ExampleLinks(docfiles);
    RenderTitled(docfiles, "csspafouuu", "sourcepafouuu", sections, "1", "MAH TITLE");
  }
}
