/** Paths as sequences of components (`std::path`), the target file name of
    a rendered page (`htmlize`) and the relative link from a page to the
    stylesheet (`process_file`), all from src/main.rs. */
module Paths {
  import opened Wrappers

  /** A component of a path, as `Path::components` yields it. */
  datatype Component = RootDir | CurDir | ParentDir | Normal(name: string)

  type Path = seq<Component>

  /** `Path::file_name`: the last component when it is a normal name. */
  function FileName(p: Path): (r: Option<string>)
    ensures r.Some? <==> |p| > 0 && p[|p| - 1].Normal?
  {
    if |p| > 0 && p[|p| - 1].Normal? then Some(p[|p| - 1].name) else None
  }

  /** `PathBuf::set_file_name`: drops the current file name, if any, and
      pushes the new one. */
  function SetFileName(p: Path, f: string): (r: Path)
    ensures FileName(r) == Some(f)
    ensures FileName(p).Some? ==> |r| == |p| && r[..|r| - 1] == p[..|p| - 1]
    ensures FileName(p).None? ==> r[..|r| - 1] == p
  {
    var parent := if FileName(p).Some? then p[..|p| - 1] else p;
    parent + [Normal(f)]
  }

  /** `htmlize`: appends ".html" to the file name, keeping the parent
      directories; a path without a file name is returned unchanged. */
  method Htmlize(p: Path) returns (q: Path)
    ensures FileName(p).None? ==> q == p
    ensures FileName(p).Some? ==>
      |q| == |p| && q[..|q| - 1] == p[..|p| - 1] && FileName(q) == Some(FileName(p).value + ".html")
  {
    q := p;
    var newName: Option<string> := None;
    match FileName(q) {
      case Some(f) => newName := Some(f + ".html");
      case None =>
    }
    if newName.Some? {
      q := SetFileName(q, newName.value);
    }
  }

  /** Two paths with file names never receive the same ".html" target. */
  lemma {:induction false} HtmlTargetsDistinct(p1: Path, p2: Path)
    requires FileName(p1).Some? && FileName(p2).Some?
    requires SetFileName(p1, FileName(p1).value + ".html") == SetFileName(p2, FileName(p2).value + ".html")
    ensures p1 == p2
  {
    var f1, f2 := FileName(p1).value, FileName(p2).value;
    var r1 := SetFileName(p1, f1 + ".html");
    assert r1[|r1| - 1] == Normal(f1 + ".html");
    assert f1 + ".html" == f2 + ".html";
    assert |f1| == |f2|;
    assert f1 == (f1 + ".html")[..|f1|] == (f2 + ".html")[..|f2|] == f2;
    assert p1 == p1[..|p1| - 1] + [Normal(f1)];
    assert p2 == p2[..|p2| - 1] + [Normal(f2)];
  }

  /** `s` repeated `n` times. */
  function Repeat(s: string, n: nat): (r: string)
    ensures |r| == n * |s|
  {
    if n == 0 then [] else Repeat(s, n - 1) + s
  }

  /** The number of directories between the output root and a rendered page:
      every component of the source path but the first. */
  function Depth(source: Path): nat {
    if |source| == 0 then 0 else |source| - 1
  }

  /** The css path loop of `process_file`: one "../" per component after the
      first, then "style.css". */
  method CssPath(source: Path) returns (css: string)
    ensures css == Repeat("../", Depth(source)) + "style.css"
  {
    css := "";
    var i := 1;
    while i < |source|
      invariant 1 <= i <= if |source| == 0 then 1 else |source|
      invariant css == Repeat("../", i - 1)
    {
      css := css + "../";
      i := i + 1;
    }
    assert i - 1 == Depth(source);
    css := css + "style.css";
  }

  lemma {:induction false} RepeatFront(s: string, n: nat)
    ensures Repeat(s, n + 1) == s + Repeat(s, n)
  {
    if n > 0 {
      RepeatFront(s, n - 1);
    }
  }

  /** Follows a relative link of the form "../…/name" from directory `dir`
      (as a list of directory names below the output root): each "../"
      climbs one level; climbing above the root fails. */
  function Resolve(dir: seq<string>, link: string): Option<seq<string>>
    decreases |link|
  {
    if |link| >= 3 && link[..3] == "../" then
      if dir == [] then None else Resolve(dir[..|dir| - 1], link[3..])
    else Some(dir + [link])
  }

  /** The directories a page is written under: the names of all source
      components but the last (the page is the source path under the
      output root, with the ".html" name). */
  function PageDir(source: Path): seq<string>
    requires |source| > 0 && forall i | 0 <= i < |source| :: source[i].Normal?
  {
    seq(|source| - 1, i requires 0 <= i < |source| - 1 => source[i].name)
  }

  /** The css path followed from the page's directory lands on the
      stylesheet at the output root. */
  lemma {:induction false} CssPathReachesRoot(source: Path)
    requires |source| > 0 && forall i | 0 <= i < |source| :: source[i].Normal?
    ensures Resolve(PageDir(source), Repeat("../", Depth(source)) + "style.css") == Some(["style.css"])
  {
    ClimbAll(PageDir(source));
  }

  lemma {:induction false} ClimbAll(dir: seq<string>)
    ensures Resolve(dir, Repeat("../", |dir|) + "style.css") == Some(["style.css"])
    decreases |dir|
  {
    if dir == [] {
      var link := Repeat("../", 0) + "style.css";
      assert link == "style.css";
      assert link[..3] != "../" by { assert link[0] == 's'; }
      assert Resolve(dir, link) == Some(dir + [link]);
      assert dir + [link] == ["style.css"];
    } else {
      var n := |dir| - 1;
      RepeatFront("../", n);
      var link := Repeat("../", |dir|) + "style.css";
      assert link == "../" + (Repeat("../", n) + "style.css");
      assert link[..3] == "../" && link[3..] == Repeat("../", n) + "style.css";
      ClimbAll(dir[..n]);
    }
  }
}
