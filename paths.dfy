/**
 * Unix paths as Rust's `std::path` sees them: an optional root and a list of
 * components. `Join` is `Path::join`, which the tool functions use to place a
 * generated name under a directory.
 */
module Paths {
  import opened Wrappers

  const Separator: char := '/'

  /**
   * A component that survives component parsing inside a path: non-empty,
   * not the current directory ".", and free of separators.
   */
  predicate IsComponent(c: string) {
    c != "" && c != "." && Separator !in c
  }

  predicate EndsWith(s: string, suffix: string) {
    |suffix| <= |s| && s[|s| - |suffix|..] == suffix
  }

  datatype Path = Path(absolute: bool, parts: seq<string>)

  /** The pieces of s between separators, as `str::split('/')` yields them; there is at least one. */
  function Segments(s: string): (r: seq<string>)
    ensures |r| >= 1
    ensures forall i :: 0 <= i < |r| ==> Separator !in r[i]
    decreases |s|
  {
    if s == [] then [""]
    else
      var init := Segments(s[..|s| - 1]);
      var c := s[|s| - 1];
      if c == Separator then init + [""]
      else init[..|init| - 1] + [init[|init| - 1] + [c]]
  }

  /** The segments of a string joined with separators. */
  function Unsplit(segs: seq<string>): string
    requires |segs| >= 1
  {
    if |segs| == 1 then segs[0] else Unsplit(segs[..|segs| - 1]) + [Separator] + segs[|segs| - 1]
  }

  lemma UnsplitSnoc(segs: seq<string>, x: string)
    requires |segs| >= 1
    ensures Unsplit(segs + [x]) == Unsplit(segs) + [Separator] + x
  {
    assert (segs + [x])[..|segs|] == segs;
  }

  lemma UnsplitExtendLast(init: seq<string>, last: string, c: char)
    ensures Unsplit(init + [last + [c]]) == Unsplit(init + [last]) + [c]
  {
    if init == [] {
      assert init + [last + [c]] == [last + [c]];
      assert init + [last] == [last];
    } else {
      UnsplitSnoc(init, last + [c]);
      UnsplitSnoc(init, last);
      var u := Unsplit(init);
      assert u + [Separator] + (last + [c]) == (u + [Separator] + last) + [c];
    }
  }

  /** Splitting loses nothing: the segments joined with separators give the string back. */
  lemma {:induction false} UnsplitSegments(s: string)
    ensures Unsplit(Segments(s)) == s
    decreases |s|
  {
    if s != [] {
      var t, c := s[..|s| - 1], s[|s| - 1];
      assert s == t + [c];
      UnsplitSegments(t);
      if c == Separator {
        UnsplitSegmentsSeparator(t);
      } else {
        UnsplitSegmentsPlain(t, c);
      }
    }
  }

  lemma UnsplitSegmentsSeparator(t: string)
    requires Unsplit(Segments(t)) == t
    ensures Unsplit(Segments(t + [Separator])) == t + [Separator]
  {
    var s := t + [Separator];
    assert s[..|s| - 1] == t;
    assert Segments(s) == Segments(t) + [""];
    UnsplitSnoc(Segments(t), "");
  }

  lemma UnsplitSegmentsPlain(t: string, c: char)
    requires c != Separator && Unsplit(Segments(t)) == t
    ensures Unsplit(Segments(t + [c])) == t + [c]
  {
    var init := Segments(t);
    var front, last := init[..|init| - 1], init[|init| - 1];
    SegmentsSnocPlain(t, c);
    assert front + [last] == init;
    UnsplitExtendLast(front, last, c);
  }

  lemma SegmentsSnocPlain(x: string, c: char)
    requires c != Separator
    ensures var sx := Segments(x);
      Segments(x + [c]) == sx[..|sx| - 1] + [sx[|sx| - 1] + [c]]
  {
    assert (x + [c])[..|x|] == x;
  }

  /** Appending separator-free text extends the last segment and leaves the others alone. */
  lemma {:induction false} SegmentsAppendPlain(x: string, t: string)
    requires Separator !in t
    ensures var sx := Segments(x);
      Segments(x + t) == sx[..|sx| - 1] + [sx[|sx| - 1] + t]
    decreases |t|
  {
    var sx := Segments(x);
    var init, last := sx[..|sx| - 1], sx[|sx| - 1];
    if t == [] {
      assert x + t == x;
      assert last + t == last;
      assert init + [last] == sx;
    } else {
      var t', c := t[..|t| - 1], t[|t| - 1];
      assert t == t' + [c];
      assert Separator !in t';
      SegmentsAppendPlain(x, t');
      var mid := init + [last + t'];
      assert x + t == (x + t') + [c];
      SegmentsSnocPlain(x + t', c);
      assert mid[..|mid| - 1] == init;
      assert last + t' + [c] == last + t;
    }
  }

  lemma SegmentsOfPlain(s: string)
    requires Separator !in s
    ensures Segments(s) == [s]
  {
    SegmentsAppendPlain("", s);
    assert "" + s == s;
  }

  /** The segments that are real components; empty and "." segments disappear. */
  function Keep(segs: seq<string>): (r: seq<string>)
    ensures forall i :: 0 <= i < |r| ==> IsComponent(r[i])
  {
    if segs == [] then []
    else
      var last := segs[|segs| - 1];
      Keep(segs[..|segs| - 1]) + (if IsComponent(last) then [last] else [])
  }

  lemma {:induction false} KeepAppend(a: seq<string>, b: seq<string>)
    ensures Keep(a + b) == Keep(a) + Keep(b)
    decreases |b|
  {
    if b == [] {
      assert a + b == a;
    } else {
      assert (a + b)[..|a + b| - 1] == a + b[..|b| - 1];
      KeepAppend(a, b[..|b| - 1]);
    }
  }

  lemma KeepSingle(c: string)
    requires IsComponent(c)
    ensures Keep([c]) == [c]
  {
    assert [c][..0] == [];
  }

  /** The components of a path string. */
  function Components(s: string): seq<string> {
    Keep(Segments(s))
  }

  /**
   * `Path::join` on Unix: an absolute argument replaces the base path,
   * anything else has its components appended to the base's.
   */
  function Join(base: Path, s: string): (p: Path)
    ensures |s| > 0 && s[0] == Separator ==>
      p.absolute && forall i :: 0 <= i < |p.parts| ==> IsComponent(p.parts[i])
    ensures !(|s| > 0 && s[0] == Separator) ==>
      p.absolute == base.absolute && |base.parts| <= |p.parts| && p.parts[..|base.parts|] == base.parts &&
      forall i :: |base.parts| <= i < |p.parts| ==> IsComponent(p.parts[i])
  {
    if |s| > 0 && s[0] == Separator then Path(true, Components(s))
    else Path(base.absolute, base.parts + Components(s))
  }

  /** `Path::parent`: the path without its last component; None for a root or empty path. */
  function Parent(p: Path): (r: Option<Path>)
    ensures r.Some? <==> p.parts != []
    ensures r.Some? ==>
      r.value.absolute == p.absolute && |r.value.parts| + 1 == |p.parts| &&
      p.parts[..|r.value.parts|] == r.value.parts
  {
    if p.parts == [] then None else Some(Path(p.absolute, p.parts[..|p.parts| - 1]))
  }

  /** `Path::file_name`: the last component, unless it is "..". */
  function FileName(p: Path): (r: Option<string>)
    ensures r.Some? <==> p.parts != [] && p.parts[|p.parts| - 1] != ".."
    ensures r.Some? ==> r.value == p.parts[|p.parts| - 1]
  {
    if p.parts == [] || p.parts[|p.parts| - 1] == ".." then None
    else Some(p.parts[|p.parts| - 1])
  }

  /** Joining a single component makes a direct child of the base named by that component. */
  lemma JoinComponent(base: Path, c: string)
    requires IsComponent(c) && c != ".."
    ensures Join(base, c) == Path(base.absolute, base.parts + [c])
    ensures Parent(Join(base, c)) == Some(base)
    ensures FileName(Join(base, c)) == Some(c)
  {
    SegmentsOfPlain(c);
    KeepSingle(c);
    assert c[0] in c;
    var p := Join(base, c);
    assert p.parts[..|p.parts| - 1] == base.parts;
  }

  /** Separator-free text followed by a component is a component. */
  lemma PlainWithSuffix(a: string, t: string)
    requires Separator !in a && IsComponent(t)
    ensures IsComponent(a + t)
  {
    var s := a + t;
    forall i | 0 <= i < |s| ensures s[i] != Separator {
      if i < |a| {
        assert s[i] == a[i];
      } else {
        assert s[i] == t[i - |a|];
      }
    }
    if a == "" {
      assert s == t;
    } else {
      assert |s| >= 2;
    }
  }

  /**
   * Whatever x is, the path joined with x + t, for a separator-free suffix t,
   * has a last component that ends with t.
   */
  lemma JoinWithSuffix(base: Path, x: string, t: string)
    requires IsComponent(t)
    ensures var p := Join(base, x + t);
      p.parts != [] && EndsWith(p.parts[|p.parts| - 1], t)
  {
    var sx := Segments(x);
    var last := sx[|sx| - 1] + t;
    SegmentsAppendPlain(x, t);
    PlainWithSuffix(sx[|sx| - 1], t);
    KeepAppend(sx[..|sx| - 1], [last]);
    KeepSingle(last);
    assert last[|last| - |t|..] == t;
  }
}
