/**
 * The part of Go's path/filepath package that pkg/sidecar/apptakebackup.go relies on,
 * for '/'-separated paths: splitting at '/', the lexical Clean, and Join.
 */
module GoPath {
  import opened Wrappers

  /** The position of the last '/' among the first n characters of s, if there is one. */
  function LastSlashBefore(s: string, n: nat): (r: Option<nat>)
    requires n <= |s|
    ensures r.Some? ==> r.value < n && s[r.value] == '/'
    ensures r.Some? ==> forall j :: r.value < j < n ==> s[j] != '/'
    ensures r.None? ==> forall j :: 0 <= j < n ==> s[j] != '/'
    decreases n
  {
    if n == 0 then None
    else if s[n - 1] == '/' then Some(n - 1)
    else LastSlashBefore(s, n - 1)
  }

  /** Everything before the last '/' of s ("" when s has none). */
  function Parent(s: string): string
  {
    match LastSlashBefore(s, |s|)
    case None => ""
    case Some(k) => s[..k]
  }

  /** Everything after the last '/' of s (all of s when it has none). */
  function LastSegment(s: string): string
  {
    match LastSlashBefore(s, |s|)
    case None => s
    case Some(k) => s[k + 1..]
  }

  /** The pieces of s between its '/' separators, as strings.Split(s, "/") gives them. */
  function Segments(s: string): (r: seq<string>)
    ensures |r| >= 1
    decreases |s|
  {
    match LastSlashBefore(s, |s|)
    case None => [s]
    case Some(k) => Segments(s[..k]) + [s[k + 1..]]
  }

  /** The inverse of Segments: the pieces glued back together with '/'. */
  function JoinSegments(xs: seq<string>): string
  {
    if xs == [] then ""
    else if |xs| == 1 then xs[0]
    else JoinSegments(xs[..|xs| - 1]) + "/" + xs[|xs| - 1]
  }

  /** A segment that Clean keeps as it is: neither empty, nor ".", nor "..". */
  predicate IsNormal(x: string)
  {
    x != "" && x != "." && x != ".."
  }

  /**
   * The segment walk of Go's Clean: empty and "." segments vanish, ".." removes the
   * segment before it when there is one to remove; with nothing to remove it is
   * dropped in a rooted path and kept in a relative one.
   */
  function Resolve(rooted: bool, kept: seq<string>, segs: seq<string>): seq<string>
    decreases |segs|
  {
    if segs == [] then kept
    else if segs[0] == "" || segs[0] == "." then Resolve(rooted, kept, segs[1..])
    else if segs[0] == ".." then
      if kept != [] && kept[|kept| - 1] != ".." then Resolve(rooted, kept[..|kept| - 1], segs[1..])
      else if rooted then Resolve(rooted, kept, segs[1..])
      else Resolve(rooted, kept + [".."], segs[1..])
    else Resolve(rooted, kept + [segs[0]], segs[1..])
  }

  /** Go's filepath.Clean on '/'-separated paths. */
  function Clean(p: string): string
  {
    if p == "" then "."
    else
      var rooted := p[0] == '/';
      var kept := Resolve(rooted, [], Segments(p));
      if rooted then "/" + JoinSegments(kept)
      else if kept == [] then "."
      else JoinSegments(kept)
  }

  /** Go's filepath.Join with two elements: glue from the first non-empty one on, then Clean. */
  function Join(a: string, b: string): string
  {
    if a != "" then Clean(a + "/" + b)
    else if b != "" then Clean(b)
    else ""
  }

  /**
   * A path Clean leaves alone that has a parent directory: at least two segments,
   * each of them normal (so no leading, trailing or doubled '/', no "." or "..").
   */
  predicate IsCleanNested(s: string)
  {
    var segs := Segments(s);
    |segs| >= 2 && forall i :: 0 <= i < |segs| ==> IsNormal(segs[i])
  }

  lemma LastSlashOfSnoc(q: string, x: string)
    requires '/' !in x
    ensures LastSlashBefore(q + "/" + x, |q + "/" + x|) == Some(|q|)
  {
    var s := q + "/" + x;
    assert s[|q|] == '/';
    assert forall j :: |q| < j < |s| ==> s[j] == x[j - |q| - 1];
  }

  /** Appending "/x" adds exactly one segment, so the parent of q + "/" + x is q. */
  lemma SegmentsOfSnoc(q: string, x: string)
    requires '/' !in x
    ensures Segments(q + "/" + x) == Segments(q) + [x]
    ensures Parent(q + "/" + x) == q && LastSegment(q + "/" + x) == x
  {
    var s := q + "/" + x;
    LastSlashOfSnoc(q, x);
    assert s[..|q|] == q;
    assert s[|q| + 1..] == x;
  }

  /** A path is its parent, a '/', and its last segment, whenever it contains a '/'. */
  lemma ParentSplit(s: string)
    requires '/' in s
    ensures s == Parent(s) + "/" + LastSegment(s)
    ensures Segments(s) == Segments(Parent(s)) + [LastSegment(s)]
  {
    var k := LastSlashBefore(s, |s|).value;
    assert s == s[..k] + "/" + s[k + 1..];
  }

  lemma {:induction false} JoinSegmentsSnoc(xs: seq<string>, x: string)
    requires xs != []
    ensures JoinSegments(xs + [x]) == JoinSegments(xs) + "/" + x
  {
    assert (xs + [x])[..|xs|] == xs;
  }

  /** Splitting at '/' and joining again gives back the same string. */
  lemma {:induction false} SegmentsJoin(s: string)
    ensures JoinSegments(Segments(s)) == s
    decreases |s|
  {
    match LastSlashBefore(s, |s|)
    case None =>
    case Some(k) =>
      SegmentsJoin(s[..k]);
      JoinSegmentsSnoc(Segments(s[..k]), s[k + 1..]);
      assert s == s[..k] + "/" + s[k + 1..];
  }

  /** A rooted path's first segment is the empty one in front of its leading '/'. */
  lemma {:induction false} RootedFirstSegment(s: string)
    requires s != [] && s[0] == '/'
    ensures Segments(s)[0] == ""
    decreases |s|
  {
    match LastSlashBefore(s, |s|)
    case None =>
    case Some(k) =>
      if k > 0 {
        RootedFirstSegment(s[..k]);
      } else {
        assert Segments(s[..k]) == [""];
      }
  }

  /** Normal segments are pushed onto the kept stack unchanged. */
  lemma {:induction false} ResolveNormal(rooted: bool, kept: seq<string>, segs: seq<string>, rest: seq<string>)
    requires forall i :: 0 <= i < |segs| ==> IsNormal(segs[i])
    ensures Resolve(rooted, kept, segs + rest) == Resolve(rooted, kept + segs, rest)
    decreases |segs|
  {
    if segs == [] {
      assert segs + rest == rest;
      assert kept + segs == kept;
    } else {
      assert (segs + rest)[0] == segs[0];
      assert (segs + rest)[1..] == segs[1..] + rest;
      ResolveNormal(rooted, kept + [segs[0]], segs[1..], rest);
      assert kept + [segs[0]] + segs[1..] == kept + segs;
    }
  }

  /** A clean nested path is relative and has a '/'. */
  lemma CleanNestedShape(d: string)
    requires IsCleanNested(d)
    ensures d != "" && d[0] != '/' && '/' in d
  {
    if d == "" {
      assert false;
    }
    if d[0] == '/' {
      RootedFirstSegment(d);
      assert false;
    }
    if LastSlashBefore(d, |d|).None? {
      assert false;
    }
  }

  /** d + "/../" + x splits into d's segments followed by ".." and x. */
  lemma SegmentsOfSibling(d: string, x: string)
    requires '/' !in x
    ensures Segments(d + "/../" + x) == Segments(d) + ["..", x]
  {
    assert d + "/../" + x == (d + "/" + "..") + "/" + x;
    SegmentsOfSnoc(d + "/" + "..", x);
    SegmentsOfSnoc(d, "..");
  }

  /** Cleaning normal segments followed by ".." and x drops the last of them and adds x. */
  lemma ResolveSibling(rooted: bool, segs: seq<string>, x: string)
    requires |segs| >= 1 && forall i :: 0 <= i < |segs| ==> IsNormal(segs[i])
    requires IsNormal(x)
    ensures Resolve(rooted, [], segs + ["..", x]) == segs[..|segs| - 1] + [x]
  {
    ResolveNormal(rooted, [], segs, ["..", x]);
    assert [] + segs == segs;
    var front := segs[..|segs| - 1];
    assert segs[|segs| - 1] != "..";
    assert ["..", x][1..] == [x] && [x][1..] == [];
    assert Resolve(rooted, segs, ["..", x]) == Resolve(rooted, front, [x]);
    assert Resolve(rooted, front, [x]) == Resolve(rooted, front + [x], []);
  }

  /**
   * For a clean path with a parent, Join(d, "../" + x) is the sibling x of d:
   * the ".." cancels d's last segment.
   */
  lemma JoinSibling(d: string, x: string)
    requires IsCleanNested(d)
    requires '/' !in x && IsNormal(x)
    ensures Join(d, "../" + x) == Parent(d) + "/" + x
  {
    CleanNestedShape(d);
    ParentSplit(d);
    var segs := Segments(d);
    var front := Segments(Parent(d));
    SegmentsOfSibling(d, x);
    ResolveSibling(false, segs, x);
    assert segs[..|segs| - 1] == front;
    var p := d + "/../" + x;
    assert d + "/" + ("../" + x) == p;
    assert p != "" && p[0] == d[0];
    assert Resolve(false, [], Segments(p)) == front + [x];
    assert Clean(p) == JoinSegments(front + [x]);
    JoinSegmentsSnoc(front, x);
    SegmentsJoin(Parent(d));
  }

  /** Without a '/' there is no parent to keep: Join(d, "../" + x) collapses to x. */
  lemma JoinSiblingOfSingle(d: string, x: string)
    requires '/' !in d && IsNormal(d)
    requires '/' !in x && IsNormal(x)
    ensures Join(d, "../" + x) == x
  {
    var p := d + "/../" + x;
    SegmentsOfSibling(d, x);
    assert LastSlashBefore(d, |d|).None?;
    assert Segments(d) == [d];
    ResolveSibling(false, [d], x);
    assert d + "/" + ("../" + x) == p;
    assert p != "" && p[0] == d[0];
    assert [d][..0] + [x] == [x];
    assert Resolve(false, [], Segments(p)) == [x];
    assert Clean(p) == JoinSegments([x]);
  }

  /** Three normal segments joined by '/' form a clean path whose parent is the first two. */
  lemma ThreeSegments(a: string, b: string, c: string)
    requires '/' !in a && '/' !in b && '/' !in c
    requires IsNormal(a) && IsNormal(b) && IsNormal(c)
    ensures IsCleanNested(a + "/" + b + "/" + c)
    ensures Parent(a + "/" + b + "/" + c) == a + "/" + b
  {
    assert LastSlashBefore(a, |a|).None?;
    SegmentsOfSnoc(a, b);
    SegmentsOfSnoc(a + "/" + b, c);
    assert Segments(a + "/" + b + "/" + c) == [a, b, c];
  }

  /** However the kept stack looks, a final normal segment is kept last. */
  lemma {:induction false} ResolveKeepsLast(rooted: bool, kept: seq<string>, segs: seq<string>, x: string)
    requires IsNormal(x)
    ensures var r := Resolve(rooted, kept, segs + [x]); |r| >= 1 && r[|r| - 1] == x
    decreases |segs|
  {
    if segs == [] {
      assert [] + [x] == [x] && [x][1..] == [];
    } else {
      assert (segs + [x])[0] == segs[0];
      assert (segs + [x])[1..] == segs[1..] + [x];
      var k := kept;
      if segs[0] == "" || segs[0] == "." {
      } else if segs[0] == ".." {
        if kept != [] && kept[|kept| - 1] != ".." {
          k := kept[..|kept| - 1];
        } else if !rooted {
          k := kept + [".."];
        }
      } else {
        k := kept + [segs[0]];
      }
      assert Resolve(rooted, kept, segs + [x]) == Resolve(rooted, k, segs[1..] + [x]);
      ResolveKeepsLast(rooted, k, segs[1..], x);
    }
  }

  /** The last segment of a path whose cleaned form ends with the normal segment x is x. */
  lemma CleanKeepsLast(p: string, front: seq<string>, x: string)
    requires p != "" && Segments(p) == front + [x]
    requires '/' !in x && IsNormal(x)
    ensures LastSegment(Clean(p)) == x
  {
    var rooted := p[0] == '/';
    var kept := Resolve(rooted, [], Segments(p));
    ResolveKeepsLast(rooted, [], front, x);
    var init := kept[..|kept| - 1];
    assert kept == init + [x];
    if init == [] {
      assert JoinSegments(kept) == x;
      if rooted {
        assert Clean(p) == "" + "/" + x;
        SegmentsOfSnoc("", x);
      } else {
        assert x == Clean(p);
        assert LastSlashBefore(x, |x|).None?;
      }
    } else {
      JoinSegmentsSnoc(init, x);
      var q := if rooted then "/" + JoinSegments(init) else JoinSegments(init);
      assert Clean(p) == q + "/" + x;
      SegmentsOfSnoc(q, x);
    }
  }

  /** Join(d, "../" + x) always ends in the segment x, whatever d is. */
  lemma JoinKeepsLastSegment(d: string, x: string)
    requires '/' !in x && IsNormal(x)
    ensures LastSegment(Join(d, "../" + x)) == x
  {
    if d != "" {
      SegmentsOfSibling(d, x);
      assert d + "/" + ("../" + x) == d + "/../" + x;
      CleanKeepsLast(d + "/../" + x, Segments(d) + [".."], x);
    } else {
      assert "../" + x == ".." + "/" + x;
      SegmentsOfSnoc("..", x);
      CleanKeepsLast("../" + x, Segments(".."), x);
    }
  }
}
