// java.nio.file.Path arithmetic the watcher and the mirror fan-out rely on:
// relativize, resolve of a relative path, and the lexical meaning of "..".

module Paths {
  import opened FsModel

  const ParentName := ".."

  /** The length of the longest common prefix of `a` and `b`. */
  function CommonPrefix(a: Path, b: Path): (n: nat)
    ensures n <= |a| && n <= |b| && a[..n] == b[..n]
    ensures n < |a| && n < |b| ==> a[n] != b[n]
  {
    if a == [] || b == [] || a[0] != b[0] then 0
    else
      var n := 1 + CommonPrefix(a[1..], b[1..]);
      assert a[..n] == [a[0]] + a[1..][..n - 1];
      assert b[..n] == [b[0]] + b[1..][..n - 1];
      n
  }

  /** `k` parent names. */
  function Ups(k: nat): (r: Path)
    ensures |r| == k && forall i :: 0 <= i < k ==> r[i] == ParentName
  {
    if k == 0 then [] else Ups(k - 1) + [ParentName]
  }

  /** base.relativize(p) for two absolute paths: one ".." for every name of
      `base` past the common prefix, then the rest of `p`. */
  function Relativize(base: Path, p: Path): Path {
    var c := CommonPrefix(base, p);
    Ups(|base| - c) + p[c..]
  }

  /** The names of a relative path as getName sees them: the empty path
      has one name, the empty string. */
  function Names(rel: Path): (r: Path)
    ensures |r| >= 1
  {
    if rel == [] then [""] else rel
  }

  /** No name is "..", as for every path made of directory entries. */
  predicate NoParentNames(p: Path) {
    forall i :: 0 <= i < |p| ==> p[i] != ParentName
  }

  /** How the operating system reads `names` when it starts at `acc`: a
      ".." steps up (staying at the root), any other name steps down. */
  function Walk(acc: Path, names: Path): Path
    decreases |names|
  {
    if names == [] then acc
    else if names[0] == ParentName then Walk(if acc == [] then [] else acc[..|acc| - 1], names[1..])
    else Walk(acc + [names[0]], names[1..])
  }

  /** The path the operating system opens for `p`. */
  function Normalize(p: Path): Path {
    Walk([], p)
  }

  // ---------------------------------------------------------------------
  // Lemmas

  /** Below `base`, relativize keeps the names after `base`. */
  lemma RelativizeBelow(base: Path, p: Path)
    requires base <= p
    ensures Relativize(base, p) == p[|base|..]
  {
    assert CommonPrefix(base, p) == |base|;
  }

  /** Outside `base`, the relative path climbs first. */
  lemma RelativizeOutside(base: Path, p: Path)
    requires !(base <= p)
    ensures |Relativize(base, p)| >= 1 && Relativize(base, p)[0] == ParentName
  {
  }

  lemma {:induction false} WalkPlain(acc: Path, names: Path)
    requires NoParentNames(names)
    ensures Walk(acc, names) == acc + names
    decreases |names|
  {
    if names != [] {
      WalkPlain(acc + [names[0]], names[1..]);
      assert acc + [names[0]] + names[1..] == acc + names;
    }
  }

  lemma {:induction false} WalkAppend(acc: Path, x: Path, y: Path)
    ensures Walk(acc, x + y) == Walk(Walk(acc, x), y)
    decreases |x|
  {
    if x != [] {
      assert (x + y)[0] == x[0] && (x + y)[1..] == x[1..] + y;
      var next := if x[0] == ParentName then (if acc == [] then [] else acc[..|acc| - 1]) else acc + [x[0]];
      assert Walk(acc, x + y) == Walk(next, x[1..] + y);
      assert Walk(acc, x) == Walk(next, x[1..]);
      WalkAppend(next, x[1..], y);
    } else {
      assert x + y == y;
    }
  }

  lemma {:induction false} WalkUps(acc: Path, k: nat)
    requires k <= |acc|
    ensures Walk(acc, Ups(k)) == acc[..|acc| - k]
    decreases k
  {
    if k > 0 {
      WalkAppend(acc, Ups(k - 1), [ParentName]);
      WalkUps(acc, k - 1);
      var mid := acc[..|acc| - (k - 1)];
      assert mid != [];
      assert Walk(mid, [ParentName]) == Walk(mid[..|mid| - 1], []);
      assert mid[..|mid| - 1] == acc[..|acc| - k];
    }
  }

  /** Resolving base.relativize(p) against `base` opens `p` again. */
  lemma ResolveRelativize(base: Path, p: Path)
    requires NoParentNames(base) && NoParentNames(p)
    ensures Normalize(base + Relativize(base, p)) == p
  {
    var c := CommonPrefix(base, p);
    var ups := Ups(|base| - c);
    assert base + Relativize(base, p) == base + ups + p[c..];
    WalkAppend([], base + ups, p[c..]);
    WalkAppend([], base, ups);
    WalkPlain([], base);
    assert [] + base == base;
    WalkUps(base, |base| - c);
    assert NoParentNames(p[c..]);
    WalkPlain(base[..c], p[c..]);
    assert base[..c] + p[c..] == p;
  }
}
