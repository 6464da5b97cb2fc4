/** An in-memory directory tree and the few filesystem operations the codec performs
    (`remove_file`, `remove_dir_all`, `create_dir_all`, creating a file with content),
    each with its deterministic failures. A tree maps every existing path (a non-empty
    sequence of entry names) to a file or a directory; the root `[]` is an implicit
    directory that always exists. */
module FileSystem {

  import opened Wrappers
  import opened Text

  type Name = Bytes
  type Path = seq<Name>

  /** A name `Path::join` appends as exactly one new component: not empty, no `/` and no
      NUL byte, and neither `.` nor `..`. Any other string would nest, escape, replace the
      path or name the directory itself. */
  predicate ValidName(n: Name) {
    && |n| > 0
    && n != [46] && n != [46, 46]
    && forall i | 0 <= i < |n| :: n[i] != 0x2F && n[i] != 0
  }

  datatype Node = File(content: Bytes) | Dir

  type FS = map<Path, Node>

  /** The failures of the operations that do not depend on permissions or the device;
      `InvalidData` is what reading a file into a string reports for bytes that are not
      UTF-8. */
  datatype IoError = NotFound | AlreadyExists | NotADirectory | IsADirectory | InvalidData

  /** What occupies a path. */
  datatype Kind = Missing | FileKind | DirKind

  function Parent(p: Path): Path
    requires |p| > 0
  {
    p[..|p| - 1]
  }

  function At(fs: FS, p: Path): Option<Node> {
    if |p| == 0 then Some(Dir) else if p in fs then Some(fs[p]) else None
  }

  predicate Exists(fs: FS, p: Path) {
    At(fs, p).Some?
  }

  predicate IsFile(fs: FS, p: Path) {
    At(fs, p).Some? && At(fs, p).value.File?
  }

  predicate IsDir(fs: FS, p: Path) {
    At(fs, p) == Some(Dir)
  }

  function KindAt(fs: FS, p: Path): Kind {
    if !Exists(fs, p) then Missing else if IsFile(fs, p) then FileKind else DirKind
  }

  /** The tree invariant: the root is not an entry, and the parent of every entry is a
      directory. */
  predicate Valid(fs: FS) {
    && [] !in fs
    && forall q {:trigger Parent(q)} | q in fs && |q| > 0 :: IsDir(fs, Parent(q))
  }

  /** Some proper ancestor of `p` is a file, so nothing can be created at `p`. */
  predicate Blocked(fs: FS, p: Path) {
    exists k :: 0 < k < |p| && IsFile(fs, p[..k])
  }

  /** The names of the entries directly inside `p`. */
  function Children(fs: FS, p: Path): set<Name> {
    set q | q in fs && |q| == |p| + 1 && p <= q :: q[|p|]
  }

  /** Outside the subtree at `p` nothing was removed or changed, and the only entries
      added there are directories on the way to `p`. */
  predicate Frame(fs: FS, fs': FS, p: Path) {
    && (forall q | q in fs && !(p <= q) :: q in fs' && fs'[q] == fs[q])
    && (forall q | q in fs' && q !in fs && !(p <= q) :: q < p && fs'[q] == Dir)
  }

  /** The subtrees at `x` of both trees are identical. */
  predicate SameUnder(fs: FS, fs': FS, x: Path) {
    && (forall q | q in fs && x <= q :: q in fs' && fs'[q] == fs[q])
    && (forall q | q in fs' && x <= q :: q in fs)
  }

  // ---------------------------------------------------------------------------------------
  // Operations
  // ---------------------------------------------------------------------------------------

  /** `remove_dir_all` (or `remove_file` on a file): `p` and everything below it disappear. */
  function Remove(fs: FS, p: Path): (r: FS)
    requires |p| > 0
    ensures forall q :: q in r <==> q in fs && !(p <= q)
    ensures forall q | q in r :: r[q] == fs[q]
    ensures Valid(fs) ==> Valid(r)
  {
    var r := map q | q in fs && !(p <= q) :: fs[q];
    assert Valid(fs) ==> Valid(r) by {
      if Valid(fs) {
        forall q | q in r
          ensures |q| > 0 && IsDir(r, Parent(q))
        {
          if |Parent(q)| > 0 {
            assert !(p <= Parent(q));
          }
        }
      }
    }
    r
  }

  /** `remove_file`: fails on a missing path and on a directory. */
  function RemoveFile(fs: FS, p: Path): (r: Result<FS, IoError>)
    ensures r.Ok? <==> IsFile(fs, p)
    ensures r.Ok? ==> r.value == fs - {p}
    ensures r.Err? ==> r.error == (if Exists(fs, p) then IsADirectory else NotFound)
  {
    if !Exists(fs, p) then Err(NotFound)
    else if IsDir(fs, p) then Err(IsADirectory)
    else Ok(fs - {p})
  }

  function Prefixes(d: Path): (r: set<Path>)
    ensures forall q | q in r :: 0 < |q| <= |d| && q == d[..|q|]
  {
    set k | 1 <= k <= |d| :: d[..k]
  }

  /** The tree with every missing prefix of `d` added as a directory. */
  function AddDirs(fs: FS, d: Path): (r: FS)
    ensures forall q :: q in r <==> q in fs || q in Prefixes(d)
    ensures forall q | q in r :: r[q] == if q in fs then fs[q] else Dir
  {
    map q | q in fs.Keys + Prefixes(d) :: if q in fs then fs[q] else Dir
  }

  /** `create_dir_all`: every missing directory down to `d` is created. It fails with
      `AlreadyExists` when `d` is a file and with `NotADirectory` when an ancestor is. */
  function EnsureDir(fs: FS, d: Path): (r: Result<FS, IoError>)
    requires Valid(fs)
    ensures r.Ok? <==> !IsFile(fs, d) && !Blocked(fs, d)
    ensures r.Err? ==> r.error == (if IsFile(fs, d) then AlreadyExists else NotADirectory)
    ensures r.Ok? ==> Valid(r.value) && IsDir(r.value, d)
    ensures r.Ok? ==> forall q | q in fs :: q in r.value && r.value[q] == fs[q]
    ensures r.Ok? ==> forall q | q in r.value && q !in fs :: q <= d && |q| > 0 && r.value[q] == Dir
  {
    if |d| == 0 then Ok(fs)
    else if d in fs then
      NotBlockedIfPresent(fs, d);
      if fs[d].Dir? then Ok(fs) else Err(AlreadyExists)
    else if Blocked(fs, d) then Err(NotADirectory)
    else
      AddDirsValid(fs, d);
      Ok(AddDirs(fs, d))
  }

  lemma AddDirsValid(fs: FS, d: Path)
    requires Valid(fs) && |d| > 0 && d !in fs && !Blocked(fs, d)
    ensures Valid(AddDirs(fs, d)) && IsDir(AddDirs(fs, d), d)
  {
    var r := AddDirs(fs, d);
    assert d == d[..|d|];
    forall q | q in r
      ensures |q| > 0 && IsDir(r, Parent(q))
    {
      if q !in fs {
        AddedParentIsDir(fs, d, q);
      }
    }
  }

  lemma AddedParentIsDir(fs: FS, d: Path, q: Path)
    requires Valid(fs) && |d| > 0 && !Blocked(fs, d) && q in Prefixes(d) && q !in fs
    ensures IsDir(AddDirs(fs, d), Parent(q))
  {
    var pq := Parent(q);
    if |pq| > 0 {
      assert pq == d[..|pq|];
      assert pq in Prefixes(d);
      if pq in fs {
        assert !IsFile(fs, d[..|pq|]);
      }
    }
  }

  /** An existing entry of a valid tree is never blocked by a file above it. */
  lemma NotBlockedIfPresent(fs: FS, p: Path)
    requires Valid(fs) && p in fs
    ensures !Blocked(fs, p)
  {
    forall k | 0 < k < |p|
      ensures !IsFile(fs, p[..k])
    {
      AncestorIsDir(fs, p, p[..k]);
    }
  }

  /** `write_to_file`: a directory at `p` is removed first, the missing ancestors are
      created, and `p` becomes a file holding exactly `content`. It fails only when an
      ancestor of `p` is a file. */
  function WriteFile(fs: FS, p: Path, content: Bytes): (r: Result<FS, IoError>)
    requires Valid(fs) && |p| > 0
    ensures r.Ok? <==> !Blocked(fs, p)
    ensures r.Err? ==> r.error == (if IsFile(fs, Parent(p)) then AlreadyExists else NotADirectory)
    ensures r.Ok? ==> Valid(r.value) && p in r.value && r.value[p] == File(content)
    ensures r.Ok? ==> forall q | q in r.value :: !(p < q)
    ensures r.Ok? ==> Frame(fs, r.value, p)
  {
    var fs1 := ClearDir(fs, p);
    ClearDirBlocked(fs, p);
    var fs2 :- EnsureDir(fs1, Parent(p));
    var r := fs2[p := File(content)];
    WriteFileResult(fs, p, fs1, fs2, r);
    Ok(r)
  }

  /** The first step of `write_to_file`: a directory at `p` is removed with its contents. */
  function ClearDir(fs: FS, p: Path): (r: FS)
    requires Valid(fs) && |p| > 0
    ensures Valid(r) && !IsDir(r, p)
    ensures forall q | q in r :: !(p < q)
    ensures Frame(fs, r, p)
  {
    if IsDir(fs, p) then Remove(fs, p)
    else
      NothingBelow(fs, p);
      fs
  }

  lemma ClearDirBlocked(fs: FS, p: Path)
    requires Valid(fs) && |p| > 0
    ensures Blocked(ClearDir(fs, p), Parent(p)) || IsFile(ClearDir(fs, p), Parent(p)) <==> Blocked(fs, p)
    ensures IsFile(ClearDir(fs, p), Parent(p)) <==> IsFile(fs, Parent(p))
  {
    var fs1 := ClearDir(fs, p);
    forall k | 0 < k < |p|
      ensures IsFile(fs1, p[..k]) <==> IsFile(fs, p[..k])
    {
      assert !(p <= p[..k]);
    }
    assert Parent(p) == p[..|p| - 1];
    assert forall k :: 0 < k < |Parent(p)| ==> Parent(p)[..k] == p[..k];
  }

  lemma WriteFileResult(fs: FS, p: Path, fs1: FS, fs2: FS, r: FS)
    requires Valid(fs) && |p| > 0 && fs1 == ClearDir(fs, p)
    requires EnsureDir(fs1, Parent(p)) == Ok(fs2)
    requires p in r && r[p].File? && r == fs2[p := r[p]]
    ensures Valid(r)
    ensures forall q | q in r :: !(p < q)
    ensures Frame(fs, r, p)
  {
    forall q | q in r
      ensures |q| > 0 && IsDir(r, Parent(q))
    {
      if q != p {
        assert IsDir(fs2, Parent(q));
      }
    }
    assert forall q | q in r :: !(p < q);
    assert Frame(fs1, r, p) by {
      forall q | q in r && q !in fs1 && !(p <= q)
        ensures q < p && r[q] == Dir
      {
        assert q <= Parent(p);
      }
    }
    FrameTrans(fs, fs1, r, p);
  }

  // ---------------------------------------------------------------------------------------
  // Lemmas
  // ---------------------------------------------------------------------------------------

  lemma PrefixesComparable(a: Path, b: Path, c: Path)
    requires a <= c && b <= c
    ensures a <= b || b <= a
  {
    if |a| <= |b| {
      assert a == c[..|a|] == b[..|a|];
    } else {
      assert b == c[..|b|] == a[..|b|];
    }
  }

  /** In a valid tree every proper ancestor of an entry is a directory. */
  lemma {:induction false} AncestorIsDir(fs: FS, q: Path, a: Path)
    requires Valid(fs) && q in fs && a < q
    ensures IsDir(fs, a)
    decreases |q|
  {
    var pq := Parent(q);
    assert IsDir(fs, pq);
    if a != pq {
      assert a < pq;
      AncestorIsDir(fs, pq, a);
    }
  }

  /** Nothing exists below a path that does not exist or is a file. */
  lemma NothingBelow(fs: FS, p: Path)
    requires Valid(fs) && |p| > 0 && !IsDir(fs, p)
    ensures forall q | q in fs :: !(p < q)
  {
    forall q | q in fs && p < q
      ensures false
    {
      AncestorIsDir(fs, q, p);
    }
  }

  /** Removing a file keeps the tree valid: nothing hangs below a file. */
  lemma RemoveFileValid(fs: FS, p: Path)
    requires Valid(fs) && IsFile(fs, p)
    ensures Valid(fs - {p})
  {
    NothingBelow(fs, p);
  }

  /** Directly inside an existing directory nothing is blocked. */
  lemma ChildNotBlocked(fs: FS, p: Path, n: Name)
    requires Valid(fs) && IsDir(fs, p)
    ensures !Blocked(fs, p + [n])
  {
    var c := p + [n];
    forall k | 0 < k < |c|
      ensures !IsFile(fs, c[..k])
    {
      assert c[..k] == p[..k];
      if k < |p| {
        AncestorIsDir(fs, p, p[..k]);
      } else {
        assert p[..k] == p;
      }
    }
  }

  /** A child is blocked exactly when its parent is blocked or is a file. */
  lemma BlockedChild(fs: FS, p: Path, n: Name)
    ensures Blocked(fs, p + [n]) <==> Blocked(fs, p) || (|p| > 0 && IsFile(fs, p))
  {
    var c := p + [n];
    if Blocked(fs, c) {
      var k :| 0 < k < |c| && IsFile(fs, c[..k]);
      assert c[..k] == p[..k];
      if k == |p| {
        assert p[..k] == p;
      }
    }
    if Blocked(fs, p) {
      var k :| 0 < k < |p| && IsFile(fs, p[..k]);
      assert c[..k] == p[..k];
    }
    if |p| > 0 && IsFile(fs, p) {
      assert c[..|p|] == p;
    }
  }

  /** A valid tree with nothing at `p` holds no entry below `p` either. */
  lemma AbsentSubtree(fs: FS, p: Path)
    requires Valid(fs) && |p| > 0 && p !in fs
    ensures forall q | q in fs :: !(p <= q)
  {
    NothingBelow(fs, p);
    assert forall q | q in fs :: q != p;
  }

  lemma ChildrenSpec(fs: FS, p: Path, n: Name)
    ensures n in Children(fs, p) <==> p + [n] in fs
  {
    if n in Children(fs, p) {
      var q :| q in fs && |q| == |p| + 1 && p <= q && q[|p|] == n;
      assert q == p + [n];
    }
    if p + [n] in fs {
      assert (p + [n])[|p|] == n;
    }
  }

  lemma FrameTrans(a: FS, b: FS, c: FS, p: Path)
    requires Frame(a, b, p) && Frame(b, c, p)
    ensures Frame(a, c, p)
  {
  }

  /** A change confined to a subtree is confined to every enclosing subtree. */
  lemma FrameWiden(a: FS, b: FS, x: Path, p: Path)
    requires Frame(a, b, x) && p <= x
    ensures Frame(a, b, p)
  {
    forall q | q in b && q !in a && !(p <= q)
      ensures q < p && b[q] == Dir
    {
      assert q < x;
      PrefixesComparable(q, p, x);
    }
  }

  /** A change confined to the subtree at `x` leaves every subtree beside it alone. */
  lemma FrameDisjoint(a: FS, b: FS, x: Path, y: Path)
    requires Frame(a, b, x) && !(x <= y) && !(y <= x)
    ensures SameUnder(a, b, y)
  {
    forall q | q in a && y <= q
      ensures q in b && b[q] == a[q]
    {
      if x <= q {
        PrefixesComparable(x, y, q);
      }
    }
  }

  lemma SameUnderTrans(a: FS, b: FS, c: FS, x: Path)
    requires SameUnder(a, b, x) && SameUnder(b, c, x)
    ensures SameUnder(a, c, x)
  {
  }

  lemma SameUnderNarrow(a: FS, b: FS, x: Path, y: Path)
    requires SameUnder(a, b, x) && x <= y
    ensures SameUnder(a, b, y)
  {
  }

  /** `q` lies in the subtree of one of the entries `p/n` with `n` in `names`. */
  predicate UnderOne(p: Path, names: set<Name>, q: Path) {
    p < q && q[|p|] in names
  }

  /** The trees differ only inside the entries of `p` named in `names`. */
  predicate Confined(fs: FS, fs': FS, p: Path, names: set<Name>) {
    && (forall q | q in fs && !UnderOne(p, names, q) :: q in fs' && fs'[q] == fs[q])
    && (forall q | q in fs' && !UnderOne(p, names, q) :: q in fs)
  }

  /** A change confined to `p/n` inside the directory `p` touches only the entry `n`. */
  lemma ConfinedChild(fs: FS, fs': FS, p: Path, n: Name)
    requires Valid(fs) && Valid(fs') && IsDir(fs, p) && Frame(fs, fs', p + [n])
    ensures Confined(fs, fs', p, {n})
  {
    forall q | q in fs'
      ensures UnderOne(p, {n}, q) <==> p + [n] <= q
    {
      if p < q {
        assert q[..|p| + 1] == p + [q[|p|]];
      }
    }
    forall q | q in fs && p + [n] <= q
      ensures UnderOne(p, {n}, q)
    {
      assert q[|p|] == n;
    }
    forall q | q in fs' && !UnderOne(p, {n}, q)
      ensures q in fs
    {
      if q !in fs {
        assert q <= p;
        if q != p {
          AncestorIsDir(fs, p, q);
        }
      }
    }
  }

  lemma ConfinedTrans(a: FS, b: FS, c: FS, p: Path, n1: set<Name>, n2: set<Name>)
    requires Confined(a, b, p, n1) && Confined(b, c, p, n2)
    ensures Confined(a, c, p, n1 + n2)
  {
  }

  /** An entry outside the confined names is identical in both trees. */
  lemma ConfinedSame(a: FS, b: FS, p: Path, names: set<Name>, n: Name)
    requires Confined(a, b, p, names) && n !in names
    ensures SameUnder(a, b, p + [n])
  {
    forall q | p + [n] <= q
      ensures !UnderOne(p, names, q)
    {
      assert q[|p|] == n;
    }
  }
}
