/** The part of the file system the installer touches, as a map from absolute
    paths (sequences of names) to entries, and the handful of `fs` operations it
    calls. Symbolic links, permissions and I/O failures are not modelled. */
module FileSystem {

  newtype byte = x: int | 0 <= x < 256

  type Name = string

  type Path = seq<Name>

  /** A directory, or a regular file with its bytes. */
  datatype Entry = Dir | File(data: seq<byte>)

  type Tree = map<Path, Entry>

  predicate IsPrefix(p: Path, q: Path) { |p| <= |q| && q[..|p|] == p }

  predicate IsStrictPrefix(p: Path, q: Path) { |p| < |q| && q[..|p|] == p }

  /** Neither path lies inside the other. */
  predicate Separate(p: Path, q: Path) { !IsPrefix(p, q) && !IsPrefix(q, p) }

  /** A file-system tree: the root is a directory, and every proper prefix of a
      present path is a present directory (so files have no children). */
  ghost predicate WellFormed(fs: Tree)
  {
    && [] in fs && fs[[]] == Dir
    && forall q, k :: q in fs && 0 <= k < |q| ==> q[..k] in fs && fs[q[..k]] == Dir
  }

  /** No prefix of `p` (including `p`) is a file: a recursive `mkdir` of `p` succeeds. */
  ghost predicate NoFileOnPath(fs: Tree, p: Path)
  {
    forall k :: 0 <= k <= |p| && p[..k] in fs ==> fs[p[..k]] == Dir
  }

  /** Paths agree at `x` in both trees. */
  ghost predicate SameAt(a: Tree, b: Tree, x: Path)
  {
    (x in a <==> x in b) && (x in a ==> a[x] == b[x])
  }

  /** Two trees that agree at every path are the same tree. */
  lemma MapsEqual(a: Tree, b: Tree)
    requires forall x :: SameAt(a, b, x)
    ensures a == b
  {
    forall x ensures (x in a <==> x in b) && (x in a ==> a[x] == b[x]) {
      assert SameAt(a, b, x);
    }
  }

  function Prefixes(p: Path): (r: set<Path>)
    ensures forall x :: x in r <==> IsPrefix(x, p)
  {
    var r := set k | 0 <= k <= |p| :: p[..k];
    assert forall x :: IsPrefix(x, p) ==> x == p[..|x|];
    r
  }

  /** `fs.mkdirSync(p, { recursive: true })`: `p` and its missing ancestors
      become directories; an existing directory is left as it is. */
  function WithDirectory(fs: Tree, p: Path): Tree
  {
    fs + map x | x in Prefixes(p) :: Dir
  }

  /** The names listed by `fs.readdirSync(p)`. */
  function Children(fs: Tree, p: Path): set<Name>
  {
    set q | q in fs && |q| == |p| + 1 && q[..|p|] == p :: q[|p|]
  }

  lemma ChildrenMember(fs: Tree, p: Path, n: Name)
    ensures n in Children(fs, p) <==> p + [n] in fs
  {
    if p + [n] in fs {
      var q := p + [n];
      assert q[..|p|] == p && q[|p|] == n;
    }
    if n in Children(fs, p) {
      var q :| q in fs && |q| == |p| + 1 && q[..|p|] == p && q[|p|] == n;
      assert q == p + [n];
    }
  }

  /** Listing a directory depends only on the entries directly below it. */
  lemma ChildrenFrame(a: Tree, b: Tree, p: Path)
    requires forall n :: SameAt(a, b, p + [n])
    ensures Children(a, p) == Children(b, p)
  {
    forall n ensures n in Children(a, p) <==> n in Children(b, p) {
      ChildrenMember(a, p, n);
      ChildrenMember(b, p, n);
      assert SameAt(a, b, p + [n]);
    }
  }

  /** Every prefix of a present path is present, and a directory when it is a proper prefix. */
  lemma PresentAncestor(fs: Tree, q: Path, k: nat)
    requires WellFormed(fs) && q in fs && k <= |q|
    ensures q[..k] in fs
    ensures k < |q| ==> fs[q[..k]] == Dir
  {
    if k == |q| {
      assert q[..k] == q;
    }
  }

  /** Paths that part ways below a common `root` lie outside each other. */
  lemma Diverge(root: Path, a: Name, b: Name, p: Path, q: Path)
    requires a != b
    ensures Separate(root + [a] + p, root + [b] + q)
  {
    var x, y := root + [a] + p, root + [b] + q;
    assert x[|root|] == a && y[|root|] == b;
    if |x| <= |y| {
      assert y[..|x|][|root|] == b;
    } else {
      assert x[..|y|][|root|] == a;
    }
  }

  /** Whatever lies below a path outside `q` is outside `q` too. */
  lemma SeparateExtend(p: Path, q: Path, r: Path)
    requires Separate(p, q)
    ensures Separate(p + r, q)
  {
    if |q| <= |p| {
      assert (p + r)[..|q|] == p[..|q|];
    } else if |q| <= |p + r| {
      assert q[..|p|] != p;
      assert (p + r)[..|q|][..|p|] == p;
    }
  }

  /** A recursive `mkdir` leaves every path that is not an ancestor of its target as it was. */
  lemma WithDirectoryFrame(fs: Tree, p: Path, x: Path)
    requires !IsPrefix(x, p)
    ensures SameAt(fs, WithDirectory(fs, p), x)
  {
  }

  /** A recursive `mkdir` changes nothing outside the path it creates, makes
      every prefix of that path a directory, and keeps the tree well formed. */
  lemma WithDirectoryFacts(fs: Tree, p: Path)
    requires WellFormed(fs) && NoFileOnPath(fs, p)
    ensures WellFormed(WithDirectory(fs, p))
    ensures forall x :: IsPrefix(x, p) ==> x in WithDirectory(fs, p) && WithDirectory(fs, p)[x] == Dir
    ensures forall x :: !IsPrefix(x, p) ==> SameAt(fs, WithDirectory(fs, p), x)
    ensures forall x :: x in fs ==> SameAt(fs, WithDirectory(fs, p), x)
  {
    var r := WithDirectory(fs, p);
    forall q, k | q in r && 0 <= k < |q| ensures q[..k] in r && r[q[..k]] == Dir {
      if IsPrefix(q, p) {
        assert IsPrefix(q[..k], p);
      } else {
        assert q in fs;
        if IsPrefix(q[..k], p) {
        } else {
          assert q[..k] in fs;
        }
      }
    }
    forall x | x in fs ensures SameAt(fs, r, x) {
      if IsPrefix(x, p) {
        assert x == p[..|x|];
      }
    }
  }

  /** The disk as the installer sees it through Node's `fs` module. */
  class Disk {
    var entries: Tree

    ghost predicate Valid()
      reads this
    {
      WellFormed(entries)
    }

    constructor (initial: Tree)
      requires WellFormed(initial)
      ensures Valid() && entries == initial
    {
      entries := initial;
    }

    /** `fs.existsSync(p)`. */
    method Exists(p: Path) returns (present: bool)
      ensures present <==> p in entries
    {
      present := p in entries;
    }

    /** `entry.isDirectory()` for an entry found by listing. */
    method IsDirectory(p: Path) returns (isDir: bool)
      requires p in entries
      ensures isDir <==> entries[p] == Dir
    {
      isDir := entries[p] == Dir;
    }

    /** `fs.readdirSync(p)`: the names, in no particular order. */
    method ReadDirectory(p: Path) returns (names: set<Name>)
      requires p in entries && entries[p] == Dir
      ensures names == Children(entries, p)
      ensures forall n :: n in names <==> p + [n] in entries
    {
      names := Children(entries, p);
      forall n ensures n in names <==> p + [n] in entries {
        ChildrenMember(entries, p, n);
      }
    }

    /** `fs.mkdirSync(p, { recursive: true })`. */
    method MakeDirectory(p: Path)
      requires Valid() && NoFileOnPath(entries, p)
      modifies this
      ensures Valid()
      ensures entries == WithDirectory(old(entries), p)
    {
      WithDirectoryFacts(entries, p);
      entries := WithDirectory(entries, p);
    }

    /** `fs.copyFileSync(src, dest)`: the destination file gets the source's
        bytes, replacing an existing file. */
    method CopyFile(src: Path, dest: Path)
      requires Valid()
      requires src in entries && entries[src].File?
      requires |dest| > 0 && dest[..|dest| - 1] in entries && entries[dest[..|dest| - 1]] == Dir
      requires dest in entries ==> entries[dest].File?
      modifies this
      ensures Valid()
      ensures entries == old(entries)[dest := old(entries)[src]]
    {
      var r := entries[dest := entries[src]];
      forall q, k | q in r && 0 <= k < |q| ensures q[..k] in r && r[q[..k]] == Dir {
        if q == dest {
          assert q[..k] == dest[..|dest| - 1][..k];
        }
      }
      entries := r;
    }
  }
}
