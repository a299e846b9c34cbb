/** `copyDirectory(src, dest)`: the recursive copy the installer uses for both
    the backup and the installation. Its effect is specified by `CopyTree`, a
    function of the tree before the copy; the method walks the directories and
    is proved to produce exactly that tree. */
module Copying {
  import opened FileSystem

  /** `q`, a path at or below `src`, moved to the same place below `dest`. */
  function Rebase(q: Path, src: Path, dest: Path): (r: Path)
    requires IsPrefix(src, q)
    ensures |r| == |dest| + |q| - |src| && IsPrefix(dest, r)
  {
    dest + q[|src|..]
  }

  lemma RebaseBack(q: Path, src: Path, dest: Path)
    requires IsPrefix(src, q)
    ensures Rebase(Rebase(q, src, dest), dest, src) == q
  {
    assert Rebase(q, src, dest)[|dest|..] == q[|src|..];
  }

  /** Two prefixes of one path are prefixes of each other. */
  lemma PrefixesComparable(a: Path, b: Path, x: Path)
    requires IsPrefix(a, x) && IsPrefix(b, x)
    ensures IsPrefix(a, b) || IsPrefix(b, a)
  {
    if |a| <= |b| {
      assert b[..|a|] == x[..|a|];
    } else {
      assert a[..|b|] == x[..|b|];
    }
  }

  /** `y` lies strictly below `dest` and the matching path below `src` exists. */
  ghost predicate HasSource(fs: Tree, src: Path, dest: Path, y: Path)
  {
    IsStrictPrefix(dest, y) && Rebase(y, dest, src) in fs
  }

  /** What the copy needs to run without an error from the file system: the two
      directories lie outside each other, `mkdir` of the destination finds no
      file in the way, and wherever the destination already has an entry it is
      of the same kind (file or directory) as the one copied onto it. */
  ghost predicate CopyAllowed(fs: Tree, src: Path, dest: Path)
  {
    && Separate(src, dest)
    && NoFileOnPath(fs, dest)
    && forall y :: y in fs && HasSource(fs, src, dest, y) ==>
         (fs[y] == Dir <==> fs[Rebase(y, dest, src)] == Dir)
  }

  /** The entries below `src` whose first name below `src` is in `names`,
      moved below `dest`. */
  ghost function Copies(fs: Tree, src: Path, dest: Path, names: set<Name>): Tree
  {
    var targets := set q | q in fs && IsStrictPrefix(src, q) && q[|src|] in names :: Rebase(q, src, dest);
    map y | y in targets && HasSource(fs, src, dest, y) && y[|dest|] in names :: fs[Rebase(y, dest, src)]
  }

  /** The tree once the entries of `src` named in `names` have been copied. */
  ghost function CopyPart(fs: Tree, src: Path, dest: Path, names: set<Name>): Tree
  {
    WithDirectory(fs, dest) + Copies(fs, src, dest, names)
  }

  /** The tree after `copyDirectory(src, dest)`: `dest` is created (with its
      ancestors) and every entry of `src`, with its whole subtree, is copied to
      the same relative place below `dest`, over what was there. */
  ghost function CopyTree(fs: Tree, src: Path, dest: Path): Tree
  {
    CopyPart(fs, src, dest, Children(fs, src))
  }

  /** The entries strictly below `p`. */
  ghost function Descendants(fs: Tree, p: Path): set<Path>
  {
    set q | q in fs && IsStrictPrefix(p, q)
  }

  lemma CopiesAt(fs: Tree, src: Path, dest: Path, names: set<Name>, y: Path)
    ensures y in Copies(fs, src, dest, names) <==> HasSource(fs, src, dest, y) && y[|dest|] in names
    ensures y in Copies(fs, src, dest, names) ==> Copies(fs, src, dest, names)[y] == fs[Rebase(y, dest, src)]
  {
    var c := Copies(fs, src, dest, names);
    if HasSource(fs, src, dest, y) && y[|dest|] in names {
      var q := Rebase(y, dest, src);
      RebaseBack(y, dest, src);
      assert q[|src|] == y[|dest|];
      assert Rebase(q, src, dest) == y;
    }
    if y in c {
      var q :| q in fs && IsStrictPrefix(src, q) && q[|src|] in names && Rebase(q, src, dest) == y;
      RebaseBack(q, src, dest);
      assert y[|dest|] == q[|src|];
    }
  }

  /** Where the partial copy has an entry, and which. */
  lemma CopyPartAt(fs: Tree, src: Path, dest: Path, names: set<Name>, y: Path)
    ensures var r := CopyPart(fs, src, dest, names);
      && (y in r <==> y in fs || IsPrefix(y, dest) || (HasSource(fs, src, dest, y) && y[|dest|] in names))
      && (HasSource(fs, src, dest, y) && y[|dest|] in names ==> r[y] == fs[Rebase(y, dest, src)])
      && (IsPrefix(y, dest) ==> r[y] == Dir)
      && (!IsPrefix(y, dest) && !IsStrictPrefix(dest, y) && y in fs ==> r[y] == fs[y])
      && (IsStrictPrefix(dest, y) && y[|dest|] !in names && y in fs ==> r[y] == fs[y])
      && (!IsPrefix(y, dest) && !HasSource(fs, src, dest, y) && y in fs ==> r[y] == fs[y])
  {
    CopiesAt(fs, src, dest, names, y);
  }

  /** While the copy is under way: the tree stays well formed, nothing at or
      below `src` changes, every prefix of `dest` is a directory, and below
      `dest` nothing has changed under the names not yet copied. */
  lemma CopyPartFacts(fs: Tree, src: Path, dest: Path, names: set<Name>)
    requires WellFormed(fs) && CopyAllowed(fs, src, dest)
    ensures WellFormed(CopyPart(fs, src, dest, names))
    ensures forall x :: IsPrefix(src, x) ==> SameAt(fs, CopyPart(fs, src, dest, names), x)
    ensures forall x :: IsPrefix(x, dest) ==> x in CopyPart(fs, src, dest, names) && CopyPart(fs, src, dest, names)[x] == Dir
    ensures forall y :: IsStrictPrefix(dest, y) && y[|dest|] !in names ==> SameAt(fs, CopyPart(fs, src, dest, names), y)
  {
    var r := CopyPart(fs, src, dest, names);
    forall x | IsPrefix(src, x) ensures SameAt(fs, r, x) {
      CopyPartAt(fs, src, dest, names, x);
      if IsPrefix(x, dest) || IsStrictPrefix(dest, x) {
        PrefixesComparable(src, dest, if IsPrefix(x, dest) then dest else x);
      }
    }
    forall y | IsStrictPrefix(dest, y) && y[|dest|] !in names ensures SameAt(fs, r, y) {
      CopyPartAt(fs, src, dest, names, y);
    }
    forall x | IsPrefix(x, dest) ensures x in r && r[x] == Dir {
      CopyPartAt(fs, src, dest, names, x);
    }
    forall q, k | q in r && 0 <= k < |q| ensures q[..k] in r && r[q[..k]] == Dir {
      CopyPartPrefixIsDir(fs, src, dest, names, q, k);
    }
  }

  lemma CopyPartPrefixIsDir(fs: Tree, src: Path, dest: Path, names: set<Name>, q: Path, k: nat)
    requires WellFormed(fs) && CopyAllowed(fs, src, dest)
    requires q in CopyPart(fs, src, dest, names) && k < |q|
    ensures q[..k] in CopyPart(fs, src, dest, names) && CopyPart(fs, src, dest, names)[q[..k]] == Dir
  {
    CopyPartAt(fs, src, dest, names, q);
    if HasSource(fs, src, dest, q) && q[|dest|] in names {
      PrefixOfCopied(fs, src, dest, names, q, k);
    } else if q in fs {
      PrefixOfKept(fs, src, dest, names, q, k);
    } else {
      assert q[..k] == dest[..k];
      CopyPartAt(fs, src, dest, names, q[..k]);
    }
  }

  /** Above a copied entry there are directories. */
  lemma PrefixOfCopied(fs: Tree, src: Path, dest: Path, names: set<Name>, q: Path, k: nat)
    requires WellFormed(fs)
    requires HasSource(fs, src, dest, q) && q[|dest|] in names && k < |q|
    ensures q[..k] in CopyPart(fs, src, dest, names) && CopyPart(fs, src, dest, names)[q[..k]] == Dir
  {
    var p := q[..k];
    if k <= |dest| {
      assert p == dest[..k];
    } else {
      SliceBelow(q, src, dest, k);
      PresentAncestor(fs, Rebase(q, dest, src), |src| + k - |dest|);
    }
    CopyPartAt(fs, src, dest, names, p);
  }

  /** A slice of a path below `dest` that still reaches below `dest`: its first
      name there, and where it comes from. */
  lemma SliceBelow(q: Path, src: Path, dest: Path, k: nat)
    requires IsStrictPrefix(dest, q) && |dest| < k <= |q|
    ensures IsStrictPrefix(dest, q[..k]) && q[..k][|dest|] == q[|dest|]
    ensures Rebase(q[..k], dest, src) == Rebase(q, dest, src)[..|src| + k - |dest|]
  {
    assert q[..k][..|dest|] == q[..|dest|];
  }

  /** Above an entry that was already there, there are directories: the tree
      was well formed, and a copied entry has the kind of what it replaces. */
  lemma PrefixOfKept(fs: Tree, src: Path, dest: Path, names: set<Name>, q: Path, k: nat)
    requires WellFormed(fs) && CopyAllowed(fs, src, dest)
    requires q in fs && k < |q|
    ensures q[..k] in CopyPart(fs, src, dest, names) && CopyPart(fs, src, dest, names)[q[..k]] == Dir
  {
    var p := q[..k];
    PresentAncestor(fs, q, k);
    if IsPrefix(p, dest) || (HasSource(fs, src, dest, p) && p[|dest|] in names) {
      CopyPartAt(fs, src, dest, names, p);
    } else {
      CopyPartKept(fs, src, dest, names, p);
    }
  }

  /** An entry that is neither copied over nor an ancestor of `dest` keeps its value. */
  lemma CopyPartKept(fs: Tree, src: Path, dest: Path, names: set<Name>, y: Path)
    requires y in fs && !IsPrefix(y, dest) && !(HasSource(fs, src, dest, y) && y[|dest|] in names)
    ensures y in CopyPart(fs, src, dest, names) && CopyPart(fs, src, dest, names)[y] == fs[y]
  {
    CopiesAt(fs, src, dest, names, y);
  }

  /** The copy of an ordinary file: only its own destination path is written. */
  lemma CopyPartFileStep(fs: Tree, src: Path, dest: Path, names: set<Name>, n: Name)
    requires WellFormed(fs) && CopyAllowed(fs, src, dest)
    requires src + [n] in fs && fs[src + [n]].File? && n !in names
    ensures CopyPart(fs, src, dest, names + {n}) == CopyPart(fs, src, dest, names)[dest + [n] := fs[src + [n]]]
  {
    var a := CopyPart(fs, src, dest, names + {n});
    var b := CopyPart(fs, src, dest, names)[dest + [n] := fs[src + [n]]];
    forall y ensures SameAt(a, b, y) {
      FileStepAt(fs, src, dest, names, n, y);
    }
    MapsEqual(a, b);
  }

  lemma FileStepAt(fs: Tree, src: Path, dest: Path, names: set<Name>, n: Name, y: Path)
    requires WellFormed(fs)
    requires src + [n] in fs && fs[src + [n]].File? && n !in names
    ensures SameAt(CopyPart(fs, src, dest, names + {n}), CopyPart(fs, src, dest, names)[dest + [n] := fs[src + [n]]], y)
  {
    if y == dest + [n] {
      CopyPartAt(fs, src, dest, names + {n}, y);
      assert Rebase(y, dest, src) == src + [n];
    } else {
      FileStepElsewhere(fs, src, dest, names, n, y);
    }
  }

  /** Copying a file changes nothing but its target. */
  lemma FileStepElsewhere(fs: Tree, src: Path, dest: Path, names: set<Name>, n: Name, y: Path)
    requires WellFormed(fs)
    requires src + [n] in fs && fs[src + [n]].File? && y != dest + [n]
    ensures SameAt(CopyPart(fs, src, dest, names + {n}), CopyPart(fs, src, dest, names), y)
  {
    CopyPartAt(fs, src, dest, names + {n}, y);
    CopyPartAt(fs, src, dest, names, y);
    if IsStrictPrefix(dest, y) && y[|dest|] == n && HasSource(fs, src, dest, y) {
      NothingBelowFile(fs, src, dest, n, y);
    }
  }

  /** Below the copy of a file there is nothing to copy. */
  lemma NothingBelowFile(fs: Tree, src: Path, dest: Path, n: Name, y: Path)
    requires WellFormed(fs) && src + [n] in fs && fs[src + [n]].File?
    requires HasSource(fs, src, dest, y) && y[|dest|] == n
    ensures y == dest + [n]
  {
    var sy := Rebase(y, dest, src);
    assert sy[..|src| + 1] == src + [n];
    assert |y| == |dest| + 1;
    assert y == y[..|dest|] + [y[|dest|]];
  }

  /** The copy of a subdirectory: the recursive call, run on the partial copy,
      yields the partial copy extended by that subdirectory. */
  lemma CopyPartDirStep(fs: Tree, src: Path, dest: Path, names: set<Name>, n: Name)
    requires WellFormed(fs) && CopyAllowed(fs, src, dest)
    requires src + [n] in fs && fs[src + [n]] == Dir && n !in names
    ensures var cur := CopyPart(fs, src, dest, names);
      CopyTree(cur, src + [n], dest + [n]) == CopyPart(fs, src, dest, names + {n})
  {
    var cur := CopyPart(fs, src, dest, names);
    var a := CopyTree(cur, src + [n], dest + [n]);
    var b := CopyPart(fs, src, dest, names + {n});
    forall y ensures SameAt(a, b, y) {
      DirStepAt(fs, src, dest, names, n, y);
    }
    MapsEqual(a, b);
  }

  lemma DirStepAt(fs: Tree, src: Path, dest: Path, names: set<Name>, n: Name, y: Path)
    requires WellFormed(fs) && CopyAllowed(fs, src, dest)
    requires src + [n] in fs && fs[src + [n]] == Dir && n !in names
    ensures var cur := CopyPart(fs, src, dest, names);
      SameAt(CopyTree(cur, src + [n], dest + [n]), CopyPart(fs, src, dest, names + {n}), y)
  {
    if IsStrictPrefix(dest + [n], y) {
      DirStepBelow(fs, src, dest, names, n, y);
    } else if IsPrefix(y, dest + [n]) {
      DirStepAbove(fs, src, dest, names, n, y);
    } else {
      DirStepBeside(fs, src, dest, names, n, y);
    }
  }

  /** At the subdirectory's destination and above it, both have directories. */
  lemma DirStepAbove(fs: Tree, src: Path, dest: Path, names: set<Name>, n: Name, y: Path)
    requires CopyAllowed(fs, src, dest)
    requires src + [n] in fs && fs[src + [n]] == Dir
    requires IsPrefix(y, dest + [n])
    ensures var cur := CopyPart(fs, src, dest, names);
      SameAt(CopyTree(cur, src + [n], dest + [n]), CopyPart(fs, src, dest, names + {n}), y)
  {
    var cur := CopyPart(fs, src, dest, names);
    AboveChild(y, src, dest, n);
    CopyPartAt(cur, src + [n], dest + [n], Children(cur, src + [n]), y);
    CopyPartAt(fs, src, dest, names + {n}, y);
  }

  /** Away from the subdirectory's destination, neither copy writes anything new. */
  lemma DirStepBeside(fs: Tree, src: Path, dest: Path, names: set<Name>, n: Name, y: Path)
    requires !IsPrefix(y, dest + [n]) && !IsStrictPrefix(dest + [n], y)
    ensures var cur := CopyPart(fs, src, dest, names);
      SameAt(CopyTree(cur, src + [n], dest + [n]), CopyPart(fs, src, dest, names + {n}), y)
  {
    var cur := CopyPart(fs, src, dest, names);
    BesideChild(y, dest, n);
    CopyPartAt(cur, src + [n], dest + [n], Children(cur, src + [n]), y);
    CopyPartAt(fs, src, dest, names + {n}, y);
    CopyPartAt(fs, src, dest, names, y);
  }

  /** Strictly below the subdirectory's destination, the recursive copy writes
      what the parent's copy would write there. */
  lemma DirStepBelow(fs: Tree, src: Path, dest: Path, names: set<Name>, n: Name, y: Path)
    requires WellFormed(fs) && Separate(src, dest)
    requires n !in names
    requires IsStrictPrefix(dest + [n], y)
    ensures var cur := CopyPart(fs, src, dest, names);
      SameAt(CopyTree(cur, src + [n], dest + [n]), CopyPart(fs, src, dest, names + {n}), y)
  {
    BelowChild(y, src, dest, n);
    if Rebase(y, dest, src) in fs {
      DirStepBelowSourced(fs, src, dest, names, n, y);
    } else {
      DirStepBelowUnsourced(fs, src, dest, names, n, y);
    }
  }

  lemma DirStepBelowSourced(fs: Tree, src: Path, dest: Path, names: set<Name>, n: Name, y: Path)
    requires WellFormed(fs) && Separate(src, dest)
    requires n !in names
    requires IsStrictPrefix(dest + [n], y) && Rebase(y, dest, src) in fs
    ensures var cur := CopyPart(fs, src, dest, names);
      SameAt(CopyTree(cur, src + [n], dest + [n]), CopyPart(fs, src, dest, names + {n}), y)
  {
    var cur := CopyPart(fs, src, dest, names);
    BelowChild(y, src, dest, n);
    var sy := Rebase(y, dest, src);
    PrefixesNotBelow(src, dest, sy);
    CopyPartAt(fs, src, dest, names, sy);
    CopyPartAt(fs, src, dest, names + {n}, y);
    CopyPartAt(cur, src + [n], dest + [n], Children(cur, src + [n]), y);
    SourceChildListed(fs, src, dest, names, n, y);
  }

  lemma DirStepBelowUnsourced(fs: Tree, src: Path, dest: Path, names: set<Name>, n: Name, y: Path)
    requires Separate(src, dest)
    requires n !in names
    requires IsStrictPrefix(dest + [n], y) && Rebase(y, dest, src) !in fs
    ensures var cur := CopyPart(fs, src, dest, names);
      SameAt(CopyTree(cur, src + [n], dest + [n]), CopyPart(fs, src, dest, names + {n}), y)
  {
    var cur := CopyPart(fs, src, dest, names);
    BelowChild(y, src, dest, n);
    SourceSideUnchanged(fs, src, dest, names, Rebase(y, dest, src));
    assert !HasSource(cur, src + [n], dest + [n], y);
    CopyPartAt(cur, src + [n], dest + [n], Children(cur, src + [n]), y);
    CopyPartAt(fs, src, dest, names, y);
    CopyPartAt(fs, src, dest, names + {n}, y);
  }

  /** When the source of `y` exists, the recursive call lists the name under
      which `y` lies. */
  lemma SourceChildListed(fs: Tree, src: Path, dest: Path, names: set<Name>, n: Name, y: Path)
    requires WellFormed(fs) && Separate(src, dest)
    requires IsStrictPrefix(dest + [n], y)
    requires Rebase(y, dest, src) in fs
    ensures y[|dest| + 1] in Children(CopyPart(fs, src, dest, names), src + [n])
  {
    var cur := CopyPart(fs, src, dest, names);
    BelowChild(y, src, dest, n);
    var c := src + [n] + [y[|dest| + 1]];
    PresentAncestor(fs, Rebase(y, dest, src), |src| + 2);
    assert c[..|src|] == src;
    PrefixesNotBelow(src, dest, c);
    CopyPartAt(fs, src, dest, names, c);
    ChildrenMember(cur, src + [n], y[|dest| + 1]);
  }

  /** A prefix of `dest + [n]` is that path or a prefix of `dest`. */
  lemma AboveChild(y: Path, src: Path, dest: Path, n: Name)
    requires IsPrefix(y, dest + [n])
    ensures y == dest + [n] || IsPrefix(y, dest)
    ensures y == dest + [n] ==> Rebase(y, dest, src) == src + [n]
  {
    if |y| <= |dest| {
      assert y == (dest + [n])[..|y|] == dest[..|y|];
    }
  }

  /** A path neither above nor below `dest + [n]` is not a prefix of `dest`,
      and if it lies below `dest` it does so under another name. */
  lemma BesideChild(y: Path, dest: Path, n: Name)
    requires !IsPrefix(y, dest + [n]) && !IsStrictPrefix(dest + [n], y)
    ensures !IsPrefix(y, dest)
    ensures IsStrictPrefix(dest, y) ==> y[|dest|] != n
  {
    if IsStrictPrefix(dest, y) {
      assert y[..|dest| + 1] == y[..|dest|] + [y[|dest|]];
    }
    if |y| <= |dest| {
      assert (dest + [n])[..|y|] == dest[..|y|];
    }
  }

  /** The recursive call for a subdirectory is allowed on the partial copy. */
  lemma CopyAllowedBelow(fs: Tree, src: Path, dest: Path, names: set<Name>, n: Name)
    requires CopyAllowed(fs, src, dest)
    requires src + [n] in fs && fs[src + [n]] == Dir && n !in names
    ensures CopyAllowed(CopyPart(fs, src, dest, names), src + [n], dest + [n])
  {
    var cur := CopyPart(fs, src, dest, names);
    var s', d' := src + [n], dest + [n];
    SeparateChildren(src, dest, n);
    NoFileOnChildPath(fs, src, dest, names, n);
    forall y | y in cur && HasSource(cur, s', d', y)
      ensures cur[y] == Dir <==> cur[Rebase(y, d', s')] == Dir
    {
      KindsAgreeBelow(fs, src, dest, names, n, y);
    }
  }

  lemma SeparateChildren(src: Path, dest: Path, n: Name)
    requires Separate(src, dest)
    ensures Separate(src + [n], dest + [n])
  {
    var s', d' := src + [n], dest + [n];
    if |src| <= |dest| {
      assert s'[..|src|] == src;
      assert d'[..|s'|][..|src|] == dest[..|src|] != src;
    }
    if |dest| <= |src| {
      assert d'[..|dest|] == dest;
      assert s'[..|d'|][..|dest|] == src[..|dest|] != dest;
    }
  }

  lemma NoFileOnChildPath(fs: Tree, src: Path, dest: Path, names: set<Name>, n: Name)
    requires CopyAllowed(fs, src, dest)
    requires src + [n] in fs && fs[src + [n]] == Dir
    ensures NoFileOnPath(CopyPart(fs, src, dest, names), dest + [n])
  {
    var cur := CopyPart(fs, src, dest, names);
    var d' := dest + [n];
    forall k | 0 <= k <= |d'| && d'[..k] in cur ensures cur[d'[..k]] == Dir {
      if k <= |dest| {
        assert d'[..k] == dest[..k];
        CopyPartAt(fs, src, dest, names, dest[..k]);
      } else {
        assert d'[..k] == d';
        DirectoryTargetIsDir(fs, src, dest, names, n);
      }
    }
  }

  lemma DirectoryTargetIsDir(fs: Tree, src: Path, dest: Path, names: set<Name>, n: Name)
    requires CopyAllowed(fs, src, dest)
    requires src + [n] in fs && fs[src + [n]] == Dir
    ensures dest + [n] in CopyPart(fs, src, dest, names) ==> CopyPart(fs, src, dest, names)[dest + [n]] == Dir
  {
    var y := dest + [n];
    CopyPartAt(fs, src, dest, names, y);
    assert Rebase(y, dest, src) == src + [n];
  }

  lemma KindsAgreeBelow(fs: Tree, src: Path, dest: Path, names: set<Name>, n: Name, y: Path)
    requires CopyAllowed(fs, src, dest)
    requires n !in names
    requires var cur := CopyPart(fs, src, dest, names); y in cur && HasSource(cur, src + [n], dest + [n], y)
    ensures var cur := CopyPart(fs, src, dest, names);
      cur[y] == Dir <==> cur[Rebase(y, dest + [n], src + [n])] == Dir
  {
    BelowChild(y, src, dest, n);
    var sy := Rebase(y, dest, src);
    CopyPartAt(fs, src, dest, names, y);
    CopyPartAt(fs, src, dest, names, sy);
    PrefixesNotBelow(src, dest, sy);
  }

  /** A path strictly below `dest + [n]` lies below `dest` under the name `n`,
      and comes from the same place whether rebased from there or from `dest`. */
  lemma BelowChild(y: Path, src: Path, dest: Path, n: Name)
    requires IsStrictPrefix(dest + [n], y)
    ensures IsStrictPrefix(dest, y) && y[|dest|] == n
    ensures Rebase(y, dest + [n], src + [n]) == Rebase(y, dest, src)
    ensures IsPrefix(src + [n], Rebase(y, dest, src))
    ensures |Rebase(y, dest, src)| > |src| + 1
    ensures Rebase(y, dest, src)[..|src| + 2] == src + [n] + [y[|dest| + 1]]
  {
    assert y[..|dest|] == y[..|dest| + 1][..|dest|];
  }

  /** A path at or below `src` is neither a prefix of `dest` nor below it. */
  lemma PrefixesNotBelow(src: Path, dest: Path, x: Path)
    requires Separate(src, dest) && IsPrefix(src, x)
    ensures !IsPrefix(x, dest) && !IsStrictPrefix(dest, x)
  {
    if IsPrefix(x, dest) || IsStrictPrefix(dest, x) {
      PrefixesComparable(src, dest, if IsPrefix(x, dest) then dest else x);
    }
  }

  /** The recursion is on fewer entries each time. */
  lemma DescendantsShrink(fs: Tree, src: Path, dest: Path, names: set<Name>, n: Name)
    requires WellFormed(fs) && CopyAllowed(fs, src, dest)
    requires src + [n] in fs
    ensures Descendants(CopyPart(fs, src, dest, names), src + [n]) < Descendants(fs, src)
  {
    var cur := CopyPart(fs, src, dest, names);
    var s' := src + [n];
    var below := Descendants(cur, s');
    var all := Descendants(fs, src);
    forall q | q in below ensures q in all {
      assert q[..|src|] == q[..|s'|][..|src|];
      CopyPartAt(fs, src, dest, names, q);
      PrefixesNotBelow(src, dest, q);
    }
    assert s' in all && s' !in below;
  }

  /** Nothing at or below the source changes during the copy. */
  lemma SourceSideUnchanged(fs: Tree, src: Path, dest: Path, names: set<Name>, x: Path)
    requires Separate(src, dest) && IsPrefix(src, x)
    ensures SameAt(fs, CopyPart(fs, src, dest, names), x)
  {
    PrefixesNotBelow(src, dest, x);
    CopyPartAt(fs, src, dest, names, x);
  }

  /** So the listing of the source stays the same. */
  lemma ListingUnchanged(fs: Tree, src: Path, dest: Path, names: set<Name>)
    requires Separate(src, dest)
    ensures Children(CopyPart(fs, src, dest, names), src) == Children(fs, src)
  {
    forall n ensures SameAt(fs, CopyPart(fs, src, dest, names), src + [n]) {
      SourceSideUnchanged(fs, src, dest, names, src + [n]);
    }
    ChildrenFrame(fs, CopyPart(fs, src, dest, names), src);
  }

  /** Before any entry is copied, the copy is the `mkdir` of the destination. */
  lemma CopyPartNone(fs: Tree, src: Path, dest: Path)
    ensures CopyPart(fs, src, dest, {}) == WithDirectory(fs, dest)
  {
    forall y ensures y !in Copies(fs, src, dest, {}) {
      CopiesAt(fs, src, dest, {}, y);
    }
    assert Copies(fs, src, dest, {}) == map[];
  }

  /** A file of the source can be copied: the destination directory exists and
      anything already at the target is a file. */
  lemma FileTargetReady(fs: Tree, src: Path, dest: Path, names: set<Name>, n: Name)
    requires CopyAllowed(fs, src, dest)
    requires src + [n] in fs && fs[src + [n]].File? && n !in names
    ensures var cur := CopyPart(fs, src, dest, names);
      && (dest + [n])[..|dest + [n]| - 1] == dest
      && dest in cur && cur[dest] == Dir
      && (dest + [n] in cur ==> cur[dest + [n]].File?)
  {
    var y := dest + [n];
    assert y[..|y| - 1] == dest;
    CopyPartAt(fs, src, dest, names, dest);
    CopyPartAt(fs, src, dest, names, y);
    assert Rebase(y, dest, src) == src + [n];
  }

  // ---------------------------------------------------------------------------
  // What the copy does, as properties of `CopyTree`

  /** Every entry below `src` is at the same relative place below `dest`
      afterwards: files with identical contents, directories as directories. */
  lemma CopyTreeCopiesSource(fs: Tree, src: Path, dest: Path, r: Path)
    requires WellFormed(fs) && r != [] && src + r in fs
    ensures dest + r in CopyTree(fs, src, dest)
    ensures CopyTree(fs, src, dest)[dest + r] == fs[src + r]
  {
    var y := dest + r;
    assert y[..|dest|] == dest && y[|dest|..] == r && y[|dest|] == r[0];
    assert Rebase(y, dest, src) == src + r;
    PresentAncestor(fs, src + r, |src| + 1);
    assert (src + r)[..|src| + 1] == src + [r[0]];
    ChildrenMember(fs, src, r[0]);
    CopyPartAt(fs, src, dest, Children(fs, src), y);
  }

  /** Strictly below `dest` there is an entry afterwards exactly when there was
      one before or there is one at the matching place below `src`; the copied
      entry wins, and anything else already there is left as it was. */
  lemma CopyTreeBelowDest(fs: Tree, src: Path, dest: Path, y: Path)
    requires WellFormed(fs) && IsStrictPrefix(dest, y)
    ensures y in CopyTree(fs, src, dest) <==> y in fs || Rebase(y, dest, src) in fs
    ensures y in CopyTree(fs, src, dest) ==>
      CopyTree(fs, src, dest)[y] == if Rebase(y, dest, src) in fs then fs[Rebase(y, dest, src)] else fs[y]
  {
    if Rebase(y, dest, src) in fs {
      SourcedChildListed(fs, src, dest, y);
    }
    CopyPartAt(fs, src, dest, Children(fs, src), y);
  }

  /** An entry below `src` lies under one of the names `src` lists. */
  lemma SourcedChildListed(fs: Tree, src: Path, dest: Path, y: Path)
    requires WellFormed(fs) && IsStrictPrefix(dest, y) && Rebase(y, dest, src) in fs
    ensures y[|dest|] in Children(fs, src)
  {
    var sy := Rebase(y, dest, src);
    var n := y[|dest|];
    ChildrenMember(fs, src, n);
    assert sy[..|src| + 1] == src + [n];
    PresentAncestor(fs, sy, |src| + 1);
  }

  /** Outside `dest` and its ancestors nothing changes; the source in particular
      is left as it was. */
  lemma CopyTreeFrame(fs: Tree, src: Path, dest: Path, x: Path)
    requires !IsPrefix(x, dest) && !IsStrictPrefix(dest, x)
    ensures SameAt(fs, CopyTree(fs, src, dest), x)
  {
    CopyPartAt(fs, src, dest, Children(fs, src), x);
  }

  /** `dest` and every ancestor of it are directories afterwards. */
  lemma CopyTreeMakesDest(fs: Tree, src: Path, dest: Path, x: Path)
    requires IsPrefix(x, dest)
    ensures x in CopyTree(fs, src, dest) && CopyTree(fs, src, dest)[x] == Dir
  {
    CopyPartAt(fs, src, dest, Children(fs, src), x);
  }

  /** The copy keeps the tree well formed. */
  lemma CopyTreeWellFormed(fs: Tree, src: Path, dest: Path)
    requires WellFormed(fs) && CopyAllowed(fs, src, dest)
    ensures WellFormed(CopyTree(fs, src, dest))
  {
    CopyPartFacts(fs, src, dest, Children(fs, src));
  }

  /** Listing `dest` afterwards gives what it held before together with what
      `src` holds: the copy merges into an existing directory. */
  lemma CopyTreeChildren(fs: Tree, src: Path, dest: Path)
    requires WellFormed(fs)
    ensures Children(CopyTree(fs, src, dest), dest) == Children(fs, dest) + Children(fs, src)
  {
    var t := CopyTree(fs, src, dest);
    forall n ensures n in Children(t, dest) <==> n in Children(fs, dest) + Children(fs, src) {
      ChildrenMember(t, dest, n);
      ChildrenMember(fs, dest, n);
      ChildrenMember(fs, src, n);
      var y := dest + [n];
      assert y[..|dest|] == dest;
      assert Rebase(y, dest, src) == src + [n];
      CopyTreeBelowDest(fs, src, dest, y);
    }
  }

  /** Listing the parent of `dest` afterwards gives what it held before plus
      the name of `dest`. */
  lemma CopyTreeParentChildren(fs: Tree, src: Path, parent: Path, m: Name)
    ensures Children(CopyTree(fs, src, parent + [m]), parent) == Children(fs, parent) + {m}
  {
    var dest := parent + [m];
    var t := CopyTree(fs, src, dest);
    forall n ensures n in Children(t, parent) <==> n in Children(fs, parent) + {m} {
      ChildrenMember(t, parent, n);
      ChildrenMember(fs, parent, n);
      if n == m {
        CopyTreeMakesDest(fs, src, dest, dest);
      } else {
        var x := parent + [n];
        assert x[|parent|] != dest[|parent|];
        CopyTreeFrame(fs, src, dest, x);
      }
    }
  }

  /** `copyDirectory(src, dest)`. */
  method CopyDirectory(disk: Disk, src: Path, dest: Path)
    requires disk.Valid()
    requires src in disk.entries && disk.entries[src] == Dir
    requires CopyAllowed(disk.entries, src, dest)
    modifies disk
    ensures disk.Valid()
    ensures disk.entries == CopyTree(old(disk.entries), src, dest)
    decreases Descendants(disk.entries, src), 1
  {
    ghost var fs := disk.entries;
    CopyStart(fs, src, dest);
    disk.MakeDirectory(dest);
    var entries := disk.ReadDirectory(src);
    ghost var done: set<Name> := {};
    while entries != {}
      invariant disk.Valid()
      invariant entries !! done && entries + done == Children(fs, src)
      invariant disk.entries == CopyPart(fs, src, dest, done)
      decreases entries
    {
      var name :| name in entries;
      CopyEntry(disk, fs, src, dest, done, name);
      entries := entries - {name};
      done := done + {name};
    }
  }

  /** What holds once `mkdirSync(dest)` has run: nothing has been copied yet and
      the source directory is still there with the same listing. */
  lemma CopyStart(fs: Tree, src: Path, dest: Path)
    requires src in fs && fs[src] == Dir && CopyAllowed(fs, src, dest)
    ensures NoFileOnPath(fs, dest)
    ensures CopyPart(fs, src, dest, {}) == WithDirectory(fs, dest)
    ensures src in WithDirectory(fs, dest) && WithDirectory(fs, dest)[src] == Dir
    ensures Children(WithDirectory(fs, dest), src) == Children(fs, src)
  {
    CopyPartNone(fs, src, dest);
    ListingUnchanged(fs, src, dest, {});
    SourceSideUnchanged(fs, src, dest, {}, src);
  }

  /** One turn of the loop in `copyDirectory`: the entry `name` of `src` is
      copied to `dest`, by the recursive call for a directory and by
      `copyFileSync` for a file. */
  method CopyEntry(disk: Disk, ghost fs: Tree, src: Path, dest: Path, ghost done: set<Name>, name: Name)
    requires WellFormed(fs) && CopyAllowed(fs, src, dest)
    requires name in Children(fs, src) && name !in done
    requires disk.Valid() && disk.entries == CopyPart(fs, src, dest, done)
    modifies disk
    ensures disk.Valid()
    ensures disk.entries == CopyPart(fs, src, dest, done + {name})
    decreases Descendants(fs, src), 0
  {
    ChildrenMember(fs, src, name);
    SourceSideUnchanged(fs, src, dest, done, src + [name]);
    var isDir := disk.IsDirectory(src + [name]);
    if isDir {
      CopyAllowedBelow(fs, src, dest, done, name);
      DescendantsShrink(fs, src, dest, done, name);
      CopyPartDirStep(fs, src, dest, done, name);
      CopyDirectory(disk, src + [name], dest + [name]);
    } else {
      FileTargetReady(fs, src, dest, done, name);
      disk.CopyFile(src + [name], dest + [name]);
      CopyPartFileStep(fs, src, dest, done, name);
    }
  }
}
