/** The abstract value of the in-memory directory tree and the two path
    operations on it. Since every entry is a directory and names are unique
    within a directory, a tree is fully described by the set of paths it
    contains: the root is the empty path, and a directory `d` with child `n`
    contributes the path `d + [n]`. */
module DirectoryTree {
  import opened Paths

  /** The one error the core raises: Python's FileExistsError. */
  datatype FsError = FileExists

  /** What the value-level `MakeDirs` returns: the new set of paths, or the
      error. */
  datatype Result<T> = Success(value: T) | Failure(error: FsError)

  /** What the methods that change a directory in place return: the Python
      methods return nothing or raise, and the new state lives in the objects,
      so there is no value to carry. */
  datatype Outcome = Pass | Fail(error: FsError)

  /** The path of the directory that holds `p`. */
  function Up(p: Path): (r: Path)
    requires p != []
    ensures |r| == |p| - 1 && p == r + [p[|p| - 1]]
  {
    p[..|p| - 1]
  }

  /** A set of paths is a tree when it holds the root and the parent of every
      other path it holds. */
  ghost predicate IsTree(t: set<Path>)
  {
    && [] in t
    && forall p {:trigger Up(p)} :: p in t && p != [] ==> Up(p) in t
  }

  /** Every prefix of `p`, from the root up to `p` itself. */
  function Prefixes(p: Path): (r: set<Path>)
    ensures p in r && [] in r
    ensures forall q {:trigger q in r} :: q in r ==> |q| <= |p| && q == p[..|q|]
  {
    var r := set k | 0 <= k <= |p| :: p[..k];
    assert p[..|p|] == p && p[..|p|] in r;
    assert p[..0] == [] && p[..0] in r;
    r
  }

  /** A tree holds every prefix of every path it holds. */
  lemma {:induction false} PrefixClosed(t: set<Path>, p: Path, k: nat)
    requires IsTree(t) && p in t && k <= |p|
    ensures p[..k] in t
    decreases |p| - k
  {
    if k < |p| {
      PrefixClosed(t, Up(p), k);
      assert Up(p)[..k] == p[..k];
    } else {
      assert p[..k] == p;
    }
  }

  lemma PrefixesSnoc(p: Path, n: string)
    ensures Prefixes(p + [n]) == Prefixes(p) + {p + [n]}
  {
    var q := p + [n];
    forall k | 0 <= k <= |p| ensures q[..k] == p[..k] { }
    assert q[..|q|] == q;
    forall x | x in Prefixes(q) ensures x in Prefixes(p) + {q} {
      if |x| <= |p| { assert x == p[..|x|]; }
    }
  }

  /** Adding the prefixes of one path to a tree keeps it a tree. */
  lemma AddPrefixesIsTree(t: set<Path>, p: Path)
    requires IsTree(t)
    ensures IsTree(t + Prefixes(p))
  {
    forall q | q in Prefixes(p) && q != []
      ensures Up(q) in Prefixes(p)
    {
      assert Up(q) == p[..|q| - 1];
    }
  }

  // ---------------------------------------------------------------------
  // exists(path)

  /** `exists(path)`: the walk from the root along the non-empty segments of
      `path` never meets a missing name. In a tree that is the same as the
      path those segments spell being in the tree. */
  ghost predicate Exists(t: set<Path>, path: string)
  {
    NonEmpty(Split(path)) in t
  }

  /** In a tree, `Exists` fails exactly when some prefix of the walked
      segments is missing: the walk stops at the first missing name. */
  lemma {:induction false} ExistsIffAllPrefixes(t: set<Path>, path: string)
    requires IsTree(t)
    ensures Exists(t, path) <==>
      forall k :: 0 <= k <= |NonEmpty(Split(path))| ==> NonEmpty(Split(path))[..k] in t
  {
    var w := NonEmpty(Split(path));
    if w in t {
      forall k | 0 <= k <= |w| ensures w[..k] in t { PrefixClosed(t, w, k); }
    } else {
      assert w[..|w|] == w;
      assert !(forall k :: 0 <= k <= |w| ==> w[..k] in t);
      assert !Exists(t, path);
      assert w == NonEmpty(Split(path));
    }
  }

  /** A fresh filesystem holds only the root: a path exists exactly when all
      of its segments are empty (the path is made of separators only, or is
      empty). */
  lemma ExistsOnFreshTree(path: string)
    ensures Exists({[]}, path) <==>
      forall i :: 0 <= i < |Split(path)| ==> Split(path)[i] == ""
  {
    var parts := Split(path);
    var w := NonEmpty(parts);
    assert w in {[]} <==> w == [];
    NonEmptyIsEmpty(parts);
  }

  /** The root always exists, whatever the tree. */
  lemma RootExists(t: set<Path>, path: string)
    requires IsTree(t)
    requires forall i :: 0 <= i < |Split(path)| ==> Split(path)[i] == ""
    ensures Exists(t, path)
  {
    NonEmptyIsEmpty(Split(path));
  }

  /** `exists` ignores a leading separator: `exists('/x') == exists('x')`. */
  lemma {:induction false} ExistsIgnoresLeadingSep(t: set<Path>, y: string)
    ensures Exists(t, [Sep] + y) == Exists(t, y)
  {
    LeadingSep(y);
    NonEmptyAppend([""], Split(y));
  }

  /** `exists` ignores a repeated separator: `exists('a//b') == exists('a/b')`. */
  lemma {:induction false} ExistsIgnoresRepeatedSep(t: set<Path>, x: string, y: string)
    ensures Exists(t, x + [Sep, Sep] + y) == Exists(t, x + [Sep] + y)
  {
    DoubledSep(x, y);
    SplitConcat(x, y);
    NonEmptyAppend(Split(x) + [""], Split(y));
    NonEmptyAppend(Split(x), [""]);
    NonEmptyAppend(Split(x), Split(y));
    assert NonEmpty([""]) == [];
    assert NonEmpty(Split(x + [Sep, Sep] + y)) == NonEmpty(Split(x + [Sep] + y));
  }

  /** `exists` ignores a trailing separator: `exists('a/') == exists('a')`. */
  lemma {:induction false} ExistsIgnoresTrailingSep(t: set<Path>, x: string)
    ensures Exists(t, x + [Sep]) == Exists(t, x)
  {
    SplitConcat(x, "");
    assert x + [Sep] + "" == x + [Sep];
    NonEmptyAppend(Split(x), [""]);
    assert NonEmpty([""]) == [];
    assert NonEmpty(Split(x + [Sep])) == NonEmpty(Split(x));
  }

  // ---------------------------------------------------------------------
  // makedirs(path)

  /** The segments `makedirs` walks before the last one, empty ones skipped. */
  function Parent(path: string): (p: Path)
  {
    var parts := Split(path);
    NonEmpty(parts[..|parts| - 1])
  }

  /** The last segment of the split path, taken literally (it may be empty). */
  function LastSegment(path: string): (n: string)
    ensures Sep !in n
  {
    var parts := Split(path);
    SplitHasNoSep(path);
    parts[|parts| - 1]
  }

  /** The path of the directory `makedirs` creates. */
  function Target(path: string): (p: Path)
  {
    Parent(path) + [LastSegment(path)]
  }

  /** `makedirs(path)`: the missing directories on the way to the parent are
      created (those that exist are kept), then the last segment is added to
      the parent; it fails when the parent already has a child of that name. */
  function MakeDirs(t: set<Path>, path: string): (r: Result<set<Path>>)
  {
    var target := Target(path);
    if target in t then Failure(FileExists) else Success(t + Prefixes(target))
  }

  /** `makedirs` keeps a tree a tree. */
  lemma MakeDirsKeepsTree(t: set<Path>, path: string)
    requires IsTree(t) && MakeDirs(t, path).Success?
    ensures IsTree(MakeDirs(t, path).value)
  {
    AddPrefixesIsTree(t, Target(path));
  }

  /** After a successful `makedirs(path)`, `exists(path)` holds, and so does
      `exists` of every prefix of its non-empty segments. Nothing that
      existed before is lost, and nothing beside the prefixes of the created
      path appears. */
  lemma {:induction false} MakeDirsThenExists(t: set<Path>, path: string)
    requires MakeDirs(t, path).Success?
    ensures Exists(MakeDirs(t, path).value, path)
    ensures forall k :: 0 <= k <= |NonEmpty(Split(path))| ==>
      NonEmpty(Split(path))[..k] in MakeDirs(t, path).value
    ensures t <= MakeDirs(t, path).value
    ensures MakeDirs(t, path).value - t <= Prefixes(Target(path))
  {
    var parts := Split(path);
    var n := |parts|;
    var t' := MakeDirs(t, path).value;
    var target := Target(path);
    assert parts == parts[..n - 1] + [parts[n - 1]];
    NonEmptyAppend(parts[..n - 1], [parts[n - 1]]);
    var w := NonEmpty(parts);
    NonEmptySingle(parts[n - 1]);
    assert w == Parent(path) + NonEmpty([LastSegment(path)]);
    // the walked segments are the parent, or the parent and the last segment
    assert w == target[..|w|];
    forall k | 0 <= k <= |w| ensures w[..k] in t' {
      assert w[..k] == target[..k];
    }
    assert w[..|w|] == w;
  }

  /** `makedirs` fails exactly when the created path is already there; then
      the parent and every directory above it already existed, so failing
      leaves nothing half-created. */
  lemma {:induction false} MakeDirsFailure(t: set<Path>, path: string)
    requires IsTree(t)
    ensures MakeDirs(t, path).Failure? <==> Target(path) in t
    ensures MakeDirs(t, path).Failure? ==> Prefixes(Target(path)) <= t
  {
    var target := Target(path);
    if target in t {
      forall q | q in Prefixes(target) ensures q in t {
        PrefixClosed(t, target, |q|);
      }
    }
  }

  /** A second `makedirs` of the same path fails and changes nothing. */
  lemma MakeDirsTwiceFails(t: set<Path>, path: string)
    requires MakeDirs(t, path).Success?
    ensures MakeDirs(MakeDirs(t, path).value, path) == Failure(FileExists)
  {
  }

  /** How the parent and last segment of a path follow from its split. */
  lemma {:induction false} ParentOfSplit(s: string, a: seq<string>, b: seq<string>)
    requires |b| >= 1 && Split(s) == a + b
    ensures Parent(s) == NonEmpty(a) + NonEmpty(b[..|b| - 1])
    ensures LastSegment(s) == b[|b| - 1]
  {
    var parts := a + b;
    assert parts[..|parts| - 1] == a + b[..|b| - 1];
    NonEmptyAppend(a, b[..|b| - 1]);
  }

  /** `makedirs` ignores a leading separator: `makedirs('/x')` behaves as
      `makedirs('x')`. */
  lemma {:induction false} MakeDirsIgnoresLeadingSep(t: set<Path>, y: string)
    ensures MakeDirs(t, [Sep] + y) == MakeDirs(t, y)
  {
    var u := Split(y);
    LeadingSep(y);
    ParentOfSplit([Sep] + y, [""], u);
    ParentOfSplit(y, [], u);
    assert NonEmpty([""]) == [];
    assert Target([Sep] + y) == Target(y);
  }

  /** `makedirs` ignores a repeated separator: `makedirs('a//b')` behaves as
      `makedirs('a/b')`. */
  lemma {:induction false} MakeDirsIgnoresRepeatedSep(t: set<Path>, x: string, y: string)
    ensures MakeDirs(t, x + [Sep, Sep] + y) == MakeDirs(t, x + [Sep] + y)
  {
    TargetIgnoresRepeatedSep(x, y);
  }

  lemma TargetIgnoresRepeatedSep(x: string, y: string)
    ensures Target(x + [Sep, Sep] + y) == Target(x + [Sep] + y)
  {
    var a, b := Split(x), Split(y);
    var s2, s1 := x + [Sep, Sep] + y, x + [Sep] + y;
    DoubledSep(x, y);
    SplitConcat(x, y);
    assert Split(s2) == (a + [""]) + b;
    ParentOfSplit(s2, a + [""], b);
    ParentOfSplit(s1, a, b);
    NonEmptyAppend(a, [""]);
    assert NonEmpty([""]) == [];
  }

  /** A trailing separator is not ignored by `makedirs`: the last segment of
      `x + '/'` is empty, so `makedirs('a/')` creates `a` and then adds a
      child named "" under it. */
  lemma MakeDirsTrailingSepAddsEmptyName(x: string)
    ensures Target(x + [Sep]) == NonEmpty(Split(x)) + [""]
  {
    SplitConcat(x, "");
    assert x + [Sep] + "" == x + [Sep];
    ParentOfSplit(x + [Sep], Split(x), [""]);
    assert [""][..0] == [];
  }

  /** The last segment is added literally, even when it is empty: on a fresh
      tree `makedirs('/')` succeeds and adds a child named "" to the root;
      only a second call fails. */
  lemma MakeDirsRootAddsEmptyName()
    ensures MakeDirs({[]}, [Sep]) == Success({[], [""]})
    ensures MakeDirs({[], [""]}, [Sep]) == Failure(FileExists)
  {
    LeadingSep("");
    assert [Sep] + "" == [Sep];
    var s := Split([Sep]);
    assert s == ["", ""];
    assert s[..1] == [""];
    assert NonEmpty([""]) == [];
    assert Parent([Sep]) == [];
    assert LastSegment([Sep]) == "";
    assert Target([Sep]) == [""];
    assert Prefixes([""]) == {[], [""]} by {
      assert [""][..0] == [] && [""][..1] == [""];
    }
    assert [""] !in {[]};
    assert MakeDirs({[]}, [Sep]) == Success({[]} + {[], [""]});
    var e: Path := [];
    assert {e} + {e, [""]} == {e, [""]};
  }
}
