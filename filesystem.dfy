/** The in-memory filesystem: a root directory object whose children are
    directory objects, each owning a name-to-child map that is updated in
    place. `MakeDirs` walks a `current` reference down the tree, adding
    directories to nested nodes; `Exists` walks the same way and only reads.
    Both are proved against the functions of `DirectoryTree` on the set of
    paths the tree holds. */
module MemoryFilesystem {
  import opened Paths
  import opened DirectoryTree

  /** A directory node: a map from names to the child directories it owns. */
  class Directory {
    var entries: map<string, Directory>

    constructor ()
      ensures entries == map[]
    {
      entries := map[];
    }

    /** Inserts `entry` under `name`; refuses a name already present. */
    method Add(name: string, entry: Directory) returns (r: Outcome)
      modifies this
      ensures old(name in entries) ==> r == Fail(FileExists) && unchanged(this)
      ensures old(name !in entries) ==> r == Pass && entries == old(entries)[name := entry]
    {
      if name in entries {
        return Fail(FileExists);
      }
      entries := entries[name := entry];
      return Pass;
    }

    /** Whether `name` is a key of this directory. */
    method Has(name: string) returns (b: bool)
      ensures b <==> name in entries
    {
      b := name in entries;
    }

    /** The child stored under `name` (also what indexing with `[]` does);
        a missing name is a KeyError in the source, hence the precondition. */
    method Get(name: string) returns (d: Directory)
      requires name in entries
      ensures d == entries[name] && d in entries.Values
    {
      d := entries[name];
    }
  }

  /** The paths of the walk so far, grown by one step. */
  lemma KeysGrow(k0: set<Path>, k1: set<Path>, k2: set<Path>, cur: Path, n: string)
    requires k1 == k0 + Prefixes(cur) && k2 == k1 + {cur + [n]}
    ensures k2 == k0 + Prefixes(cur + [n])
  {
    PrefixesSnoc(cur, n);
  }

  /** Keeping every path of `a` at the same directory is transitive. */
  lemma Extends(a: map<Path, Directory>, b: map<Path, Directory>, c: map<Path, Directory>)
    requires forall q :: q in a ==> q in b && b[q] == a[q]
    requires forall q :: q in b ==> q in c && c[q] == b[q]
    ensures forall q :: q in a ==> q in c && c[q] == a[q]
  {
  }

  /** The shape of the directory graph, as values: `node` places a
      directory at each path of the tree, `kids` holds the name-to-child map
      of the directory at each path, and `at` is the inverse of `node`, so
      distinct paths hold distinct directories. Every child edge `p -> n`
      leads to the directory at `p + [n]`, and every path but the root is
      reached by the edge from its parent: the graph is a tree. */
  ghost predicate Linked(node: map<Path, Directory>, kids: map<Path, map<string, Directory>>,
                         at: map<Directory, Path>, root: Directory)
  {
    && node.Keys == kids.Keys
    && [] in node && node[[]] == root
    && (forall p {:trigger node[p]} :: p in node ==> node[p] in at && at[node[p]] == p)
    && (forall p, n {:trigger kids[p][n]} :: p in kids && n in kids[p] ==>
          p + [n] in node && node[p + [n]] == kids[p][n])
    && (forall q {:trigger Up(q)} :: q in node && q != [] ==>
          Up(q) in kids && q[|q| - 1] in kids[Up(q)])
  }

  /** In the tree, `p + [n]` is a path exactly when `n` names a child of the
      directory at `p`, and then it holds that child. */
  lemma LinkedChild(node: map<Path, Directory>, kids: map<Path, map<string, Directory>>,
                    at: map<Directory, Path>, root: Directory, p: Path, n: string)
    requires Linked(node, kids, at, root) && p in node
    ensures p + [n] in node <==> n in kids[p]
    ensures n in kids[p] ==> node[p + [n]] == kids[p][n]
  {
    assert Up(p + [n]) == p;
    if n in kids[p] {
      assert kids[p][n] == kids[p][n];
    }
  }

  /** Hanging a new, empty directory `d` under the name `n` of the directory
      at `p` keeps the graph a tree. */
  lemma LinkedAdd(node: map<Path, Directory>, kids: map<Path, map<string, Directory>>,
                  at: map<Directory, Path>, root: Directory, p: Path, n: string, d: Directory)
    requires Linked(node, kids, at, root)
    requires p in node && n !in kids[p] && d !in at
    ensures p + [n] !in node
    ensures Linked(node[p + [n] := d], kids[p := kids[p][n := d]][p + [n] := map[]],
                   at[d := p + [n]], root)
  {
    var c := p + [n];
    assert Up(c) == p;
    var node', kids', at' := node[c := d], kids[p := kids[p][n := d]][c := map[]], at[d := c];
    LinkedAddInverse(node, kids, at, root, p, n, d);
    LinkedAddDown(node, kids, at, root, p, n, d);
    LinkedAddUp(node, kids, at, root, p, n, d);
    assert [] != c;
  }

  lemma LinkedAddInverse(node: map<Path, Directory>, kids: map<Path, map<string, Directory>>,
                         at: map<Directory, Path>, root: Directory, p: Path, n: string, d: Directory)
    requires Linked(node, kids, at, root)
    requires p in node && n !in kids[p] && d !in at
    ensures forall q {:trigger node[p + [n] := d][q]} :: q in node[p + [n] := d] ==>
      node[p + [n] := d][q] in at[d := p + [n]] && at[d := p + [n]][node[p + [n] := d][q]] == q
  {
    var c := p + [n];
    var node', at' := node[c := d], at[d := c];
    forall q | q in node' ensures node'[q] in at' && at'[node'[q]] == q {
      if q != c {
        assert node[q] in at && at[node[q]] == q;
      }
    }
  }

  lemma LinkedAddDown(node: map<Path, Directory>, kids: map<Path, map<string, Directory>>,
                      at: map<Directory, Path>, root: Directory, p: Path, n: string, d: Directory)
    requires Linked(node, kids, at, root)
    requires p in node && n !in kids[p] && d !in at
    ensures var node', kids' := node[p + [n] := d], kids[p := kids[p][n := d]][p + [n] := map[]];
      forall q, m {:trigger kids'[q][m]} :: q in kids' && m in kids'[q] ==>
        q + [m] in node' && node'[q + [m]] == kids'[q][m]
  {
    var c := p + [n];
    assert Up(c) == p;
    var node', kids' := node[c := d], kids[p := kids[p][n := d]][c := map[]];
    forall q, m | q in kids' && m in kids'[q]
      ensures q + [m] in node' && node'[q + [m]] == kids'[q][m]
    {
      if q == p {
        if m != n {
          assert kids[p][m] == kids'[p][m];
          assert (p + [m])[|p|] == m && c[|p|] == n;
        }
      } else if q != c {
        assert kids[q][m] == kids'[q][m];
      }
    }
  }

  lemma LinkedAddUp(node: map<Path, Directory>, kids: map<Path, map<string, Directory>>,
                    at: map<Directory, Path>, root: Directory, p: Path, n: string, d: Directory)
    requires Linked(node, kids, at, root)
    requires p in node && n !in kids[p] && d !in at
    ensures var node', kids' := node[p + [n] := d], kids[p := kids[p][n := d]][p + [n] := map[]];
      forall q {:trigger Up(q)} :: q in node' && q != [] ==>
        Up(q) in kids' && q[|q| - 1] in kids'[Up(q)]
  {
    var c := p + [n];
    assert Up(c) == p;
    var node', kids' := node[c := d], kids[p := kids[p][n := d]][c := map[]];
    forall q | q in node' && q != []
      ensures Up(q) in kids' && q[|q| - 1] in kids'[Up(q)]
    {
      if q != c {
        assert Up(q) in kids && q[|q| - 1] in kids[Up(q)];
      }
    }
  }

  class InMemoryFilesystem {
    /** The root directory. */
    const tree: Directory

    /** Where each path of the tree leads: the abstract tree is its key set. */
    ghost var Node: map<Path, Directory>
    /** The entries of the directory at each path. */
    ghost var Kids: map<Path, map<string, Directory>>
    /** The inverse of `Node`: the one path at which each directory sits. */
    ghost var PathOf: map<Directory, Path>
    ghost var Repr: set<object>

    /** The paths the tree holds. */
    ghost function PathSet(): set<Path>
      reads this
    {
      Node.Keys
    }

    /** The object invariant: the directories form the tree `Linked`
        describes, and `Kids` is what their `entries` hold. */
    ghost predicate Valid()
      reads this, Repr
    {
      && this in Repr
      && PathOf.Keys <= Repr
      && Linked(Node, Kids, PathOf, tree)
      && (forall p {:trigger Node[p]} :: p in Node ==> Node[p] in Repr && Node[p].entries == Kids[p])
    }

    lemma ValidIsTree()
      requires Valid()
      ensures IsTree(PathSet())
    {
      forall q | q in Node && q != [] ensures Up(q) in Node {
        assert Up(q) in Kids;
      }
    }

    /** A new filesystem holds an empty root directory and nothing else. */
    constructor ()
      ensures Valid() && fresh(Repr)
      ensures PathSet() == {[]} && tree.entries == map[]
    {
      tree := new Directory();
      Node := map[[] := tree];
      Kids := map[[] := map[]];
      PathOf := map[tree := []];
      Repr := {this, tree};
    }

    /** `makedirs(path)`: creates every missing directory named by the
        non-empty segments before the last one, reusing those that exist,
        then adds the last segment, literally, to the parent reached.
        The result is `MakeDirs` of the old path set; directories that existed
        stay the same objects at the same paths; on failure nothing changed. */
    method MakeDirs(path: string) returns (r: Outcome)
      requires Valid()
      modifies Repr
      ensures Valid() && fresh(Repr - old(Repr))
      ensures r.Pass? ==> DirectoryTree.MakeDirs(old(PathSet()), path) == Success(PathSet())
      ensures r.Fail? ==> DirectoryTree.MakeDirs(old(PathSet()), path) == Failure(r.error)
      ensures forall p :: p in old(Node) ==> p in Node && Node[p] == old(Node)[p]
      ensures r.Pass? ==> fresh(Node[Target(path)])
      ensures r.Fail? ==> Node == old(Node) && Kids == old(Kids) && Repr == old(Repr)
    {
      var parts := Split(path);
      var current, cur, created := WalkToParent(parts);
      var last := parts[|parts| - 1];
      assert Target(path) == cur + [last];
      PrefixesSnoc(cur, last);
      var d := new Directory();
      r := AddChild(current, cur, last, d);
      assert created ==> r.Pass?;
      if r.Pass? {
        assert PathSet() == old(PathSet()) + Prefixes(Target(path));
      }
    }

    /** The loop of `makedirs` over all segments but the last: empty
        segments are skipped, a missing directory is created, and the walk
        descends into it. It ends at the directory named by the non-empty
        segments before the last; only the directories on that path were added. */
    method WalkToParent(parts: seq<string>) returns (current: Directory, ghost cur: Path, ghost created: bool)
      requires Valid() && |parts| >= 1
      modifies Repr
      ensures Valid() && fresh(Repr - old(Repr))
      ensures cur == NonEmpty(parts[..|parts| - 1]) && cur in Node && Node[cur] == current
      ensures Node.Keys == old(Node.Keys) + Prefixes(cur)
      ensures forall p :: p in old(Node) ==> p in Node && Node[p] == old(Node)[p]
      ensures !created ==> Node == old(Node) && Kids == old(Kids) && Repr == old(Repr)
      ensures created ==> current.entries == map[]
    {
      current := tree;
      cur := [];
      created := false;
      ghost var node0, kids0 := Node, Kids;
      for i := 0 to |parts| - 1
        invariant Valid() && fresh(Repr - old(Repr))
        invariant cur == NonEmpty(parts[..i]) && cur in Node && Node[cur] == current
        invariant Node.Keys == node0.Keys + Prefixes(cur)
        invariant forall p :: p in node0 ==> p in Node && Node[p] == node0[p]
        invariant !created ==> Node == node0 && Kids == kids0 && Repr == old(Repr)
        invariant created ==> current.entries == map[]
      {
        var entry := parts[i];
        NonEmptyStep(parts, i);
        if entry == "" {
          continue;
        }
        ghost var node1 := Node;
        ghost var made;
        current, made := Descend(current, cur, entry);
        KeysGrow(node0.Keys, node1.Keys, Node.Keys, cur, entry);
        Extends(node0, node1, Node);
        created := created || made;
        cur := cur + [entry];
      }
    }

    /** One step of the walk in `MakeDirs`: the child `n` of the directory
        `current` at path `p` is created when missing, then returned. */
    method Descend(current: Directory, ghost p: Path, n: string) returns (next: Directory, ghost made: bool)
      requires Valid() && p in Node && Node[p] == current
      modifies Repr
      ensures Valid() && fresh(Repr - old(Repr))
      ensures p + [n] in Node && Node[p + [n]] == next
      ensures Node.Keys == old(Node.Keys) + {p + [n]}
      ensures forall q :: q in old(Node) ==> q in Node && Node[q] == old(Node)[q]
      ensures made <==> old(n !in current.entries)
      ensures made ==> next.entries == map[] && fresh(next)
      ensures !made ==> Node == old(Node) && Kids == old(Kids) && Repr == old(Repr)
    {
      var has := current.Has(n);
      made := !has;
      if !has {
        var d := new Directory();
        var _ := AddChild(current, p, n, d);
      }
      LinkedChild(Node, Kids, PathOf, tree, p, n);
      next := current.Get(n);
    }

    /** Adds the new empty directory `d` as child `n` of the directory
        `parent` at path `p`, as `_Directory.add` does; a name already
        present is refused with FileExists and nothing changes. */
    method AddChild(parent: Directory, ghost p: Path, n: string, d: Directory) returns (r: Outcome)
      requires Valid() && p in Node && Node[p] == parent
      requires d !in Repr && d.entries == map[]
      modifies Repr
      ensures Valid()
      ensures r.Pass? <==> p + [n] !in old(Node)
      ensures r.Pass? <==> old(n !in parent.entries)
      ensures r.Pass? ==> Repr == old(Repr) + {d} && p + [n] in Node && Node[p + [n]] == d && d.entries == map[]
      ensures r.Pass? ==> Node.Keys == old(Node.Keys) + {p + [n]}
      ensures forall q :: q in old(Node) ==> q in Node && Node[q] == old(Node)[q]
      ensures r.Fail? ==> r.error == FileExists && Node == old(Node) && Kids == old(Kids) && Repr == old(Repr)
    {
      LinkedChild(Node, Kids, PathOf, tree, p, n);
      r := parent.Add(n, d);
      if r.Pass? {
        // every directory other than `parent` kept its entries
        forall q | q in Node && q != p
          ensures Node[q].entries == Kids[q]
        {
          assert PathOf[Node[q]] == q && PathOf[parent] == p;
        }
        Attach(p, n, d);
      }
    }

    /** Records in the ghost state that `d` was added as child `n` of the
        directory at `p`, whose entries already hold it. */
    ghost method Attach(p: Path, n: string, d: Directory)
      requires this in Repr && PathOf.Keys <= Repr && Linked(Node, Kids, PathOf, tree)
      requires p in Node && n !in Kids[p] && d !in Repr && d.entries == map[]
      requires forall q {:trigger Node[q]} :: q in Node ==> Node[q] in Repr
      requires forall q {:trigger Node[q]} :: q in Node && q != p ==> Node[q].entries == Kids[q]
      requires Node[p].entries == Kids[p][n := d]
      modifies this
      ensures Valid()
      ensures Repr == old(Repr) + {d} && Node == old(Node)[p + [n] := d]
      ensures Node.Keys == old(Node.Keys) + {p + [n]}
    {
      ghost var c := p + [n];
      LinkedAdd(Node, Kids, PathOf, tree, p, n, d);
      ghost var node2, kids2 := Node[c := d], Kids[p := Kids[p][n := d]][c := map[]];
      forall q | q in node2
        ensures node2[q] in Repr + {d} && node2[q].entries == kids2[q]
      {
      }
      Node, Kids, PathOf, Repr := node2, kids2, PathOf[d := c], Repr + {d};
    }

    /** `exists(path)`: walks from the root along the non-empty segments of
        `path` and answers false at the first missing one. */
    method Exists(path: string) returns (b: bool)
      requires Valid()
      ensures b == DirectoryTree.Exists(PathSet(), path)
    {
      var parts := Split(path);
      var current := tree;
      ghost var cur: Path := [];
      for i := 0 to |parts|
        invariant cur == NonEmpty(parts[..i]) && cur in Node && Node[cur] == current
      {
        var entry := parts[i];
        assert parts[..i + 1] == parts[..i] + [entry];
        NonEmptyAppend(parts[..i], [entry]);
        if entry == "" {
          continue;
        }
        var has := current.Has(entry);
        if !has {
          MissingStopsWalk(parts, i, cur);
          return false;
        }
        current := current.Get(entry);
        cur := cur + [entry];
      }
      assert parts[..|parts|] == parts;
      return true;
    }

    /** When the walk is at `cur` after `parts[..i]` and `parts[i]` is not a
        child there, the path named by all of `parts` is not in the tree. */
    lemma {:induction false} MissingStopsWalk(parts: seq<string>, i: nat, cur: Path)
      requires Valid() && i < |parts| && parts[i] != ""
      requires cur == NonEmpty(parts[..i]) && cur in Node
      requires parts[i] !in Node[cur].entries
      ensures NonEmpty(parts) !in PathSet()
    {
      var w := NonEmpty(parts);
      assert parts == parts[..i] + ([parts[i]] + parts[i + 1..]);
      NonEmptyAppend(parts[..i], [parts[i]] + parts[i + 1..]);
      NonEmptyAppend([parts[i]], parts[i + 1..]);
      var k := |cur| + 1;
      var q := cur + [parts[i]];
      assert w[..k] == q;
      assert Up(q) == cur;
      assert q !in Node;
      if w in Node {
        ValidIsTree();
        PrefixClosed(PathSet(), w, k);
      }
    }
  }
}
