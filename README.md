# In-memory filesystem of filip, modelled in Dafny

`filip/memory/filesystem.py` keeps a directory tree in memory. A
`_Directory` owns a dictionary from names to child directories, which its
`add` method changes in place. `InMemoryFilesystem` owns the root directory
and offers two path operations:

- `makedirs(path)` splits the path at the separator. It walks from the root
  along every segment but the last. It skips empty segments and creates each
  missing directory on the way. It then adds the last segment, taken
  literally, to the directory it reached. That last `add` raises
  `FileExistsError` when the name is already there.
- `exists(path)` splits the path the same way and walks from the root,
  skipping empty segments. It answers false at the first missing name and
  true otherwise.

The project has three modules:

- `Paths` (`paths.dfy`) models `str.split` on the separator '/'. It proves
  that `split` and `join` are inverses, and how a leading or repeated
  separator shows up in the split. It also covers dropping the empty
  segments, which both walks do.
- `DirectoryTree` (`directory_tree.dfy`) gives the abstract value of the
  tree: the set of paths it holds, with the root as the empty path. On that
  value it defines `makedirs` and `exists` as functions and proves what they
  promise:
  - a successful `makedirs` makes the path and all its prefixes exist and
    loses nothing;
  - `makedirs` fails exactly when the target is already there, and then
    nothing is half-created;
  - a repeated `makedirs` fails;
  - `exists` stops at the first missing name;
  - both operations ignore leading and repeated separators, and `exists`
    also ignores a trailing one.
- `MemoryFilesystem` (`filesystem.dfy`) is the imperative model. Its
  `Directory` class has an `entries` map that its methods update. Its
  `InMemoryFilesystem` class holds the root directory. `MakeDirs` walks a
  `current` reference down the objects in a loop, adding directories in
  place. `Exists` walks them read-only. Ghost state maps each path to its
  directory object and back. It proves that the objects form a tree, with
  distinct directories at distinct paths. The two methods are proved against
  the `DirectoryTree` functions on the set of paths held before the call.

The model follows the code where its own tests disagree with it. On a fresh
filesystem, `makedirs('/')` splits into `['', '']`. No directory is walked,
and the last segment `''` is added to the root as a new child. Nothing is
raised; only a second call raises (`DirectoryTree.MakeDirsRootAddsEmptyName`).
The test at `filip/memory/tests/test_filesystem.py:47-48` expects
`FileExistsError` on the first call.

For the same reason `makedirs` does not ignore a trailing separator.
`makedirs('a/')` splits into `['a', '']`. It creates `a`, then adds a child
named `''` under it, while `makedirs('a')` adds only `a`
(`DirectoryTree.MakeDirsTrailingSepAddsEmptyName`).

The code has no current directory and does not resolve `.` or `..`. A
relative path is walked from the root like an absolute one. Such segments
are ordinary names here.

## Model

| member | source | states |
|---|---|---|
| `Paths.Split` | filip/memory/filesystem.py:37 | `path.split('/')` as a function on strings; a split has at least one segment. `JoinSplit` and `SplitJoin` pin it down |
| `Paths.NonEmpty` | filip/memory/filesystem.py:40-41 | the segments the walk follows: the `if not entry: continue` skip; the result is never longer than its input |
| `Paths.SplitHasNoSep` | filip/memory/filesystem.py:37 | no segment of a split holds the separator |
| `Paths.SplitConcat` | filip/memory/filesystem.py:37 | splitting `x + '/' + y` gives the split of `x` followed by the split of `y` |
| `Paths.JoinSplit` | filip/memory/filesystem.py:37 | joining the segments of a split with '/' gives the original path back |
| `Paths.SplitJoin` | filip/memory/filesystem.py:37 | splitting a join of separator-free segments gives those segments back |
| `Paths.LeadingSep` | filip/memory/filesystem.py:37 | a leading separator only adds an empty first segment |
| `Paths.DoubledSep` | filip/memory/filesystem.py:49 | a doubled separator only adds one empty segment between its neighbours |
| `Paths.NonEmptyIsEmpty` | filip/memory/filesystem.py:52-54 | the walk follows no segment exactly when every segment is empty |
| `Paths.NonEmptyAppend` | filip/memory/filesystem.py:39-41 | skipping empty segments of a concatenation is skipping them in each part and concatenating |
| `Paths.NonEmptyStep` | filip/memory/filesystem.py:39-41 | one more loop iteration extends the walked path by that segment unless it is empty |
| `MemoryFilesystem.Directory.constructor` | filip/memory/filesystem.py:12-14 | a new directory has no entries |
| `MemoryFilesystem.Directory.Add` | filip/memory/filesystem.py:16-19 | a name already present fails with FileExists and changes nothing; otherwise the entry is stored under the name and every other entry is kept |
| `MemoryFilesystem.Directory.Has` | filip/memory/filesystem.py:21-22 | true exactly when the name is a key of the directory |
| `MemoryFilesystem.Directory.Get` | filip/memory/filesystem.py:24-28 | returns the child stored under a present name |
| `MemoryFilesystem.InMemoryFilesystem.constructor` | filip/memory/filesystem.py:33-34 | a new filesystem holds only an empty root directory, and its invariant holds |
| `MemoryFilesystem.InMemoryFilesystem.ValidIsTree` | filip/memory/filesystem.py:11-14 | the paths reachable through the directory objects form a tree: the root, and the parent of every other path |
| `MemoryFilesystem.InMemoryFilesystem.MakeDirs` | filip/memory/filesystem.py:36-46 | success and failure agree with `DirectoryTree.MakeDirs` on the old set of paths, and success leaves exactly its new set; directories that existed stay the same objects at the same paths; the directory at the target is a new object; a failure leaves the tree unchanged |
| `MemoryFilesystem.InMemoryFilesystem.WalkToParent` | filip/memory/filesystem.py:38-44 | the loop ends at the directory named by the non-empty segments before the last; it adds just the missing prefixes of that path, and changes nothing when none was missing |
| `MemoryFilesystem.InMemoryFilesystem.Descend` | filip/memory/filesystem.py:42-44 | the step returns the child of that name; it is a new, freshly allocated empty directory exactly when the name was missing, and nothing changes otherwise |
| `MemoryFilesystem.InMemoryFilesystem.AddChild` | filip/memory/filesystem.py:46 | adding to the directory at `p` succeeds exactly when `p + [n]` is not yet a path; then that path, and only it, is added and holds the new empty directory; otherwise FileExists and nothing changes |
| `MemoryFilesystem.InMemoryFilesystem.Exists` | filip/memory/filesystem.py:48-61 | the answer is `DirectoryTree.Exists` of the current set of paths |
| `MemoryFilesystem.InMemoryFilesystem.MissingStopsWalk` | filip/memory/filesystem.py:56-57 | when a segment is missing partway through the walk, the whole path is not in the tree, so returning false early is right |
| `DirectoryTree.Exists` | filip/memory/filesystem.py:48-61 | the value-level `exists`: the non-empty segments of the split path spell a path of the tree |
| `DirectoryTree.ExistsIffAllPrefixes` | filip/memory/filesystem.py:52-61 | in a tree, a path exists exactly when every prefix of its walked segments does |
| `DirectoryTree.ExistsOnFreshTree` | filip/memory/filesystem.py:33-34 | on a fresh filesystem a path exists exactly when all of its segments are empty |
| `DirectoryTree.RootExists` | filip/memory/filesystem.py:52-54 | a path made only of separators exists in every tree |
| `DirectoryTree.ExistsIgnoresLeadingSep` | filip/memory/filesystem.py:49-54 | `exists('/x')` equals `exists('x')` |
| `DirectoryTree.ExistsIgnoresRepeatedSep` | filip/memory/filesystem.py:49-54 | `exists('a//b')` equals `exists('a/b')` |
| `DirectoryTree.ExistsIgnoresTrailingSep` | filip/memory/filesystem.py:49-54 | `exists('a/')` equals `exists('a')` |
| `DirectoryTree.Parent` | filip/memory/filesystem.py:39-41 | the path the loop over `path[:-1]` walks to: the non-empty segments before the last |
| `DirectoryTree.LastSegment` | filip/memory/filesystem.py:46 | `path[-1]`, taken literally; it never holds the separator |
| `DirectoryTree.MakeDirs` | filip/memory/filesystem.py:36-46 | the value-level `makedirs`: fails with FileExists when the parent already has the last segment as a child, else adds every prefix of the target path |
| `DirectoryTree.MakeDirsKeepsTree` | filip/memory/filesystem.py:36-46 | a successful `makedirs` keeps the set of paths a tree |
| `DirectoryTree.MakeDirsThenExists` | filip/memory/filesystem.py:36-46 | after a successful `makedirs(path)`, `exists` holds for the path and every prefix of its walked segments; nothing old is lost; nothing but prefixes of the target appears |
| `DirectoryTree.MakeDirsFailure` | filip/memory/filesystem.py:46 | `makedirs` fails exactly when the target is already a path; then all its ancestors were there too |
| `DirectoryTree.MakeDirsTwiceFails` | filip/memory/filesystem.py:46 | repeating a successful `makedirs` fails with FileExists |
| `DirectoryTree.MakeDirsIgnoresLeadingSep` | filip/memory/filesystem.py:37-41 | `makedirs('/x')` behaves as `makedirs('x')` |
| `DirectoryTree.MakeDirsIgnoresRepeatedSep` | filip/memory/filesystem.py:37-41 | `makedirs('a//b')` behaves as `makedirs('a/b')` |
| `DirectoryTree.MakeDirsTrailingSepAddsEmptyName` | filip/memory/filesystem.py:37-46 | the target of `makedirs(x + '/')` is the walked path of `x` followed by an empty name, so a trailing separator is not ignored |
| `DirectoryTree.MakeDirsRootAddsEmptyName` | filip/memory/filesystem.py:37-46 | on a fresh tree `makedirs('/')` succeeds and adds a child named `''` to the root; a second call fails |

## Left out

- The separator is fixed to '/'. The source uses `os.path.sep`, which is platform-dependent.
- `_Entry` (filip/memory/filesystem.py:7-8) is an empty base class. Every entry the code creates is a `_Directory`, so the model has only `Directory`.
- Exceptions are modelled as results: `FileExistsError` is `Fail(FileExists)`.
- A `KeyError` from `get` or `[]` on a missing name is excluded by `Get`'s precondition. Both callers check `has` or add the name first.
- `get` and `__getitem__` do the same thing and are both modelled by `Directory.Get`.
- `Directory.Add` takes a `Directory` rather than any `_Entry`, since every entry the code creates is a `_Directory`.
- `MemoryFilesystem.InMemoryFilesystem.MakeDirs`: it states that the target directory is a new object, but not that each directory created along the walk is. `Descend` states that for each step, and the loop invariant of `WalkToParent` does not carry it.
- `MemoryFilesystem.InMemoryFilesystem.MakeDirs`: the claim that a failure changes nothing is stated on the ghost tree state (`Node`, `Kids`, `Repr`), not as `unchanged` on every object. The `Valid` invariant ties that ghost state to the `entries` of each directory.
- The methods exercised by `filip/memory/tests/test_filesystem.py:50-133` (removal, reading and writing files, a current directory) do not exist in `filip/memory/filesystem.py`. They are not part of this model.
