/** The filesystem as the core sees it: an immutable map from absolute paths
    (sequences of names) to nodes, and the foreign calls it makes (`std::fs`,
    `fs_extra::dir::copy`, `junction::create`) as pure functions that either
    fail or return the new map. A call that fails leaves the map as it was.
    Links are leaves of the tree: they are followed only where the final
    component of a path is resolved, never as an intermediate component. */
module FileSystem {
  import opened Results

  type Name = string
  type Path = seq<Name>

  datatype Node = Dir | File | Link(target: Path)

  type Tree = map<Path, Node>

  datatype IoError =
    | NotFound
    | AlreadyExists
    | NotADirectory
    | DirectoryNotEmpty
    | InvalidInput
      /** A failure the map does not explain: permissions, a full disk, a
          device error. */
    | External

  /** The foreign calls the core makes, named so that a run can say which of
      them fail for reasons outside the map. */
  datatype Primitive =
    | CreateDirAllCall
    | CopyDirCall
    | CreateJunctionCall
    | RemoveDirCall
    | RenameCall
    | RemoveDirAllCall

  /** The calls that fail with `External` in a given run. */
  type Faults = set<Primitive>

  /** The Windows limit on reparse points followed while opening one path. */
  const MaxLinkHops: nat := 63

  function Parent(p: Path): Path
    requires |p| > 0
  {
    p[..|p| - 1]
  }

  /** The last name of a non-empty path. */
  function Last(p: Path): Name
    requires |p| > 0
  {
    p[|p| - 1]
  }

  /** `p` is a directory itself, not a link to one. */
  predicate IsRealDir(fs: Tree, p: Path) {
    p in fs && fs[p] == Dir
  }

  /** A tree: the root is a directory and every other entry sits inside a
      real directory (so files and links have no children). */
  predicate WellFormed(fs: Tree) {
    && IsRealDir(fs, [])
    && forall p | p in fs && p != [] :: IsRealDir(fs, Parent(p))
  }

  /** `p` and everything below it. */
  predicate Under(root: Path, p: Path) {
    root <= p
  }

  /** The entry at `p` is the same in both trees (present in both with the
      same node, or absent from both). */
  predicate SameAt(fs: Tree, fs': Tree, p: Path) {
    && (p in fs <==> p in fs')
    && (p in fs ==> fs[p] == fs'[p])
  }

  /** Follows links at the final component, at most `hops` times; the path
      of the directory or file reached. */
  function ResolveWithin(fs: Tree, p: Path, hops: nat): (r: Option<Path>)
    ensures r.Some? ==> r.value in fs && !fs[r.value].Link?
    ensures p in fs && !fs[p].Link? ==> r == Some(p)
    ensures p !in fs ==> r.None?
    decreases hops
  {
    if p !in fs then None
    else match fs[p]
      case Link(t) => if hops == 0 then None else ResolveWithin(fs, t, hops - 1)
      case _ => Some(p)
  }

  function Resolve(fs: Tree, p: Path): Option<Path> {
    ResolveWithin(fs, p, MaxLinkHops)
  }

  /** `Path::exists`: the path resolves to a directory or a file. A dangling
      link does not exist in this sense. */
  predicate Exists(fs: Tree, p: Path) {
    Resolve(fs, p).Some?
  }

  /** `Path::is_dir`: the path resolves to a directory. */
  predicate IsDir(fs: Tree, p: Path) {
    Resolve(fs, p).Some? && fs[Resolve(fs, p).value] == Dir
  }

  /** A directory that holds entries. */
  predicate HasChildren(fs: Tree, p: Path) {
    exists q :: q in fs && p < q
  }

  /** The tree with `p` and everything below it taken out. */
  function Without(fs: Tree, p: Path): Tree {
    map q | q in fs && !Under(p, q) :: fs[q]
  }

  /** The path that `q`, below `from`, takes when `from` is moved to `to`. */
  function Rebase(q: Path, from: Path, to: Path): Path
    requires Under(from, q)
  {
    to + q[|from|..]
  }

  lemma RebaseFacts(q: Path, from: Path, to: Path)
    requires Under(from, q)
    ensures Under(to, Rebase(q, from, to))
    ensures Rebase(Rebase(q, from, to), to, from) == q
    ensures |Rebase(q, from, to)| == |q| - |from| + |to|
  {
    assert Rebase(q, from, to)[|to|..] == q[|from|..];
  }

  lemma RebaseParent(q: Path, from: Path, to: Path)
    requires Under(from, q) && |q| > |from|
    ensures Under(from, Parent(q))
    ensures Parent(Rebase(q, from, to)) == Rebase(Parent(q), from, to)
  {
    assert Parent(q)[|from|..] == Parent(q[|from|..]);
  }

  /** The entries of `from` and below, moved to the same places under `to`. */
  function Rebased(fs: Tree, from: Path, to: Path): (r: Tree)
    ensures forall q {:trigger Rebase(q, from, to)} | q in fs && Under(from, q) ::
      Rebase(q, from, to) in r && r[Rebase(q, from, to)] == fs[q]
    ensures forall q {:trigger q in r} | q in r ::
      Under(to, q) && Rebase(q, to, from) in fs && r[q] == fs[Rebase(q, to, from)]
  {
    forall q1, q2 | q1 in fs && Under(from, q1) && q2 in fs && Under(from, q2) && Rebase(q1, from, to) == Rebase(q2, from, to)
      ensures q1 == q2
    {
      RebaseFacts(q1, from, to);
      RebaseFacts(q2, from, to);
    }
    var r := map q | q in fs && Under(from, q) :: Rebase(q, from, to) := fs[q];
    forall q | q in r
      ensures Under(to, q) && Rebase(q, to, from) in fs && r[q] == fs[Rebase(q, to, from)]
    {
      var q0 :| q0 in fs && Under(from, q0) && q == Rebase(q0, from, to);
      RebaseFacts(q0, from, to);
    }
    r
  }

  /** Inside a moved subtree every entry but its root still sits in a real
      directory. */
  lemma RebasedParent(fs: Tree, from: Path, to: Path, q: Path)
    requires WellFormed(fs)
    requires q in Rebased(fs, from, to) && |q| > |to|
    ensures IsRealDir(Rebased(fs, from, to), Parent(q))
  {
    var q0 := Rebase(q, to, from);
    RebaseFacts(q, to, from);
    RebaseParent(q0, from, to);
    RebaseFacts(q0, from, to);
    assert Parent(q) == Rebase(Parent(q0), from, to);
  }

  /** A call named in `faults` fails with `External` and has no effect. */
  function Attempt(call: Primitive, faults: Faults, r: Result<Tree, IoError>): Result<Tree, IoError> {
    if call in faults then Err(External) else r
  }

  /** Every entry of `fs` is in `fs'` unchanged; `fs'` may hold more. */
  predicate Extends(fs: Tree, fs': Tree) {
    forall q | q in fs :: q in fs' && fs'[q] == fs[q]
  }

  /** `fs::create_dir_all`: creates `p` and its missing ancestors; succeeds
      without change when `p` already is (or links to) a directory. */
  function CreateDirAll(fs: Tree, p: Path): (r: Result<Tree, IoError>)
    ensures r.Ok? && WellFormed(fs) ==> WellFormed(r.value)
    ensures r.Ok? && WellFormed(fs) ==> IsDir(r.value, p)
    ensures r.Ok? && p != [] && p !in fs ==> IsRealDir(r.value, p)
    ensures r.Ok? ==> Extends(fs, r.value)
    ensures r.Ok? ==> forall q | q in r.value && q !in fs :: q <= p && r.value[q] == Dir
    decreases |p|
  {
    if p == [] then Ok(fs)
    else if IsDir(fs, p) then Ok(fs)
    else if p in fs then Err(AlreadyExists)
    else match CreateDirAll(fs, Parent(p))
      case Err(e) => Err(e)
      case Ok(fs1) =>
        if IsRealDir(fs1, Parent(p)) then Ok(fs1[p := Dir]) else Err(NotADirectory)
  }

  /** `fs_extra::dir::copy` with `content_only`: the entries below `from` are
      copied to the same places below `to`, not `from` itself. Both are
      resolved first; an entry that would land on an existing one fails the
      whole copy. */
  function CopyDirContents(fs: Tree, from: Path, to: Path): Result<Tree, IoError> {
    match Resolve(fs, from)
    case None => Err(NotFound)
    case Some(src) =>
      if fs[src] != Dir then Err(InvalidInput)
      else match Resolve(fs, to)
        case None => Err(NotFound)
        case Some(dst) =>
          if fs[dst] != Dir then Err(NotADirectory)
          else if exists q :: q in fs && src < q && dst + q[|src|..] in fs then Err(AlreadyExists)
          else Ok(fs + Rebased(fs, src, dst))
  }

  /** `junction::create(target, link)`: a new link entry; it fails when
      anything, even a dangling link, is already at `link`. The target is
      not checked. */
  function JunctionCreate(fs: Tree, target: Path, link: Path): Result<Tree, IoError> {
    if link == [] || link in fs then Err(AlreadyExists)
    else if !IsRealDir(fs, Parent(link)) then Err(NotFound)
    else Ok(fs[link := Link(target)])
  }

  /** `fs::remove_dir` on Windows: removes a link entry (not its target) or
      an empty directory. */
  function RemoveDir(fs: Tree, p: Path): Result<Tree, IoError> {
    if p !in fs then Err(NotFound)
    else match fs[p]
      case File => Err(NotADirectory)
      case Link(_) => Ok(fs - {p})
      case Dir => if HasChildren(fs, p) then Err(DirectoryNotEmpty) else Ok(fs - {p})
  }

  /** `fs::rename`: the entry at `src` and everything below it move to
      `dst`; the destination must not exist yet and must not lie inside the
      source. */
  function Rename(fs: Tree, src: Path, dst: Path): Result<Tree, IoError> {
    if src !in fs then Err(NotFound)
    else if src == dst then Ok(fs)
    else if dst in fs then Err(AlreadyExists)
    else if Under(src, dst) then Err(InvalidInput)
    else if dst == [] || !IsRealDir(fs, Parent(dst)) then Err(NotFound)
    else Ok(Without(fs, src) + Rebased(fs, src, dst))
  }

  /** `fs::remove_dir_all`: removes a directory with everything below it, or
      a link entry alone. */
  function RemoveDirAll(fs: Tree, p: Path): Result<Tree, IoError> {
    if p !in fs then Err(NotFound)
    else if fs[p] == File then Err(NotADirectory)
    else Ok(Without(fs, p))
  }

  /** In a tree every proper ancestor of an entry is a real directory. */
  lemma {:induction false} AncestorIsDir(fs: Tree, a: Path, q: Path)
    requires WellFormed(fs) && q in fs && a < q
    ensures IsRealDir(fs, a)
    decreases |q|
  {
    var p := Parent(q);
    assert a <= p;
    if a != p {
      AncestorIsDir(fs, a, p);
    }
  }

  lemma JunctionCreatePreservesTree(fs: Tree, target: Path, link: Path)
    requires WellFormed(fs) && JunctionCreate(fs, target, link).Ok?
    ensures WellFormed(JunctionCreate(fs, target, link).value)
  {
  }

  lemma RemoveDirPreservesTree(fs: Tree, p: Path)
    requires WellFormed(fs) && p != [] && RemoveDir(fs, p).Ok?
    ensures WellFormed(RemoveDir(fs, p).value)
  {
    var r := RemoveDir(fs, p).value;
    forall q | q in r && q != []
      ensures IsRealDir(r, Parent(q))
    {
      assert p < q ==> HasChildren(fs, p);
    }
  }

  lemma WithoutPreservesTree(fs: Tree, p: Path)
    requires WellFormed(fs) && p != []
    ensures WellFormed(Without(fs, p))
  {
    var r := Without(fs, p);
    forall q | q in r && q != []
      ensures IsRealDir(r, Parent(q))
    {
      assert Under(p, Parent(q)) ==> Under(p, q);
    }
  }

  lemma RemoveDirAllPreservesTree(fs: Tree, p: Path)
    requires WellFormed(fs) && p != [] && RemoveDirAll(fs, p).Ok?
    ensures WellFormed(RemoveDirAll(fs, p).value)
  {
    WithoutPreservesTree(fs, p);
  }

  lemma CopyDirContentsPreservesTree(fs: Tree, from: Path, to: Path)
    requires WellFormed(fs) && CopyDirContents(fs, from, to).Ok?
    ensures WellFormed(CopyDirContents(fs, from, to).value)
  {
    var src := Resolve(fs, from).value;
    var dst := Resolve(fs, to).value;
    var copied := Rebased(fs, src, dst);
    var r := fs + copied;
    assert r == CopyDirContents(fs, from, to).value;
    forall q | q in r && q != []
      ensures IsRealDir(r, Parent(q))
    {
      if q in copied {
        if |q| > |dst| {
          RebasedParent(fs, src, dst, q);
        } else {
          assert q == dst;
          assert Parent(q) !in copied;
        }
      } else if Parent(q) in copied {
        var q0 := Rebase(Parent(q), dst, src);
        RebaseFacts(Parent(q), dst, src);
        if |Parent(q)| > |dst| {
          RebaseFacts(q0, src, dst);
          assert false;
        }
      }
    }
  }

  /** After a rename, the entry that takes the destination's place sits
      in the destination's parent, which nothing moved. */
  lemma RenameRootParent(fs: Tree, src: Path, dst: Path)
    requires WellFormed(fs) && src != dst && Rename(fs, src, dst).Ok?
    ensures IsRealDir(Without(fs, src) + Rebased(fs, src, dst), Parent(dst))
  {
    var moved := Rebased(fs, src, dst);
    assert Parent(dst) !in moved;
    assert !Under(src, Parent(dst));
  }

  /** An entry that stayed in place still has its parent in place. */
  lemma RenameKeptParent(fs: Tree, src: Path, dst: Path, q: Path)
    requires WellFormed(fs) && src != dst && Rename(fs, src, dst).Ok?
    requires q in Without(fs, src) && q !in Rebased(fs, src, dst) && q != []
    ensures IsRealDir(Without(fs, src) + Rebased(fs, src, dst), Parent(q))
  {
    var moved := Rebased(fs, src, dst);
    assert !Under(src, Parent(q));
    if Parent(q) in moved {
      assert Under(dst, Parent(q));
      AncestorIsDir(fs, dst, q);
      assert false;
    }
  }

  /** Two prefixes of one path are prefixes of each other. */
  lemma PrefixesAreOrdered(a: Path, b: Path, q: Path)
    requires a <= q && b <= q
    ensures a <= b || b <= a
  {
    if |a| <= |b| {
      assert b[..|a|] == q[..|a|];
    } else {
      assert a[..|b|] == q[..|b|];
    }
  }

  /** After the checks `rename` makes, no path lies under both ends of the
      move. */
  lemma RenameEndsDisjoint(fs: Tree, src: Path, dst: Path, q: Path)
    requires WellFormed(fs) && src != dst && Rename(fs, src, dst).Ok?
    ensures !(Under(src, q) && Under(dst, q))
  {
    if Under(src, q) && Under(dst, q) {
      PrefixesAreOrdered(src, dst, q);
      AncestorIsDir(fs, dst, src);
    }
  }

  /** A successful `rename` to a different path leaves nothing under the
      source and nothing changed outside both ends. */
  lemma RenameClearsSource(fs: Tree, src: Path, dst: Path)
    requires WellFormed(fs) && src != dst && Rename(fs, src, dst).Ok?
    ensures forall q | Under(src, q) :: q !in Rename(fs, src, dst).value
    ensures forall q | !Under(src, q) && !Under(dst, q) :: SameAt(fs, Rename(fs, src, dst).value, q)
  {
    var kept := Without(fs, src);
    var moved := Rebased(fs, src, dst);
    var r := Rename(fs, src, dst).value;
    assert r == kept + moved;
    forall q | Under(src, q)
      ensures q !in r
    {
      assert q !in kept;
      RenameEndsDisjoint(fs, src, dst, q);
    }
    forall q | !Under(src, q) && !Under(dst, q)
      ensures SameAt(fs, r, q)
    {
      assert q in fs ==> q in kept && kept[q] == fs[q];
      assert q !in moved;
    }
  }

  /** A successful `rename` to a different path puts every entry below the
      source at the same place below the destination, and everything below
      the destination came from the source. */
  lemma RenameMovesSubtree(fs: Tree, src: Path, dst: Path)
    requires WellFormed(fs) && src != dst && Rename(fs, src, dst).Ok?
    ensures forall q {:trigger Rebase(q, src, dst)} | q in fs && Under(src, q) ::
      Rebase(q, src, dst) in Rename(fs, src, dst).value
      && Rename(fs, src, dst).value[Rebase(q, src, dst)] == fs[q]
  {
    var kept := Without(fs, src);
    var moved := Rebased(fs, src, dst);
    var r := Rename(fs, src, dst).value;
    assert r == kept + moved;
    forall q | q in fs && Under(src, q)
      ensures Rebase(q, src, dst) in r && r[Rebase(q, src, dst)] == fs[q]
    {
      assert Rebase(q, src, dst) in moved && moved[Rebase(q, src, dst)] == fs[q];
    }
  }

  /** Everything below the destination after a successful `rename` to a
      different path came from the same place below the source. */
  lemma RenameDestinationFromSource(fs: Tree, src: Path, dst: Path, q: Path)
    requires WellFormed(fs) && src != dst && Rename(fs, src, dst).Ok?
    requires q in Rename(fs, src, dst).value && Under(dst, q)
    ensures Rebase(q, dst, src) in fs && Rename(fs, src, dst).value[q] == fs[Rebase(q, dst, src)]
  {
    var kept := Without(fs, src);
    var moved := Rebased(fs, src, dst);
    var r := Rename(fs, src, dst).value;
    assert r == kept + moved;
    if q in fs && q != dst {
      AncestorIsDir(fs, dst, q);
    }
    assert q !in kept;
    assert q in moved;
    assert r[q] == moved[q];
  }

  lemma RenamePreservesTree(fs: Tree, src: Path, dst: Path)
    requires WellFormed(fs) && Rename(fs, src, dst).Ok?
    ensures WellFormed(Rename(fs, src, dst).value)
  {
    if src != dst {
      var kept := Without(fs, src);
      var moved := Rebased(fs, src, dst);
      var r := kept + moved;
      assert r == Rename(fs, src, dst).value;
      assert [] !in moved;
      forall q | q in r && q != []
        ensures IsRealDir(r, Parent(q))
      {
        if q in moved {
          if |q| > |dst| {
            RebasedParent(fs, src, dst, q);
          } else {
            assert q == dst;
            RenameRootParent(fs, src, dst);
          }
        } else {
          RenameKeptParent(fs, src, dst, q);
        }
      }
    }
  }

  /** Adding entries does not change where an existing path resolves. */
  lemma {:induction false} ResolveExtends(fs: Tree, fs': Tree, p: Path, hops: nat)
    requires Extends(fs, fs') && ResolveWithin(fs, p, hops).Some?
    ensures ResolveWithin(fs', p, hops) == ResolveWithin(fs, p, hops)
    decreases hops
  {
    if fs[p].Link? {
      ResolveExtends(fs, fs', fs[p].target, hops - 1);
    }
  }

  /** A successful copy keeps every existing entry and adds, below the
      destination, a copy of each entry below the source, and nothing else. */
  lemma CopyDirContentsEffect(fs: Tree, from: Path, to: Path, src: Path, dst: Path)
    requires Resolve(fs, from) == Some(src) && Resolve(fs, to) == Some(dst)
    requires CopyDirContents(fs, from, to).Ok?
    ensures fs[src] == Dir && fs[dst] == Dir
    ensures Extends(fs, CopyDirContents(fs, from, to).value)
    ensures var r := CopyDirContents(fs, from, to).value;
      forall q | q in fs && src < q :: Rebase(q, src, dst) in r && r[Rebase(q, src, dst)] == fs[q]
    ensures var r := CopyDirContents(fs, from, to).value;
      forall q | q in r && q !in fs :: dst < q && Rebase(q, dst, src) in fs && r[q] == fs[Rebase(q, dst, src)]
  {
    var copied := Rebased(fs, src, dst);
    var r := fs + copied;
    assert r == CopyDirContents(fs, from, to).value;
    forall q | q in fs
      ensures q in r && r[q] == fs[q]
    {
      if q in copied {
        var q0 := Rebase(q, dst, src);
        RebaseFacts(q, dst, src);
        if q0 == src {
          assert q == dst;
        } else {
          assert false;
        }
      }
    }
    forall q | q in r && q !in fs
      ensures dst < q && Rebase(q, dst, src) in fs && r[q] == fs[Rebase(q, dst, src)]
    {
      assert q in copied;
      assert q != dst;
    }
  }
}
