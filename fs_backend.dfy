/** The storage backends the file browser works on (`fs::Fs` and its
    subclasses), as an abstract tree: a map from a path, the sequence of its
    components, to a file or a directory. A directory keeps its children's
    names in the order the backend lists them. Every backend call may fail;
    paths in `faulty` fail with an I/O error, which stands for whatever the
    real backend can report. */
module FsBackend {
  type Path = seq<string>

  /** A mounted backend: the SD card, a USB drive, a save image, ... */
  type Vol = nat

  datatype Node = File(size: nat, stamp: int) | Dir(names: seq<string>)

  /** `FsDirEntryType_File` / `FsDirEntryType_Dir`. */
  datatype Kind = FileKind | DirKind

  /** `FsDirectoryEntry`: a name and a type. */
  datatype Entry = Entry(name: string, kind: Kind)

  datatype Error = NotFound | NotEmpty | Exists | IoError | Cancelled

  /** A backend: its tree, the paths on which every call fails, and whether it
      is the console's native file system (`IsNative`). */
  datatype Fs = Fs(tree: map<Path, Node>, faulty: set<Path>, native: bool)

  /** The `Result` of a backend call that returns nothing. */
  datatype Status = Success | Failure(error: Error)

  function Parent(p: Path): Path
    requires p != []
  {
    p[..|p| - 1]
  }

  function Last(p: Path): string
    requires p != []
  {
    p[|p| - 1]
  }

  function KindOf(n: Node): Kind {
    if n.File? then FileKind else DirKind
  }

  predicate IsDirAt(t: map<Path, Node>, p: Path) {
    p in t && t[p].Dir?
  }

  predicate IsFileAt(t: map<Path, Node>, p: Path) {
    p in t && t[p].File?
  }

  predicate Distinct(s: seq<string>) {
    forall i, j :: 0 <= i < j < |s| ==> s[i] != s[j]
  }

  predicate DistinctNames(es: seq<Entry>) {
    forall i, j :: 0 <= i < j < |es| ==> es[i].name != es[j].name
  }

  /** No directory lists a name twice. */
  predicate UniqueNames(f: Fs) {
    forall p :: p in f.tree && f.tree[p].Dir? ==> Distinct(f.tree[p].names)
  }

  /** The tree a real backend presents: every path but the root hangs from
      a directory that lists it, and every name a directory lists is there. */
  ghost predicate WellFormed(f: Fs) {
    && (forall p, n :: Child(p, n) in f.tree ==> IsDirAt(f.tree, p) && n in f.tree[p].names)
    && (forall p, n :: IsDirAt(f.tree, p) && n in f.tree[p].names ==> Child(p, n) in f.tree)
  }

  /** The path of the entry `n` of the directory `p`. */
  function Child(p: Path, n: string): Path { p + [n] }

  // ---------------------------------------------------------------------
  // Listing

  /** The entries of kind `kind` among the children `names` of `p`, in
      listing order. */
  function Children(t: map<Path, Node>, p: Path, names: seq<string>, kind: Kind): (es: seq<Entry>)
    ensures forall i :: 0 <= i < |es| ==> es[i].kind == kind && es[i].name in names
    ensures forall i :: 0 <= i < |es| ==> p + [es[i].name] in t && KindOf(t[p + [es[i].name]]) == kind
    ensures Distinct(names) ==> DistinctNames(es)
  {
    if names == [] then []
    else
      var rest := Children(t, p, names[1..], kind);
      assert forall i :: 0 <= i < |rest| ==> rest[i].name in names[1..];
      if p + [names[0]] in t && KindOf(t[p + [names[0]]]) == kind then
        assert Distinct(names) ==> forall i :: 0 <= i < |rest| ==> rest[i].name != names[0];
        [Entry(names[0], kind)] + rest
      else rest
  }

  /** `OpenDirectory` with `FsDirOpenMode_ReadFiles` or `_ReadDirs`, then
      `ReadAll`: the directory's entries of one kind. */
  function List(f: Fs, p: Path, kind: Kind): (r: Result<seq<Entry>>)
    ensures r.Ok? <==> p !in f.faulty && IsDirAt(f.tree, p)
    ensures r.Ok? ==> forall i :: 0 <= i < |r.value| ==> r.value[i].kind == kind
    ensures r.Ok? && UniqueNames(f) ==> DistinctNames(r.value)
  {
    if p in f.faulty then Err(IoError)
    else if !IsDirAt(f.tree, p) then Err(NotFound)
    else Ok(Children(f.tree, p, f.tree[p].names, kind))
  }

  datatype Result<T> = Ok(value: T) | Err(error: Error)

  /** A listed name of the right kind is among the entries of that kind. */
  lemma {:induction false} ChildListed(t: map<Path, Node>, p: Path, names: seq<string>, n: string, kind: Kind)
    requires n in names && p + [n] in t && KindOf(t[p + [n]]) == kind
    ensures Entry(n, kind) in Children(t, p, names, kind)
  {
    if names[0] != n {
      assert n in names[1..];
      ChildListed(t, p, names[1..], n, kind);
    }
  }

  /** `IsDirEmpty`. */
  function IsDirEmpty(f: Fs, p: Path): (r: Result<bool>)
    ensures r.Ok? <==> p !in f.faulty && IsDirAt(f.tree, p)
    ensures r.Ok? ==> (r.value <==> f.tree[p].names == [])
  {
    if p in f.faulty then Err(IoError)
    else if !IsDirAt(f.tree, p) then Err(NotFound)
    else Ok(f.tree[p].names == [])
  }

  // ---------------------------------------------------------------------
  // Changes

  /** `names` without `n`. */
  function Remove(names: seq<string>, n: string): (r: seq<string>)
    ensures n !in r
    ensures forall x :: x in r <==> x in names && x != n
  {
    if names == [] then []
    else if names[0] == n then Remove(names[1..], n)
    else [names[0]] + Remove(names[1..], n)
  }

  /** The tree without `p`, and without `p`'s name in its parent's listing. */
  function Unlink(t: map<Path, Node>, p: Path): (u: map<Path, Node>)
    requires p != []
    ensures p !in u
    ensures forall q :: q in u ==> q in t
    ensures forall q :: q != p && q != Parent(p) ==> (q in u <==> q in t) && (q in u ==> u[q] == t[q])
  {
    var rest := t - {p};
    if IsDirAt(rest, Parent(p)) then rest[Parent(p) := Dir(Remove(rest[Parent(p)].names, Last(p)))]
    else rest
  }

  /** The tree with `node` at `p`, named in its parent's listing. */
  function Link(t: map<Path, Node>, p: Path, node: Node): (u: map<Path, Node>)
    requires p != [] && IsDirAt(t, Parent(p))
    ensures p in u && u[p] == node
    ensures IsDirAt(u, Parent(p)) && forall n :: n in u[Parent(p)].names <==> n in t[Parent(p)].names || n == Last(p)
    ensures forall q :: q != p && q != Parent(p) ==> (q in u <==> q in t) && (q in u ==> u[q] == t[q])
  {
    var names := t[Parent(p)].names;
    var t1 := if Last(p) in names then t else t[Parent(p) := Dir(names + [Last(p)])];
    t1[p := node]
  }

  /** `DeleteFile`. */
  function DeleteFile(f: Fs, p: Path): (r: Result<Fs>)
    ensures r.Ok? <==> p != [] && p !in f.faulty && IsFileAt(f.tree, p)
    ensures r.Ok? ==> p !in r.value.tree && r.value.faulty == f.faulty && r.value.native == f.native
  {
    if p in f.faulty then Err(IoError)
    else if p == [] || !IsFileAt(f.tree, p) then Err(NotFound)
    else Ok(f.(tree := Unlink(f.tree, p)))
  }

  /** `DeleteDirectory`: only an empty directory can be removed. */
  function DeleteDirectory(f: Fs, p: Path): (r: Result<Fs>)
    ensures r.Ok? <==> p != [] && p !in f.faulty && IsDirAt(f.tree, p) && f.tree[p].names == []
    ensures p != [] && p !in f.faulty && IsDirAt(f.tree, p) && f.tree[p].names != [] ==> r == Err(NotEmpty)
    ensures r.Ok? ==> p !in r.value.tree && r.value.faulty == f.faulty && r.value.native == f.native
  {
    if p in f.faulty then Err(IoError)
    else if p == [] || !IsDirAt(f.tree, p) then Err(NotFound)
    else if f.tree[p].names != [] then Err(NotEmpty)
    else Ok(f.(tree := Unlink(f.tree, p)))
  }

  /** `CreateDirectory`: fails when something is already there or the parent
      is not a directory. */
  function CreateDirectory(f: Fs, p: Path): (r: Result<Fs>)
    ensures r.Ok? <==> p != [] && p !in f.faulty && p !in f.tree && IsDirAt(f.tree, Parent(p))
    ensures r.Ok? ==> IsDirAt(r.value.tree, p) && r.value.tree[p].names == [] && r.value.faulty == f.faulty
  {
    if p in f.faulty then Err(IoError)
    else if p == [] || p in f.tree then Err(Exists)
    else if !IsDirAt(f.tree, Parent(p)) then Err(NotFound)
    else Ok(f.(tree := Link(f.tree, p, Dir([]))))
  }

  /** The path `k`, at or below `from`, moved below `to`. */
  function Rebase(k: Path, from: Path, to: Path): Path
    requires from <= k
  {
    to + k[|from|..]
  }

  /** Every path at or below `from` moved below `to`; the rest stays. A path
      outside `from` that the move lands on keeps its own node. */
  function Move(t: map<Path, Node>, from: Path, to: Path): (u: map<Path, Node>)
    ensures forall q :: q in t && !(from <= q) ==> q in u && u[q] == t[q]
    ensures forall k :: k in t && from <= k ==> Rebase(k, from, to) in u
    ensures forall k :: k in t && from <= k && (Rebase(k, from, to) !in t || from <= Rebase(k, from, to)) ==>
      u[Rebase(k, from, to)] == t[k]
    ensures forall q :: q in u ==> (q in t && !(from <= q)) || to <= q
  {
    MovedFacts(t, from, to);
    Moved(t, from, to) + map q | q in t && !(from <= q) :: t[q]
  }

  /** The paths at or below `from`, moved below `to`. */
  function Moved(t: map<Path, Node>, from: Path, to: Path): map<Path, Node> {
    SuffixInjective(from, to);
    map k | k in t && from <= k :: Rebase(k, from, to) := t[k]
  }

  lemma MovedFacts(t: map<Path, Node>, from: Path, to: Path)
    ensures forall k :: k in t && from <= k ==> Rebase(k, from, to) in Moved(t, from, to) && Moved(t, from, to)[Rebase(k, from, to)] == t[k]
    ensures forall q :: q in Moved(t, from, to) ==> to <= q
  {
    SuffixInjective(from, to);
  }

  /** Paths below `from` keep their distinctness when moved below `to`. */
  lemma SuffixInjective(from: Path, to: Path)
    ensures forall a: Path, b: Path ::
      from <= a && from <= b && Rebase(a, from, to) == Rebase(b, from, to) ==> a == b
  {
    forall a: Path, b: Path | from <= a && from <= b && Rebase(a, from, to) == Rebase(b, from, to)
      ensures a == b
    {
      assert a[|from|..] == Rebase(a, from, to)[|to|..];
      assert b[|from|..] == Rebase(b, from, to)[|to|..];
      assert a == from + a[|from|..];
      assert b == from + b[|from|..];
    }
  }

  /** The conditions under which `Rename` succeeds. */
  predicate CanRename(f: Fs, from: Path, to: Path, kind: Kind) {
    && from !in f.faulty && to !in f.faulty
    && from != [] && from in f.tree && KindOf(f.tree[from]) == kind
    && to != [] && to !in f.tree && IsDirAt(f.tree, Parent(to)) && !(from <= to)
  }

  /** `RenameFile` / `RenameDirectory`: the entry and everything below it
      move to `to`, which must not exist yet and whose parent must be a
      directory; a directory cannot move into itself. */
  function Rename(f: Fs, from: Path, to: Path, kind: Kind): (r: Result<Fs>)
    ensures r.Ok? <==> CanRename(f, from, to, kind)
    ensures r.Ok? ==> r.value.faulty == f.faulty && r.value.native == f.native
    ensures r.Ok? ==> to in r.value.tree && r.value.tree[to] == f.tree[from]
  {
    if from in f.faulty || to in f.faulty then Err(IoError)
    else if from == [] || from !in f.tree || KindOf(f.tree[from]) != kind then Err(NotFound)
    else if to == [] || to in f.tree then Err(Exists)
    else if !IsDirAt(f.tree, Parent(to)) || from <= to then Err(NotFound)
    else
      PrefixOfParent(from, to);
      Ok(f.(tree := Link(Detach(Move(f.tree, from, to), from), to, f.tree[from])))
  }

  /** The moved tree with `from`'s name taken out of its parent's listing. */
  function Detach(m: map<Path, Node>, from: Path): (u: map<Path, Node>)
    requires from != []
    ensures forall q :: q != Parent(from) ==> (q in u <==> q in m) && (q in u ==> u[q] == m[q])
    ensures Parent(from) in u <==> Parent(from) in m
    ensures IsDirAt(m, Parent(from)) ==> u[Parent(from)] == Dir(Remove(m[Parent(from)].names, Last(from)))
    ensures !IsDirAt(m, Parent(from)) ==> u == m
  {
    if IsDirAt(m, Parent(from)) then m[Parent(from) := Dir(Remove(m[Parent(from)].names, Last(from)))] else m
  }

  /** A prefix of a path's parent is a prefix of the path. */
  lemma PrefixOfParent(from: Path, to: Path)
    requires to != [] && !(from <= to)
    ensures !(from <= Parent(to))
  {
  }

  /** A path is the child of its parent named by its last component. */
  lemma ChildOfParent(p: Path)
    requires p != []
    ensures Child(Parent(p), Last(p)) == p
  {
  }

  /** Two prefixes of one path are prefixes of each other. */
  lemma PrefixesComparable(a: Path, b: Path, q: Path)
    requires a <= q && b <= q
    ensures a <= b || b <= a
  {
    if |a| <= |b| {
      assert a == b[..|a|];
    } else {
      assert b == a[..|b|];
    }
  }

  /** In a consistent tree every prefix of a present path is present. */
  lemma {:induction false} PrefixPresent(f: Fs, p: Path, q: Path)
    requires WellFormed(f) && q in f.tree && p <= q
    ensures p in f.tree
    decreases |q|
  {
    if p != q {
      assert Child(Parent(q), Last(q)) == q;
      assert p == Parent(q)[..|p|];
      PrefixPresent(f, p, Parent(q));
    }
  }

  /** A rename leaves every path outside the two subtrees and the two
      parent listings as it was. */
  lemma RenameFrame(f: Fs, from: Path, to: Path, kind: Kind)
    requires CanRename(f, from, to, kind)
    ensures var g := Rename(f, from, to, kind).value.tree;
      forall q :: q != Parent(from) && q != Parent(to) && !(from <= q) && !(to <= q) ==>
        (q in g <==> q in f.tree) && (q in g ==> g[q] == f.tree[q])
  {
  }

  /** A rename takes `from`'s name out of its parent's listing and puts
      `to`'s name into its parent's listing; no other name moves. */
  lemma RenameParents(f: Fs, from: Path, to: Path, kind: Kind)
    requires CanRename(f, from, to, kind)
    ensures var g := Rename(f, from, to, kind).value.tree;
      && IsDirAt(g, Parent(to))
      && (forall n :: n in g[Parent(to)].names <==>
            n == Last(to) || (n in f.tree[Parent(to)].names && !(Parent(to) == Parent(from) && n == Last(from))))
      && (IsDirAt(f.tree, Parent(from)) && Parent(from) != Parent(to) ==>
            IsDirAt(g, Parent(from))
            && forall n :: n in g[Parent(from)].names <==> n in f.tree[Parent(from)].names && n != Last(from))
  {
    PrefixOfParent(from, to);
  }

  /** In a consistent tree, a rename moves the whole subtree of `from` below
      `to`, node for node. */
  lemma RenameMovesSubtree(f: Fs, from: Path, to: Path, kind: Kind)
    requires WellFormed(f) && CanRename(f, from, to, kind)
    ensures var g := Rename(f, from, to, kind).value.tree;
      forall k :: k in f.tree && from <= k ==> Rebase(k, from, to) in g && g[Rebase(k, from, to)] == f.tree[k]
  {
    forall k | k in f.tree && from <= k
      ensures var g := Rename(f, from, to, kind).value.tree;
        Rebase(k, from, to) in g && g[Rebase(k, from, to)] == f.tree[k]
    {
      RenameMovesOne(f, from, to, kind, k);
    }
  }

  /** One path of the subtree, moved. */
  lemma RenameMovesOne(f: Fs, from: Path, to: Path, kind: Kind, k: Path)
    requires WellFormed(f) && CanRename(f, from, to, kind) && k in f.tree && from <= k
    ensures var g := Rename(f, from, to, kind).value.tree;
      Rebase(k, from, to) in g && g[Rebase(k, from, to)] == f.tree[k]
  {
    var m := Move(f.tree, from, to);
    var d := Detach(m, from);
    var q := Rebase(k, from, to);
    PrefixOfParent(from, to);
    assert Rename(f, from, to, kind).value.tree == Link(d, to, f.tree[from]);
    if q in f.tree {
      PrefixPresent(f, to, q);
    }
    assert m[q] == f.tree[k];
    ChildOfParent(from);
    assert q != Parent(from);
    assert d[q] == f.tree[k];
    if k == from {
      assert q == to;
    } else {
      assert q != to && |q| > |Parent(to)|;
    }
  }

  /** In a consistent tree, nothing is left at or below `from` after a
      rename. */
  lemma RenameClearsSource(f: Fs, from: Path, to: Path, kind: Kind)
    requires WellFormed(f) && CanRename(f, from, to, kind)
    ensures var g := Rename(f, from, to, kind).value.tree;
      forall q :: from <= q ==> q !in g
  {
    var m := Move(f.tree, from, to);
    var d := Detach(m, from);
    PrefixOfParent(from, to);
    assert Rename(f, from, to, kind).value.tree == Link(d, to, f.tree[from]);
    forall q | from <= q
      ensures q !in Link(d, to, f.tree[from])
    {
      if q in m {
        PrefixesComparable(to, from, q);
        if to <= from {
          PrefixPresent(f, to, from);
        }
      }
    }
  }

  /** `CopyFile` (a single atomic step here): `to` on the destination holds a
      file of the source's size and an unset (zero) time stamp. */
  function CopyFile(src: Fs, dst: Fs, from: Path, to: Path): (r: Result<Fs>)
    ensures r.Ok? <==> from !in src.faulty && to !in dst.faulty && IsFileAt(src.tree, from)
                       && to != [] && !IsDirAt(dst.tree, to) && IsDirAt(dst.tree, Parent(to))
    ensures r.Ok? ==> IsFileAt(r.value.tree, to) && r.value.tree[to].size == src.tree[from].size
    ensures r.Ok? ==> r.value.faulty == dst.faulty && r.value.native == dst.native
  {
    if from in src.faulty || to in dst.faulty then Err(IoError)
    else if !IsFileAt(src.tree, from) then Err(NotFound)
    else if to == [] || IsDirAt(dst.tree, to) then Err(Exists)
    else if !IsDirAt(dst.tree, Parent(to)) then Err(NotFound)
    else Ok(dst.(tree := Link(dst.tree, to, File(src.tree[from].size, 0))))
  }

  /** `GetFileTimeStampRaw`. */
  function GetStamp(f: Fs, p: Path): (r: Result<int>)
    ensures r.Ok? <==> p !in f.faulty && IsFileAt(f.tree, p)
    ensures r.Ok? ==> r.value == f.tree[p].stamp
  {
    if p in f.faulty then Err(IoError)
    else if !IsFileAt(f.tree, p) then Err(NotFound)
    else Ok(f.tree[p].stamp)
  }

  /** `SetTimestamp`. */
  function SetStamp(f: Fs, p: Path, stamp: int): (r: Result<Fs>)
    ensures r.Ok? <==> p !in f.faulty && IsFileAt(f.tree, p)
    ensures r.Ok? ==> r.value.tree == f.tree[p := File(f.tree[p].size, stamp)]
  {
    if p in f.faulty then Err(IoError)
    else if !IsFileAt(f.tree, p) then Err(NotFound)
    else Ok(f.(tree := f.tree[p := File(f.tree[p].size, stamp)]))
  }
}
