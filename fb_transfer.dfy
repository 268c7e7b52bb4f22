/** The file browser's bulk operations: the directory snapshot
    (`get_collection(s)`), the reverse-order deletion
    (`DeleteAllCollections[WithSelected]`), and the delete and paste commands
    (`OnDeleteCallback`, `OnPasteCallback`).

    The progress box is modelled by its cancellation answers only: each
    `Yield` + `ShouldExitResult` consumes one boolean of `ticks` (`true`: the
    user cancelled); when they run out nobody cancels. Titles, transfer
    texts and the error box have no effect on the state. */
module FileTransfer {
  import opened FsBackend

  /** Every backend, and the cancellation answers still to come. */
  datatype Sys = Sys(vols: map<Vol, Fs>, ticks: seq<bool>)

  datatype Outcome = Outcome(sys: Sys, rc: Status)

  /** The backend a volume names; an unmounted one holds nothing. */
  function FsOf(s: Sys, v: Vol): Fs {
    if v in s.vols then s.vols[v] else Fs(map[], {}, false)
  }

  /** A backend call's result applied to the volume it ran on. */
  function Apply(s: Sys, v: Vol, r: Result<Fs>): (o: Outcome)
    ensures o.rc.Success? <==> r.Ok?
    ensures o.sys.ticks == s.ticks
  {
    match r
    case Ok(f) => Outcome(s.(vols := s.vols[v := f]), Success)
    case Err(e) => Outcome(s, Failure(e))
  }

  /** `pbox->Yield(); R_TRY(pbox->ShouldExitResult());` */
  function Tick(s: Sys): (o: Outcome)
    ensures o.sys.vols == s.vols
    ensures |o.sys.ticks| == if s.ticks == [] then 0 else |s.ticks| - 1
  {
    if s.ticks == [] then Outcome(s, Success)
    else Outcome(s.(ticks := s.ticks[1..]), if s.ticks[0] then Failure(Cancelled) else Success)
  }

  lemma TickFacts(s: Sys)
    ensures Tick(s).rc.Failure? <==> s.ticks != [] && s.ticks[0]
    ensures Tick(s).rc.Failure? ==> Tick(s).rc.error == Cancelled
  {
  }

  // ---------------------------------------------------------------------
  // Snapshot

  /** `FsDirCollection`: a directory, its path relative to the top of the
      selection (`parent_name`), and its files and sub-directories. */
  datatype Collection = Collection(path: Path, parentName: Path, files: seq<Entry>, dirs: seq<Entry>)

  /** `get_collection` on a backend: the files when `incFile`, then the
      directories when `incDir`. */
  function GetCollection(f: Fs, path: Path, parentName: Path, incFile: bool, incDir: bool): (r: Result<Collection>)
    ensures r.Ok? ==> r.value.path == path && r.value.parentName == parentName
    ensures r.Ok? && incFile ==> List(f, path, FileKind) == Ok(r.value.files)
    ensures r.Ok? && incDir ==> List(f, path, DirKind) == Ok(r.value.dirs)
    ensures (incFile || incDir) && r.Ok? ==> IsDirAt(f.tree, path)
    ensures (incFile || incDir) ==> (r.Ok? <==> List(f, path, FileKind).Ok?)
  {
    var files := if incFile then List(f, path, FileKind) else Ok([]);
    if files.Err? then Err(files.error)
    else
      var dirs := if incDir then List(f, path, DirKind) else Ok([]);
      if dirs.Err? then Err(dirs.error)
      else Ok(Collection(path, parentName, files.value, dirs.value))
  }

  /** The member overload `get_collection(path, parent_name, out, inc_file,
      inc_dir, inc_size)` passes `true, true` whatever it is given. */
  function ViewGetCollection(f: Fs, path: Path, parentName: Path, incFile: bool, incDir: bool): (r: Result<Collection>)
    ensures r == GetCollection(f, path, parentName, true, true)
    ensures r.Ok? ==> List(f, path, FileKind) == Ok(r.value.files) && List(f, path, DirKind) == Ok(r.value.dirs)
  {
    GetCollection(f, path, parentName, true, true)
  }

  /** What `get_collections` returns and what it appended to `out`. */
  datatype Snap = Snap(rc: Status, cs: seq<Collection>)

  ghost function Below(t: map<Path, Node>, p: Path): set<Path> {
    set q | q in t && p <= q
  }

  lemma BelowShrinks(t: map<Path, Node>, p: Path, d: string)
    requires p in t
    ensures |Below(t, p + [d])| < |Below(t, p)|
  {
    var small, big := Below(t, p + [d]), Below(t, p);
    assert small <= big;
    assert p in big - small;
    assert big == small + (big - small);
  }

  /** `get_collections`: the collection of `path`, then, for each of its
      directories in listing order, that directory's whole snapshot. The
      first error ends the walk; what was appended before it stays. */
  function Snapshot(f: Fs, path: Path, parentName: Path): Snap
    decreases |Below(f.tree, path)| + 1, 0
  {
    match GetCollection(f, path, parentName, true, true)
    case Err(e) => Snap(Failure(e), [])
    case Ok(c) =>
      var rest := SnapDirs(f, path, parentName, c.dirs);
      Snap(rest.rc, [c] + rest.cs)
  }

  /** The snapshots of the directories `ds` of `path`, one after another. */
  function SnapDirs(f: Fs, path: Path, parentName: Path, ds: seq<Entry>): Snap
    requires path in f.tree
    decreases |Below(f.tree, path)|, |ds|
  {
    if ds == [] then Snap(Success, [])
    else
      BelowShrinks(f.tree, path, ds[0].name);
      var h := Snapshot(f, path + [ds[0].name], parentName + [ds[0].name]);
      if h.rc.Failure? then h
      else
        var r := SnapDirs(f, path, parentName, ds[1..]);
        Snap(r.rc, h.cs + r.cs)
  }

  /** `get_collections`, appending to `out` while it recurses. */
  method GetCollections(f: Fs, path: Path, parentName: Path, out: seq<Collection>)
    returns (rc: Status, out': seq<Collection>)
    ensures rc == Snapshot(f, path, parentName).rc
    ensures out' == out + Snapshot(f, path, parentName).cs
    decreases |Below(f.tree, path)| + 1, 0
  {
    var got := GetCollection(f, path, parentName, true, true);
    if got.Err? {
      return Failure(got.error), out;
    }
    var c := got.value;
    SnapshotUnfold(f, path, parentName, c);
    rc, out' := GetDirCollections(f, path, parentName, c.dirs, out + [c]);
  }

  /** The loop of `get_collections` over the directories `ds` of `path`. */
  method GetDirCollections(f: Fs, path: Path, parentName: Path, ds: seq<Entry>, out: seq<Collection>)
    returns (rc: Status, out': seq<Collection>)
    requires path in f.tree
    ensures rc == SnapDirs(f, path, parentName, ds).rc
    ensures out' == out + SnapDirs(f, path, parentName, ds).cs
    decreases |Below(f.tree, path)|, 1
  {
    out' := out;
    ghost var whole := Glue([], SnapDirs(f, path, parentName, ds));
    assert ds[0..] == ds;
    ghost var done: seq<Collection> := [];
    var i := 0;
    while i < |ds|
      invariant 0 <= i <= |ds|
      invariant out' == out + done
      invariant whole == Glue(done, SnapDirs(f, path, parentName, ds[i..]))
    {
      var d := ds[i].name;
      BelowShrinks(f.tree, path, d);
      rc, out' := GetCollections(f, path + [d], parentName + [d], out');
      ghost var h := Snapshot(f, path + [d], parentName + [d]);
      if rc.Failure? {
        assert rc == SnapDirs(f, path, parentName, ds).rc && out' == out + SnapDirs(f, path, parentName, ds).cs by {
          SnapDirsUnfold(f, path, parentName, ds, i);
          GlueStop(out, done, whole, SnapDirs(f, path, parentName, ds), h);
        }
        return;
      }
      assert whole == Glue(done + h.cs, SnapDirs(f, path, parentName, ds[i + 1..])) by {
        SnapDirsStep(f, path, parentName, ds, i, done, whole);
      }
      done := done + h.cs;
      i := i + 1;
    }
    assert ds[i..] == [];
    GlueEnd(out, done, whole, SnapDirs(f, path, parentName, ds));
    rc := Success;
  }

  lemma GlueStop(out: seq<Collection>, done: seq<Collection>, whole: Snap, r: Snap, h: Snap)
    requires whole == Glue([], r) && whole == Glue(done, h)
    ensures r.rc == h.rc && out + r.cs == out + (done + h.cs)
  {
    assert [] + r.cs == r.cs;
  }

  lemma GlueEnd(out: seq<Collection>, done: seq<Collection>, whole: Snap, r: Snap)
    requires whole == Glue([], r) && whole == Glue(done, Snap(Success, []))
    ensures r.rc == Success && out + done == out + r.cs
  {
    assert [] + r.cs == r.cs && done + [] == done;
  }

  lemma SnapshotUnfold(f: Fs, path: Path, parentName: Path, c: Collection)
    requires GetCollection(f, path, parentName, true, true) == Ok(c)
    ensures path in f.tree
    ensures Snapshot(f, path, parentName) == Glue([c], SnapDirs(f, path, parentName, c.dirs))
  {
  }

  lemma SnapDirsUnfold(f: Fs, path: Path, parentName: Path, ds: seq<Entry>, i: nat)
    requires path in f.tree && i < |ds|
    ensures var h := Snapshot(f, path + [ds[i].name], parentName + [ds[i].name]);
      SnapDirs(f, path, parentName, ds[i..]) ==
        if h.rc.Failure? then h else Glue(h.cs, SnapDirs(f, path, parentName, ds[i + 1..]))
  {
    assert ds[i..][0] == ds[i] && ds[i..][1..] == ds[i + 1..];
  }

  lemma SnapDirsStep(f: Fs, path: Path, parentName: Path, ds: seq<Entry>, i: nat, done: seq<Collection>, whole: Snap)
    requires path in f.tree && i < |ds|
    requires whole == Glue(done, SnapDirs(f, path, parentName, ds[i..]))
    requires Snapshot(f, path + [ds[i].name], parentName + [ds[i].name]).rc.Success?
    ensures whole == Glue(done + Snapshot(f, path + [ds[i].name], parentName + [ds[i].name]).cs,
                          SnapDirs(f, path, parentName, ds[i + 1..]))
  {
    var h := Snapshot(f, path + [ds[i].name], parentName + [ds[i].name]);
    SnapDirsUnfold(f, path, parentName, ds, i);
    GlueAssoc(done, h.cs, SnapDirs(f, path, parentName, ds[i + 1..]));
  }

  /** A partial result followed by the rest of the walk. */
  function Glue(done: seq<Collection>, r: Snap): Snap {
    Snap(r.rc, done + r.cs)
  }

  lemma GlueAssoc(a: seq<Collection>, b: seq<Collection>, r: Snap)
    ensures Glue(a, Glue(b, r)) == Glue(a + b, r)
  {
    assert a + (b + r.cs) == (a + b) + r.cs;
  }

  // ---------------------------------------------------------------------
  // What a snapshot is

  function Names(ds: seq<Entry>): seq<string> {
    seq(|ds|, i requires 0 <= i < |ds| => ds[i].name)
  }

  /** Every collection lies at or below `path`, and its `parent_name` is
      `parentName` followed by the same components. */
  predicate Mirrors(cs: seq<Collection>, path: Path, parentName: Path) {
    forall i :: 0 <= i < |cs| ==> path <= cs[i].path && cs[i].parentName == parentName + cs[i].path[|path|..]
  }

  /** Every collection lies strictly below `path`, under one of `names`. */
  predicate Under(cs: seq<Collection>, path: Path, names: seq<string>) {
    forall i :: 0 <= i < |cs| ==> path < cs[i].path && cs[i].path[|path|] in names
  }

  /** Each collection is what `get_collection` reads for its directory. */
  predicate Faithful(f: Fs, cs: seq<Collection>) {
    forall i :: 0 <= i < |cs| ==> GetCollection(f, cs[i].path, cs[i].parentName, true, true) == Ok(cs[i])
  }

  /** Shape of `get_collections`: the first collection is the requested one;
      all lie below it with matching relative names; each is an exact listing. */
  lemma {:induction false} SnapshotShape(f: Fs, path: Path, parentName: Path)
    ensures var r := Snapshot(f, path, parentName);
      && Mirrors(r.cs, path, parentName) && Faithful(f, r.cs)
      && (r.rc.Success? ==> r.cs != [] && r.cs[0].path == path && r.cs[0].parentName == parentName)
    decreases |Below(f.tree, path)| + 1, 0
  {
    var got := GetCollection(f, path, parentName, true, true);
    if got.Ok? {
      var c := got.value;
      var rest := SnapDirs(f, path, parentName, c.dirs);
      SnapDirsShape(f, path, parentName, c.dirs);
      ShapeCons(f, c, rest.cs, path, parentName);
    }
  }

  lemma ShapeCons(f: Fs, c: Collection, rest: seq<Collection>, path: Path, parentName: Path)
    requires GetCollection(f, path, parentName, true, true) == Ok(c)
    requires Mirrors(rest, path, parentName) && Faithful(f, rest)
    ensures Mirrors([c] + rest, path, parentName) && Faithful(f, [c] + rest)
  {
    var cs := [c] + rest;
    assert cs[0].path[|path|..] == [];
    forall i | 1 <= i < |cs|
      ensures path <= cs[i].path && cs[i].parentName == parentName + cs[i].path[|path|..]
      ensures GetCollection(f, cs[i].path, cs[i].parentName, true, true) == Ok(cs[i])
    {
      assert cs[i] == rest[i - 1];
    }
  }

  lemma {:induction false} SnapDirsShape(f: Fs, path: Path, parentName: Path, ds: seq<Entry>)
    requires path in f.tree
    ensures var r := SnapDirs(f, path, parentName, ds);
      Mirrors(r.cs, path, parentName) && Under(r.cs, path, Names(ds)) && Faithful(f, r.cs)
    decreases |Below(f.tree, path)|, |ds|
  {
    if ds != [] {
      var d := ds[0].name;
      BelowShrinks(f.tree, path, d);
      var h := Snapshot(f, path + [d], parentName + [d]);
      SnapshotShape(f, path + [d], parentName + [d]);
      assert Names(ds)[0] == d;
      HeadUnder(h.cs, path, parentName, d, Names(ds));
      if h.rc.Success? {
        var r := SnapDirs(f, path, parentName, ds[1..]);
        SnapDirsShape(f, path, parentName, ds[1..]);
        assert Names(ds[1..]) == Names(ds)[1..];
        ShapeAppend(f, h.cs, r.cs, path, parentName, Names(ds));
      }
    }
  }

  /** Two runs of collections with the shape below `path`, the second under
      all but the first of `names`, make one run under `names`. */
  lemma ShapeAppend(f: Fs, a: seq<Collection>, b: seq<Collection>, path: Path, parentName: Path, names: seq<string>)
    requires names != []
    requires Mirrors(a, path, parentName) && Under(a, path, names) && Faithful(f, a)
    requires Mirrors(b, path, parentName) && Under(b, path, names[1..]) && Faithful(f, b)
    ensures var cs := a + b;
      Mirrors(cs, path, parentName) && Under(cs, path, names) && Faithful(f, cs)
  {
    var cs := a + b;
    forall i | 0 <= i < |cs|
      ensures path <= cs[i].path && cs[i].parentName == parentName + cs[i].path[|path|..]
      ensures path < cs[i].path && cs[i].path[|path|] in names
      ensures GetCollection(f, cs[i].path, cs[i].parentName, true, true) == Ok(cs[i])
    {
      if i >= |a| {
        assert cs[i] == b[i - |a|];
        assert cs[i].path[|path|] in names[1..];
      } else {
        assert cs[i] == a[i];
      }
    }
  }

  /** A snapshot taken at `path + [d]` lies below `path`, under `d`. */
  lemma HeadUnder(cs: seq<Collection>, path: Path, parentName: Path, d: string, names: seq<string>)
    requires Mirrors(cs, path + [d], parentName + [d]) && d in names
    ensures Mirrors(cs, path, parentName) && Under(cs, path, names)
  {
    forall i | 0 <= i < |cs|
      ensures path <= cs[i].path && cs[i].parentName == parentName + cs[i].path[|path|..]
      ensures path < cs[i].path && cs[i].path[|path|] in names
    {
      var q := cs[i].path;
      assert q[..|path| + 1] == path + [d];
      assert q[|path|] == d;
      assert q[..|path|] == path;
      assert q[|path|..] == [d] + q[|path| + 1..];
    }
  }

  /** A directory's collection comes before the collection of anything
      below it: the pre-order of the walk. */
  predicate PreOrdered(cs: seq<Collection>) {
    forall i, j :: 0 <= i < |cs| && 0 <= j < |cs| && cs[i].path < cs[j].path ==> i < j
  }

  lemma PreOrderedJoin(a: seq<Collection>, b: seq<Collection>)
    requires PreOrdered(a) && PreOrdered(b)
    requires forall i, j :: 0 <= i < |a| && 0 <= j < |b| ==> !(b[j].path < a[i].path)
    ensures PreOrdered(a + b)
  {
    var cs := a + b;
    forall i, j | 0 <= j <= i < |cs| ensures !(cs[i].path < cs[j].path) {
      if j >= |a| {
        assert cs[i] == b[i - |a|] && cs[j] == b[j - |a|];
      } else if i < |a| {
        assert cs[i] == a[i] && cs[j] == a[j];
      } else {
        assert cs[i] == b[i - |a|] && cs[j] == a[j];
      }
    }
  }

  /** Snapshots of two different directories of `path` share no ancestry. */
  lemma SiblingsApart(a: seq<Collection>, b: seq<Collection>, path: Path, d: string, names: seq<string>)
    requires Under(a, path, [d]) && Under(b, path, names) && d !in names
    ensures forall i, j :: 0 <= i < |a| && 0 <= j < |b| ==> !(b[j].path < a[i].path)
  {
    forall i, j | 0 <= i < |a| && 0 <= j < |b| ensures !(b[j].path < a[i].path) {
      assert a[i].path[|path|] == d;
      assert b[j].path[|path|] != d;
    }
  }

  /** When no directory lists a name twice, a snapshot is in pre-order. */
  lemma {:induction false} SnapshotPreOrdered(f: Fs, path: Path, parentName: Path)
    requires UniqueNames(f)
    ensures PreOrdered(Snapshot(f, path, parentName).cs)
    decreases |Below(f.tree, path)| + 1, 0
  {
    var got := GetCollection(f, path, parentName, true, true);
    if got.Ok? {
      var c := got.value;
      var rest := SnapDirs(f, path, parentName, c.dirs);
      SnapDirsPreOrdered(f, path, parentName, c.dirs);
      SnapDirsShape(f, path, parentName, c.dirs);
      PreOrderedJoin([c], rest.cs);
    }
  }

  lemma {:induction false} SnapDirsPreOrdered(f: Fs, path: Path, parentName: Path, ds: seq<Entry>)
    requires path in f.tree && UniqueNames(f) && DistinctNames(ds)
    ensures PreOrdered(SnapDirs(f, path, parentName, ds).cs)
    decreases |Below(f.tree, path)|, |ds|
  {
    if ds != [] {
      var d := ds[0].name;
      BelowShrinks(f.tree, path, d);
      var h := Snapshot(f, path + [d], parentName + [d]);
      SnapshotPreOrdered(f, path + [d], parentName + [d]);
      if h.rc.Success? {
        var r := SnapDirs(f, path, parentName, ds[1..]);
        SnapDirsPreOrdered(f, path, parentName, ds[1..]);
        SnapshotShape(f, path + [d], parentName + [d]);
        HeadUnder(h.cs, path, parentName, d, [d]);
        SnapDirsShape(f, path, parentName, ds[1..]);
        forall k | 0 <= k < |ds| - 1 ensures Names(ds[1..])[k] != d {
          assert Names(ds[1..])[k] == ds[k + 1].name;
        }
        SiblingsApart(h.cs, r.cs, path, d, Names(ds[1..]));
        PreOrderedJoin(h.cs, r.cs);
      }
    }
  }

  // ---------------------------------------------------------------------
  // Every collection hangs from one seen before

  /** The relative names of a collection's sub-directories. */
  function Kids(c: Collection): set<Path> {
    set k | k in c.dirs :: c.parentName + [k.name]
  }

  /** Each collection's `parent_name` is one of `known`, or the name of a
      sub-directory of an earlier collection. */
  predicate Grounded(cs: seq<Collection>, known: set<Path>) {
    cs == [] || (cs[0].parentName in known && Grounded(cs[1..], known + Kids(cs[0])))
  }

  lemma {:induction false} GroundedMono(cs: seq<Collection>, a: set<Path>, b: set<Path>)
    requires Grounded(cs, a) && a <= b
    ensures Grounded(cs, b)
  {
    if cs != [] {
      GroundedMono(cs[1..], a + Kids(cs[0]), b + Kids(cs[0]));
    }
  }

  lemma {:induction false} GroundedAppend(a: seq<Collection>, b: seq<Collection>, known: set<Path>)
    requires Grounded(a, known) && Grounded(b, known)
    ensures Grounded(a + b, known)
  {
    if a != [] {
      var k := known + Kids(a[0]);
      GroundedMono(b, known, k);
      GroundedAppend(a[1..], b, k);
      var ab := a + b;
      assert ab[0] == a[0] && ab[1..] == a[1..] + b;
      assert Grounded(ab[1..], known + Kids(ab[0]));
    } else {
      assert a + b == b;
    }
  }

  /** The walk only reaches a directory through its parent. */
  lemma {:induction false} SnapshotGrounded(f: Fs, path: Path, parentName: Path, known: set<Path>)
    requires parentName in known
    ensures Grounded(Snapshot(f, path, parentName).cs, known)
    decreases |Below(f.tree, path)| + 1, 0
  {
    var got := GetCollection(f, path, parentName, true, true);
    if got.Ok? {
      var c := got.value;
      var rest := SnapDirs(f, path, parentName, c.dirs);
      SnapDirsGrounded(f, path, parentName, c.dirs, known + Kids(c));
      assert ([c] + rest.cs)[1..] == rest.cs;
    }
  }

  lemma {:induction false} SnapDirsGrounded(f: Fs, path: Path, parentName: Path, ds: seq<Entry>, known: set<Path>)
    requires path in f.tree
    requires forall k :: k in ds ==> parentName + [k.name] in known
    ensures Grounded(SnapDirs(f, path, parentName, ds).cs, known)
    decreases |Below(f.tree, path)|, |ds|
  {
    if ds != [] {
      var d := ds[0].name;
      assert ds[0] in ds;
      BelowShrinks(f.tree, path, d);
      var h := Snapshot(f, path + [d], parentName + [d]);
      SnapshotGrounded(f, path + [d], parentName + [d], known);
      if h.rc.Success? {
        assert forall k :: k in ds[1..] ==> k in ds;
        SnapDirsGrounded(f, path, parentName, ds[1..], known);
        GroundedAppend(h.cs, SnapDirs(f, path, parentName, ds[1..]).cs, known);
      }
    }
  }

  // ---------------------------------------------------------------------
  // Every directory exactly once

  /** The directory `q[..k]` lists `q[k]`, and `q[..k + 1]` is a directory. */
  ghost predicate LinkAt(f: Fs, q: Path, k: nat)
    requires k < |q|
  {
    IsDirAt(f.tree, q[..k]) && IsDirAt(f.tree, q[..k + 1]) && q[k] in f.tree[q[..k]].names
  }

  /** Each directory on the way from `p` down to `q` is listed by the one
      above it. */
  ghost predicate ReachedFrom(f: Fs, p: Path, q: Path) {
    p <= q && forall k :: |p| <= k < |q| ==> LinkAt(f, q, k)
  }

  /** In a well-formed tree every directory is reached from each directory
      above it. */
  lemma {:induction false} WellFormedReaches(f: Fs, p: Path, q: Path)
    requires WellFormed(f) && IsDirAt(f.tree, q) && p <= q
    ensures ReachedFrom(f, p, q)
    decreases |q|
  {
    if |q| > |p| {
      var r := Parent(q);
      assert Child(r, Last(q)) == q;
      assert r[..|p|] == q[..|p|];
      WellFormedReaches(f, p, r);
      forall k | |p| <= k < |q| ensures LinkAt(f, q, k) {
        if k < |r| {
          assert LinkAt(f, r, k);
          assert q[..k] == r[..k] && q[..k + 1] == r[..k + 1] && q[k] == r[k];
        } else {
          assert q[..k] == r && q[..k + 1] == q && q[k] == Last(q);
        }
      }
    }
  }

  /** A successful walk has a collection for every directory reached from
      `path`. */
  lemma {:induction false} SnapshotCovers(f: Fs, path: Path, parentName: Path, q: Path)
    requires ReachedFrom(f, path, q)
    requires Snapshot(f, path, parentName).rc.Success?
    ensures exists i :: 0 <= i < |Snapshot(f, path, parentName).cs| && Snapshot(f, path, parentName).cs[i].path == q
    decreases |Below(f.tree, path)| + 1, 0
  {
    var c := GetCollection(f, path, parentName, true, true).value;
    SnapshotUnfold(f, path, parentName, c);
    var rest := SnapDirs(f, path, parentName, c.dirs);
    var cs := [c] + rest.cs;
    if q == path {
      assert cs[0].path == q;
    } else {
      var d := q[|path|];
      assert Entry(d, DirKind) in c.dirs by {
        assert LinkAt(f, q, |path|);
        assert q[..|path|] == path && q[..|path| + 1] == path + [d];
        ChildListed(f.tree, path, f.tree[path].names, d, DirKind);
      }
      SnapDirsCovers(f, path, parentName, c.dirs, q);
      var j :| 0 <= j < |rest.cs| && rest.cs[j].path == q;
      assert cs[j + 1] == rest.cs[j];
    }
  }

  lemma {:induction false} SnapDirsCovers(f: Fs, path: Path, parentName: Path, ds: seq<Entry>, q: Path)
    requires path in f.tree && ReachedFrom(f, path, q) && path < q
    requires Entry(q[|path|], DirKind) in ds
    requires SnapDirs(f, path, parentName, ds).rc.Success?
    ensures exists i :: 0 <= i < |SnapDirs(f, path, parentName, ds).cs| && SnapDirs(f, path, parentName, ds).cs[i].path == q
    decreases |Below(f.tree, path)|, |ds|
  {
    var d := ds[0].name;
    BelowShrinks(f.tree, path, d);
    var h := Snapshot(f, path + [d], parentName + [d]);
    var r := SnapDirs(f, path, parentName, ds[1..]);
    assert SnapDirs(f, path, parentName, ds).cs == h.cs + r.cs;
    if ds[0] == Entry(q[|path|], DirKind) {
      assert ReachedFrom(f, path + [d], q) by {
        assert q[..|path| + 1] == path + [d];
      }
      SnapshotCovers(f, path + [d], parentName + [d], q);
      var j :| 0 <= j < |h.cs| && h.cs[j].path == q;
      assert (h.cs + r.cs)[j] == h.cs[j];
    } else {
      assert Entry(q[|path|], DirKind) in ds[1..];
      SnapDirsCovers(f, path, parentName, ds[1..], q);
      var j :| 0 <= j < |r.cs| && r.cs[j].path == q;
      assert (h.cs + r.cs)[|h.cs| + j] == r.cs[j];
    }
  }

  /** No two collections are of the same directory. */
  predicate DistinctPaths(cs: seq<Collection>) {
    forall i, j :: 0 <= i < j < |cs| ==> cs[i].path != cs[j].path
  }

  lemma DistinctJoin(a: seq<Collection>, b: seq<Collection>)
    requires DistinctPaths(a) && DistinctPaths(b)
    requires forall i, j :: 0 <= i < |a| && 0 <= j < |b| ==> a[i].path != b[j].path
    ensures DistinctPaths(a + b)
  {
    var cs := a + b;
    forall i, j | 0 <= i < j < |cs| ensures cs[i].path != cs[j].path {
      if j < |a| {
        assert cs[i] == a[i] && cs[j] == a[j];
      } else if i < |a| {
        assert cs[i] == a[i] && cs[j] == b[j - |a|];
      } else {
        assert cs[i] == b[i - |a|] && cs[j] == b[j - |a|];
      }
    }
  }

  /** When no directory lists a name twice, the walk visits no directory
      twice. */
  lemma {:induction false} SnapshotDistinct(f: Fs, path: Path, parentName: Path)
    requires UniqueNames(f)
    ensures DistinctPaths(Snapshot(f, path, parentName).cs)
    decreases |Below(f.tree, path)| + 1, 0
  {
    var got := GetCollection(f, path, parentName, true, true);
    if got.Ok? {
      var c := got.value;
      var rest := SnapDirs(f, path, parentName, c.dirs);
      SnapDirsDistinct(f, path, parentName, c.dirs);
      SnapDirsShape(f, path, parentName, c.dirs);
      DistinctJoin([c], rest.cs);
    }
  }

  lemma {:induction false} SnapDirsDistinct(f: Fs, path: Path, parentName: Path, ds: seq<Entry>)
    requires path in f.tree && UniqueNames(f) && DistinctNames(ds)
    ensures DistinctPaths(SnapDirs(f, path, parentName, ds).cs)
    decreases |Below(f.tree, path)|, |ds|
  {
    if ds != [] {
      var d := ds[0].name;
      BelowShrinks(f.tree, path, d);
      var h := Snapshot(f, path + [d], parentName + [d]);
      SnapshotDistinct(f, path + [d], parentName + [d]);
      if h.rc.Success? {
        var r := SnapDirs(f, path, parentName, ds[1..]);
        SnapDirsDistinct(f, path, parentName, ds[1..]);
        SnapshotShape(f, path + [d], parentName + [d]);
        HeadUnder(h.cs, path, parentName, d, [d]);
        SnapDirsShape(f, path, parentName, ds[1..]);
        forall k | 0 <= k < |ds| - 1 ensures Names(ds[1..])[k] != d {
          assert Names(ds[1..])[k] == ds[k + 1].name;
        }
        forall i, j | 0 <= i < |h.cs| && 0 <= j < |r.cs| ensures h.cs[i].path != r.cs[j].path {
          assert h.cs[i].path[|path|] == d;
        }
        DistinctJoin(h.cs, r.cs);
      }
    }
  }

  /** `get_collections` on a well-formed backend without repeated names:
      when the walk succeeds, each directory at or below `path` has exactly
      one collection, and nothing else has one. */
  lemma SnapshotExactlyOnce(f: Fs, path: Path, parentName: Path)
    requires WellFormed(f) && UniqueNames(f)
    requires Snapshot(f, path, parentName).rc.Success?
    ensures var cs := Snapshot(f, path, parentName).cs;
      && (forall q :: IsDirAt(f.tree, q) && path <= q ==> exists i :: 0 <= i < |cs| && cs[i].path == q)
      && (forall i :: 0 <= i < |cs| ==> IsDirAt(f.tree, cs[i].path) && path <= cs[i].path)
      && DistinctPaths(cs)
  {
    var cs := Snapshot(f, path, parentName).cs;
    forall q | IsDirAt(f.tree, q) && path <= q ensures exists i :: 0 <= i < |cs| && cs[i].path == q {
      WellFormedReaches(f, path, q);
      SnapshotCovers(f, path, parentName, q);
    }
    SnapshotShape(f, path, parentName);
    SnapshotDistinct(f, path, parentName);
  }

  // ---------------------------------------------------------------------
  // Steps of a progress-box loop

  /** The entry kinds a deletion pass removes (`FsDirOpenMode_ReadDirs`,
      `FsDirOpenMode_ReadFiles`). */
  datatype Mode = Mode(dirs: bool, files: bool)

  const ALL_ENTRIES := Mode(true, true)
  const DIRS_ONLY := Mode(true, false)

  /** The work one iteration of a progress-box loop does after its `Yield`. */
  datatype Step =
    | DeleteStep(vol: Vol, path: Path, kind: Kind, mode: Mode)
    | CreateStep(vol: Vol, path: Path)
    | CopyStep(src: Vol, from: Path, dst: Vol, to: Path, cut: bool)
    | RenameStep(vol: Vol, from: Path, to: Path, kind: Kind)

  /** The body of the deletion loops: a directory when the mode removes
      directories, a file when it removes files, otherwise nothing. */
  function DeleteEntry(s: Sys, v: Vol, p: Path, k: Kind, m: Mode): Outcome {
    if m.dirs && k == DirKind then Apply(s, v, DeleteDirectory(FsOf(s, v), p))
    else if m.files && k == FileKind then Apply(s, v, DeleteFile(FsOf(s, v), p))
    else Outcome(s, Success)
  }

  /** `CopyFile` followed by `on_paste_file`: for a cut, the time stamp is
      carried over when the destination is not native and the source's can
      be read, and then the source file is deleted. */
  function PasteFile(s: Sys, src: Vol, from: Path, dst: Vol, to: Path, cut: bool): Outcome {
    var c := Apply(s, dst, CopyFile(FsOf(s, src), FsOf(s, dst), from, to));
    if c.rc.Failure? || !cut then c
    else
      var s1 :=
        if FsOf(c.sys, dst).native then c.sys
        else match GetStamp(FsOf(c.sys, src), from)
          case Ok(ts) => Apply(c.sys, dst, SetStamp(FsOf(c.sys, dst), to, ts)).sys
          case Err(_) => c.sys;
      Apply(s1, src, DeleteFile(FsOf(s1, src), from))
  }

  /** One step; the results of `CreateDirectory` and of the renames are
      ignored. */
  function Exec(s: Sys, st: Step): Outcome {
    match st
    case DeleteStep(v, p, k, m) => DeleteEntry(s, v, p, k, m)
    case CreateStep(v, p) => Outcome(Apply(s, v, CreateDirectory(FsOf(s, v), p)).sys, Success)
    case CopyStep(sv, a, dv, b, cut) => PasteFile(s, sv, a, dv, b, cut)
    case RenameStep(v, a, b, k) => Outcome(Apply(s, v, Rename(FsOf(s, v), a, b, k)).sys, Success)
  }

  /** A progress-box loop over `steps`: before each step a `Yield` and a
      cancellation check; the first failure ends the loop. */
  function Run(s: Sys, steps: seq<Step>): Outcome
    decreases |steps|
  {
    if steps == [] then Outcome(s, Success)
    else
      var t := Tick(s);
      if t.rc.Failure? then t
      else
        var e := Exec(t.sys, steps[0]);
        if e.rc.Failure? then e else Run(e.sys, steps[1..])
  }

  /** `R_TRY` of one loop, then the next. */
  function Then(o: Outcome, steps: seq<Step>): Outcome {
    if o.rc.Failure? then o else Run(o.sys, steps)
  }

  /** Two loops one after the other run as one loop over both step lists. */
  lemma {:induction false} RunAppend(s: Sys, a: seq<Step>, b: seq<Step>)
    ensures Run(s, a + b) == Then(Run(s, a), b)
    decreases |a|
  {
    if a == [] {
      assert a + b == b;
    } else {
      assert (a + b)[0] == a[0] && (a + b)[1..] == a[1..] + b;
      var t := Tick(s);
      if t.rc.Success? {
        var e := Exec(t.sys, a[0]);
        if e.rc.Success? {
          RunAppend(e.sys, a[1..], b);
        }
      }
    }
  }

  /** A cancellation before a step stops the loop with nothing changed. */
  lemma RunCancelled(s: Sys, steps: seq<Step>)
    requires steps != [] && s.ticks != [] && s.ticks[0]
    ensures Run(s, steps) == Outcome(s.(ticks := s.ticks[1..]), Failure(Cancelled))
  {
  }

  lemma RunCons(s: Sys, steps: seq<Step>, i: nat)
    requires i < |steps|
    ensures Run(s, steps[i..]) ==
      var t := Tick(s);
      if t.rc.Failure? then t
      else
        var e := Exec(t.sys, steps[i]);
        if e.rc.Failure? then e else Run(e.sys, steps[i + 1..])
  {
    assert steps[i..][0] == steps[i] && steps[i..][1..] == steps[i + 1..];
  }

  /** A step whose own result the loop ignores. */
  predicate Lenient(st: Step) {
    st.CreateStep? || st.RenameStep?
  }

  /** The user cancels at one of the first `n` checks. */
  predicate CancelledWithin(ticks: seq<bool>, n: nat)
    decreases n
  {
    n > 0 && ticks != [] && (ticks[0] || CancelledWithin(ticks[1..], n - 1))
  }

  /** A loop of creations and renames ends early exactly when it is
      cancelled. */
  lemma {:induction false} LenientRun(s: Sys, steps: seq<Step>)
    requires forall k :: 0 <= k < |steps| ==> Lenient(steps[k])
    ensures Run(s, steps).rc == if CancelledWithin(s.ticks, |steps|) then Failure(Cancelled) else Success
    decreases |steps|
  {
    if steps != [] {
      var t := Tick(s);
      if t.rc.Success? {
        var e := Exec(t.sys, steps[0]);
        assert Lenient(steps[0]);
        assert e.rc == Success && e.sys.ticks == t.sys.ticks;
        assert forall k :: 0 <= k < |steps[1..]| ==> Lenient(steps[1..][k]) by {
          forall k | 0 <= k < |steps[1..]| ensures Lenient(steps[1..][k]) {
            assert steps[1..][k] == steps[k + 1];
          }
        }
        LenientRun(e.sys, steps[1..]);
      }
    }
  }

  // ---------------------------------------------------------------------
  // Reverse-order deletion

  /** The deletion loop over one array of entries of the directory `base`. */
  function EntrySteps(v: Vol, base: Path, es: seq<Entry>, mode: Mode): (r: seq<Step>)
    ensures |r| == |es|
  {
    seq(|es|, i requires 0 <= i < |es| => DeleteStep(v, base + [es[i].name], es[i].kind, mode))
  }

  /** A collection's files, then its directories. */
  function CollectionSteps(v: Vol, c: Collection, mode: Mode): seq<Step> {
    EntrySteps(v, c.path, c.files, mode) + EntrySteps(v, c.path, c.dirs, mode)
  }

  /** `DeleteAllCollections`: the collections from the last to the first. */
  function DeleteSteps(v: Vol, cs: seq<Collection>, mode: Mode): seq<Step> {
    if cs == [] then []
    else CollectionSteps(v, cs[|cs| - 1], mode) + DeleteSteps(v, cs[..|cs| - 1], mode)
  }

  /** `DeleteAllCollectionsWithSelected`: the collections, then the selected
      entries of `base`. */
  function WithSelectedSteps(v: Vol, base: Path, selected: seq<Entry>, cs: seq<Collection>, mode: Mode): seq<Step> {
    DeleteSteps(v, cs, mode) + EntrySteps(v, base, selected, mode)
  }

  /** `delete_func`: one array of entries. */
  method DeleteEntries(s: Sys, v: Vol, base: Path, es: seq<Entry>, mode: Mode) returns (o: Outcome)
    ensures o == Run(s, EntrySteps(v, base, es, mode))
  {
    ghost var steps := EntrySteps(v, base, es, mode);
    var cur := s;
    var i := 0;
    while i < |es|
      invariant 0 <= i <= |es|
      invariant Run(s, steps) == Run(cur, steps[i..])
    {
      RunCons(cur, steps, i);
      var t := Tick(cur);
      if t.rc.Failure? {
        return t;
      }
      cur := t.sys;
      var full := base + [es[i].name];
      if mode.dirs && es[i].kind == DirKind {
        o := Apply(cur, v, DeleteDirectory(FsOf(cur, v), full));
      } else if mode.files && es[i].kind == FileKind {
        o := Apply(cur, v, DeleteFile(FsOf(cur, v), full));
      } else {
        o := Outcome(cur, Success);
      }
      if o.rc.Failure? {
        return;
      }
      cur := o.sys;
      i := i + 1;
    }
    assert steps[i..] == [];
    o := Outcome(cur, Success);
  }

  /** `DeleteAllCollections`. */
  method DeleteAllCollections(s: Sys, v: Vol, cs: seq<Collection>, mode: Mode) returns (o: Outcome)
    ensures o == Run(s, DeleteSteps(v, cs, mode))
  {
    var cur := s;
    var i := |cs|;
    assert cs[..i] == cs;
    while i > 0
      invariant 0 <= i <= |cs|
      invariant Run(s, DeleteSteps(v, cs, mode)) == Run(cur, DeleteSteps(v, cs[..i], mode))
    {
      var c := cs[i - 1];
      assert cs[..i][..i - 1] == cs[..i - 1] && cs[..i][i - 1] == c;
      RunAppend(cur, CollectionSteps(v, c, mode), DeleteSteps(v, cs[..i - 1], mode));
      RunAppend(cur, EntrySteps(v, c.path, c.files, mode), EntrySteps(v, c.path, c.dirs, mode));
      o := DeleteEntries(cur, v, c.path, c.files, mode);
      if o.rc.Failure? {
        return;
      }
      o := DeleteEntries(o.sys, v, c.path, c.dirs, mode);
      if o.rc.Failure? {
        return;
      }
      cur := o.sys;
      i := i - 1;
    }
    o := Outcome(cur, Success);
  }

  /** `DeleteAllCollectionsWithSelected`. */
  method DeleteAllCollectionsWithSelected(s: Sys, v: Vol, base: Path, selected: seq<Entry>,
                                          cs: seq<Collection>, mode: Mode) returns (o: Outcome)
    ensures o == Run(s, WithSelectedSteps(v, base, selected, cs, mode))
  {
    RunAppend(s, DeleteSteps(v, cs, mode), EntrySteps(v, base, selected, mode));
    o := DeleteAllCollections(s, v, cs, mode);
    if o.rc.Failure? {
      return;
    }
    o := DeleteEntries(o.sys, v, base, selected, mode);
  }

  // ---------------------------------------------------------------------
  // Deletion order

  /** The step removes a directory. */
  predicate RemovesDir(st: Step) {
    st.DeleteStep? && st.kind == DirKind && st.mode.dirs
  }

  /** No deletion step reaches strictly inside a directory that an earlier
      step removed: a directory goes only after everything below it. */
  predicate ChildrenFirst(steps: seq<Step>) {
    forall a, b :: 0 <= a < b < |steps| && RemovesDir(steps[a]) && steps[b].DeleteStep? ==>
      !(steps[a].path < steps[b].path)
  }

  predicate AllDeletes(steps: seq<Step>) {
    forall b :: 0 <= b < |steps| ==> steps[b].DeleteStep?
  }

  lemma ChildrenFirstJoin(x: seq<Step>, y: seq<Step>)
    requires ChildrenFirst(x) && ChildrenFirst(y)
    requires forall a, b :: 0 <= a < |x| && 0 <= b < |y| && RemovesDir(x[a]) && y[b].DeleteStep? ==>
      !(x[a].path < y[b].path)
    ensures ChildrenFirst(x + y)
  {
    var z := x + y;
    forall a, b | 0 <= a < b < |z| && RemovesDir(z[a]) && z[b].DeleteStep? ensures !(z[a].path < z[b].path) {
      if b < |x| {
        assert z[a] == x[a] && z[b] == x[b];
      } else if a < |x| {
        assert z[a] == x[a] && z[b] == y[b - |x|];
      } else {
        assert z[a] == y[a - |x|] && z[b] == y[b - |x|];
      }
    }
  }

  /** The entries of one directory are all at the same depth. */
  lemma EntryStepsFlat(v: Vol, base: Path, es: seq<Entry>, mode: Mode)
    ensures var e := EntrySteps(v, base, es, mode);
      AllDeletes(e) && ChildrenFirst(e) && forall b :: 0 <= b < |e| ==> e[b].path == base + [es[b].name]
  {
  }

  lemma EntryStepsJoinFlat(v: Vol, base: Path, x: seq<Entry>, y: seq<Entry>, mode: Mode)
    ensures var e := EntrySteps(v, base, x, mode) + EntrySteps(v, base, y, mode);
      AllDeletes(e) && ChildrenFirst(e) && forall b :: 0 <= b < |e| ==> |e[b].path| == |base| + 1
  {
    var e1, e2 := EntrySteps(v, base, x, mode), EntrySteps(v, base, y, mode);
    var e := e1 + e2;
    forall b | 0 <= b < |e| ensures e[b].DeleteStep? && |e[b].path| == |base| + 1 {
      if b < |e1| {
        assert e[b] == e1[b];
      } else {
        assert e[b] == e2[b - |e1|];
      }
    }
  }

  lemma PrefixStep(p: Path, x: string, q: Path)
    requires p + [x] <= q
    ensures p < q
  {
    assert q[..|p|] == (p + [x])[..|p|] == p;
  }

  /** The deletion steps of collections none of which lies at or below `q`
      never reach strictly inside `q`. */
  lemma {:induction false} DeleteStepsAvoid(v: Vol, cs: seq<Collection>, mode: Mode, q: Path)
    requires forall i :: 0 <= i < |cs| ==> !(q <= cs[i].path)
    ensures var d := DeleteSteps(v, cs, mode);
      AllDeletes(d) && forall b :: 0 <= b < |d| ==> !(q < d[b].path)
    decreases |cs|
  {
    if cs != [] {
      var c := cs[|cs| - 1];
      var e := CollectionSteps(v, c, mode);
      var init := cs[..|cs| - 1];
      DeleteStepsAvoid(v, init, mode, q);
      var rest := DeleteSteps(v, init, mode);
      EntryStepsJoinFlat(v, c.path, c.files, c.dirs, mode);
      EntryStepsFlat(v, c.path, c.files, mode);
      EntryStepsFlat(v, c.path, c.dirs, mode);
      var d := e + rest;
      forall b | 0 <= b < |d| ensures d[b].DeleteStep? && !(q < d[b].path) {
        if b < |e| {
          assert d[b] == e[b];
          var e1 := EntrySteps(v, c.path, c.files, mode);
          if b < |e1| {
            assert e[b] == e1[b];
            StrictBelowNext(q, c.path, c.files[b].name);
          } else {
            assert e[b] == EntrySteps(v, c.path, c.dirs, mode)[b - |e1|];
            StrictBelowNext(q, c.path, c.dirs[b - |e1|].name);
          }
        } else {
          assert d[b] == rest[b - |e|];
        }
      }
    }
  }

  /** `q` strictly above `p + [x]` lies at or above `p`. */
  lemma StrictBelowNext(q: Path, p: Path, x: string)
    ensures q < p + [x] ==> q <= p
  {
    if q < p + [x] {
      assert (p + [x])[..|q|] == p[..|q|];
    }
  }

  /** The deletion steps of collections at depth `depth` or more reach
      strictly deeper than `depth + 1`. */
  lemma {:induction false} DeleteStepsDeep(v: Vol, cs: seq<Collection>, mode: Mode, depth: nat)
    requires forall i :: 0 <= i < |cs| ==> depth <= |cs[i].path|
    ensures var d := DeleteSteps(v, cs, mode);
      AllDeletes(d) && forall b :: 0 <= b < |d| ==> depth < |d[b].path|
    decreases |cs|
  {
    if cs != [] {
      var c := cs[|cs| - 1];
      var e := CollectionSteps(v, c, mode);
      var init := cs[..|cs| - 1];
      DeleteStepsDeep(v, init, mode, depth);
      var rest := DeleteSteps(v, init, mode);
      EntryStepsJoinFlat(v, c.path, c.files, c.dirs, mode);
      var d := e + rest;
      forall b | 0 <= b < |d| ensures d[b].DeleteStep? && depth < |d[b].path| {
        if b < |e| {
          assert d[b] == e[b];
        } else {
          assert d[b] == rest[b - |e|];
        }
      }
    }
  }

  /** Deleting a pre-ordered snapshot back to front removes every directory
      after everything below it. */
  lemma {:induction false} DeleteStepsChildrenFirst(v: Vol, cs: seq<Collection>, mode: Mode)
    requires PreOrdered(cs)
    ensures ChildrenFirst(DeleteSteps(v, cs, mode))
    decreases |cs|
  {
    if cs != [] {
      var n := |cs| - 1;
      var c := cs[n];
      var init := cs[..n];
      var e := CollectionSteps(v, c, mode);
      assert PreOrdered(init) by {
        forall i, j | 0 <= i < n && 0 <= j < n ensures init[i] == cs[i] && init[j] == cs[j] {}
      }
      DeleteStepsChildrenFirst(v, init, mode);
      EntryStepsJoinFlat(v, c.path, c.files, c.dirs, mode);
      var rest := DeleteSteps(v, init, mode);
      forall a, b | 0 <= a < |e| && 0 <= b < |rest| && RemovesDir(e[a]) && rest[b].DeleteStep?
        ensures !(e[a].path < rest[b].path)
      {
        var q := e[a].path;
        var e1 := EntrySteps(v, c.path, c.files, mode);
        var x := if a < |e1| then c.files[a].name else c.dirs[a - |e1|].name;
        assert q == c.path + [x] by {
          if a < |e1| {
            assert e[a] == e1[a];
          } else {
            assert e[a] == EntrySteps(v, c.path, c.dirs, mode)[a - |e1|];
          }
        }
        forall i | 0 <= i < n ensures !(q <= init[i].path) {
          assert init[i] == cs[i];
          if q <= cs[i].path {
            PrefixStep(c.path, x, cs[i].path);
          }
        }
        DeleteStepsAvoid(v, init, mode, q);
      }
      ChildrenFirstJoin(e, rest);
    }
  }

  /** With the selected entries removed last, the order still holds when
      every collection lies strictly below the selection's directory. */
  lemma WithSelectedChildrenFirst(v: Vol, base: Path, selected: seq<Entry>, cs: seq<Collection>, mode: Mode)
    requires PreOrdered(cs)
    requires forall i :: 0 <= i < |cs| ==> |base| < |cs[i].path|
    ensures ChildrenFirst(WithSelectedSteps(v, base, selected, cs, mode))
  {
    DeleteStepsChildrenFirst(v, cs, mode);
    DeleteStepsDeep(v, cs, mode, |base| + 1);
    EntryStepsFlat(v, base, selected, mode);
    ChildrenFirstJoin(DeleteSteps(v, cs, mode), EntrySteps(v, base, selected, mode));
  }

  // ---------------------------------------------------------------------
  // Deleting a snapshot

  /** The user never cancels. */
  predicate NoCancel(ticks: seq<bool>) {
    forall k :: 0 <= k < |ticks| ==> !ticks[k]
  }

  lemma TickNoCancel(s: Sys)
    requires NoCancel(s.ticks)
    ensures Tick(s).rc == Success && Tick(s).sys.vols == s.vols && NoCancel(Tick(s).sys.ticks)
  {
    if s.ticks != [] {
      assert !s.ticks[0];
      forall k | 0 <= k < |s.ticks| - 1 ensures !s.ticks[1..][k] {
        assert s.ticks[1..][k] == s.ticks[k + 1];
      }
    }
  }

  /** `g` is `f` after the paths `gone` were deleted: the same paths but
      those, of the same kinds, the same faulty paths, and every name a
      directory lists still there. */
  ghost predicate Tracks(g: Fs, f: Fs, gone: set<Path>) {
    && g.faulty == f.faulty
    && (forall q :: q in g.tree <==> q in f.tree && q !in gone)
    && (forall q :: q in g.tree ==> KindOf(g.tree[q]) == KindOf(f.tree[q]))
    && (forall p, n :: IsDirAt(g.tree, p) && n in g.tree[p].names ==> Child(p, n) in g.tree)
  }

  /** Everything `p` held in `f` is among `gone`. */
  ghost predicate Emptied(f: Fs, gone: set<Path>, p: Path) {
    forall n :: Child(p, n) in f.tree ==> Child(p, n) in gone
  }

  /** The entry `p` of kind `k` can be deleted after `gone`: it is there and
      not yet deleted, the backend does not fail on it, and a directory has
      been emptied. */
  ghost predicate Deletable(f: Fs, gone: set<Path>, p: Path, k: Kind) {
    && p != [] && p in f.tree && p !in gone && p !in f.faulty && KindOf(f.tree[p]) == k
    && (k == DirKind ==> Emptied(f, gone, p))
  }

  /** Unlinking a present path keeps the tracking. */
  lemma UnlinkTracks(g: Fs, f: Fs, gone: set<Path>, p: Path)
    requires Tracks(g, f, gone) && p != [] && p in g.tree
    ensures Tracks(g.(tree := Unlink(g.tree, p)), f, gone + {p})
  {
    var u := Unlink(g.tree, p);
    var r := Parent(p);
    assert Child(r, Last(p)) == p;
    forall q, n | IsDirAt(u, q) && n in u[q].names ensures Child(q, n) in u {
      if q == r {
        assert n in g.tree[r].names && n != Last(p);
        assert Child(r, n) != p by {
          assert Child(r, n)[|r|] == n;
        }
      } else {
        assert q != p && IsDirAt(g.tree, q) && u[q] == g.tree[q];
        assert Child(q, n)[..|q|] == q;
      }
    }
  }

  /** Some name of a non-empty listing. */
  function FirstName(names: seq<string>): string {
    if names == [] then "" else names[0]
  }

  /** One deletion step on a tracked backend succeeds and tracks one more
      path. */
  lemma DeleteOne(g: Fs, f: Fs, gone: set<Path>, p: Path, k: Kind)
    requires Tracks(g, f, gone) && Deletable(f, gone, p, k)
    ensures var r := if k == DirKind then DeleteDirectory(g, p) else DeleteFile(g, p);
      r.Ok? && Tracks(r.value, f, gone + {p})
  {
    assert p in g.tree && KindOf(g.tree[p]) == k;
    if k == DirKind {
      var names := g.tree[p].names;
      assert FirstName(names) !in names;
    }
    UnlinkTracks(g, f, gone, p);
  }

  /** The paths of the entries `es` of `base`. */
  ghost function EntryPaths(base: Path, es: seq<Entry>): set<Path> {
    set e | e in es :: base + [e.name]
  }

  lemma EntryPathsCons(base: Path, es: seq<Entry>)
    requires es != []
    ensures EntryPaths(base, es) == {base + [es[0].name]} + EntryPaths(base, es[1..])
  {
    assert forall e :: e in es <==> e == es[0] || e in es[1..];
  }

  /** The entries `es` of `base` can go one after another. */
  ghost predicate EntriesReady(f: Fs, gone: set<Path>, base: Path, es: seq<Entry>) {
    DistinctNames(es) && forall i :: 0 <= i < |es| ==> Deletable(f, gone, base + [es[i].name], es[i].kind)
  }

  /** A deletion loop over entries that can go one after another succeeds
      and deletes exactly them. */
  lemma {:induction false} RunEntries(s: Sys, v: Vol, f: Fs, gone: set<Path>, base: Path, es: seq<Entry>)
    requires Tracks(FsOf(s, v), f, gone) && NoCancel(s.ticks) && EntriesReady(f, gone, base, es)
    ensures var o := Run(s, EntrySteps(v, base, es, ALL_ENTRIES));
      o.rc == Success && NoCancel(o.sys.ticks) && Tracks(FsOf(o.sys, v), f, gone + EntryPaths(base, es))
    decreases |es|
  {
    var steps := EntrySteps(v, base, es, ALL_ENTRIES);
    if es == [] {
      assert EntryPaths(base, es) == {};
      assert gone + {} == gone;
    } else {
      var p := base + [es[0].name];
      var k := es[0].kind;
      TickNoCancel(s);
      var t := Tick(s);
      assert FsOf(t.sys, v) == FsOf(s, v);
      assert Deletable(f, gone, p, k);
      DeleteOne(FsOf(t.sys, v), f, gone, p, k);
      assert steps[0] == DeleteStep(v, p, k, ALL_ENTRIES);
      var e := Exec(t.sys, steps[0]);
      assert e.rc == Success && e.sys.ticks == t.sys.ticks;
      assert steps[1..] == EntrySteps(v, base, es[1..], ALL_ENTRIES);
      assert EntriesReady(f, gone + {p}, base, es[1..]) by {
        forall i | 0 <= i < |es| - 1 ensures Deletable(f, gone + {p}, base + [es[1..][i].name], es[1..][i].kind) {
          assert es[1..][i] == es[i + 1];
          assert Deletable(f, gone, base + [es[i + 1].name], es[i + 1].kind);
          assert (base + [es[i + 1].name])[|base|] == es[i + 1].name != es[0].name;
        }
      }
      RunEntries(e.sys, v, f, gone + {p}, base, es[1..]);
      EntryPathsCons(base, es);
      assert gone + {p} + EntryPaths(base, es[1..]) == gone + EntryPaths(base, es);
    }
  }

  /** A collection's entries: its files, then its directories. */
  function Ents(c: Collection): seq<Entry> {
    c.files + c.dirs
  }

  lemma CollectionStepsEnts(v: Vol, c: Collection, mode: Mode)
    ensures CollectionSteps(v, c, mode) == EntrySteps(v, c.path, Ents(c), mode)
  {
    var a, b := EntrySteps(v, c.path, c.files, mode), EntrySteps(v, c.path, c.dirs, mode);
    var es := Ents(c);
    forall i | 0 <= i < |es| ensures (a + b)[i] == EntrySteps(v, c.path, es, mode)[i] {
      if i < |c.files| {
        assert es[i] == c.files[i];
      } else {
        assert es[i] == c.dirs[i - |c.files|];
      }
    }
  }

  /** The collection names everything its directory holds. */
  ghost predicate Lists(f: Fs, c: Collection) {
    forall n :: Child(c.path, n) in f.tree ==> Child(c.path, n) in EntryPaths(c.path, Ents(c))
  }

  /** The `k`-th entry of the `i`-th collection is there, not yet deleted,
      not failing, and a directory is emptied either already or by the
      entries of a later collection. */
  ghost predicate Waiting(f: Fs, gone: set<Path>, cs: seq<Collection>, i: nat, k: nat)
    requires i < |cs| && k < |Ents(cs[i])|
  {
    var e := Ents(cs[i])[k];
    var p := cs[i].path + [e.name];
    && p in f.tree && p !in gone && p !in f.faulty && KindOf(f.tree[p]) == e.kind
    && (e.kind == DirKind ==> Emptied(f, gone, p) || exists j :: i < j < |cs| && cs[j].path == p)
  }

  /** Collections whose back-to-front deletion after `gone` cannot fail. */
  ghost predicate Plan(f: Fs, gone: set<Path>, cs: seq<Collection>) {
    && DistinctPaths(cs)
    && (forall i :: 0 <= i < |cs| ==> DistinctNames(Ents(cs[i])) && Lists(f, cs[i]))
    && (forall i, k :: 0 <= i < |cs| && 0 <= k < |Ents(cs[i])| ==> Waiting(f, gone, cs, i, k))
  }

  /** The paths a back-to-front deletion of `cs` removes. */
  ghost function Removed(cs: seq<Collection>): set<Path>
    decreases |cs|
  {
    if cs == [] then {}
    else EntryPaths(cs[|cs| - 1].path, Ents(cs[|cs| - 1])) + Removed(cs[..|cs| - 1])
  }

  /** The last collection can go first. */
  lemma PlanLast(f: Fs, gone: set<Path>, cs: seq<Collection>)
    requires cs != [] && Plan(f, gone, cs)
    ensures var c := cs[|cs| - 1]; EntriesReady(f, gone, c.path, Ents(c))
  {
    var n := |cs| - 1;
    var c := cs[n];
    forall k | 0 <= k < |Ents(c)| ensures Deletable(f, gone, c.path + [Ents(c)[k].name], Ents(c)[k].kind) {
      assert Waiting(f, gone, cs, n, k);
    }
  }

  /** After the last collection, the others still can go. */
  lemma PlanInit(f: Fs, gone: set<Path>, cs: seq<Collection>)
    requires cs != [] && Plan(f, gone, cs)
    ensures var c := cs[|cs| - 1];
      Plan(f, gone + EntryPaths(c.path, Ents(c)), cs[..|cs| - 1])
  {
    var n := |cs| - 1;
    var c := cs[n];
    var init := cs[..n];
    var gone' := gone + EntryPaths(c.path, Ents(c));
    assert forall i :: 0 <= i < n ==> init[i] == cs[i];
    forall i, k | 0 <= i < n && 0 <= k < |Ents(init[i])| ensures Waiting(f, gone', init, i, k) {
      assert Waiting(f, gone, cs, i, k);
      var e := Ents(cs[i])[k];
      var p := cs[i].path + [e.name];
      assert p !in EntryPaths(c.path, Ents(c)) by {
        assert Parent(p) == cs[i].path != c.path;
        forall e' | e' in Ents(c) ensures c.path + [e'.name] != p {
          assert Parent(c.path + [e'.name]) == c.path;
        }
      }
      if e.kind == DirKind && !Emptied(f, gone, p) {
        var j :| i < j < |cs| && cs[j].path == p;
        if j == n {
          assert Lists(f, c);
        } else {
          assert init[j].path == p;
        }
      }
    }
  }

  /** `DeleteAllCollections` over collections that can go back to front
      succeeds and deletes exactly their entries. */
  lemma {:induction false} RunDeleteSteps(s: Sys, v: Vol, f: Fs, gone: set<Path>, cs: seq<Collection>)
    requires Tracks(FsOf(s, v), f, gone) && NoCancel(s.ticks) && Plan(f, gone, cs)
    ensures var o := Run(s, DeleteSteps(v, cs, ALL_ENTRIES));
      o.rc == Success && NoCancel(o.sys.ticks) && Tracks(FsOf(o.sys, v), f, gone + Removed(cs))
    decreases |cs|
  {
    if cs == [] {
      assert gone + {} == gone;
    } else {
      var n := |cs| - 1;
      var a, b := CollectionSteps(v, cs[n], ALL_ENTRIES), DeleteSteps(v, cs[..n], ALL_ENTRIES);
      var gone' := gone + EntryPaths(cs[n].path, Ents(cs[n]));
      assert gone' + Removed(cs[..n]) == gone + Removed(cs);
      RunAppend(s, a, b);
      RunLastCollection(s, v, f, gone, cs);
      RunDeleteSteps(Run(s, a).sys, v, f, gone', cs[..n]);
    }
  }

  /** The last collection goes first, and leaves the others ready. */
  lemma RunLastCollection(s: Sys, v: Vol, f: Fs, gone: set<Path>, cs: seq<Collection>)
    requires cs != [] && Tracks(FsOf(s, v), f, gone) && NoCancel(s.ticks) && Plan(f, gone, cs)
    ensures var c := cs[|cs| - 1];
      var gone' := gone + EntryPaths(c.path, Ents(c));
      var o := Run(s, CollectionSteps(v, c, ALL_ENTRIES));
      && o.rc == Success && NoCancel(o.sys.ticks) && Tracks(FsOf(o.sys, v), f, gone')
      && Plan(f, gone', cs[..|cs| - 1])
  {
    var c := cs[|cs| - 1];
    CollectionStepsEnts(v, c, ALL_ENTRIES);
    PlanLast(f, gone, cs);
    RunEntries(s, v, f, gone, c.path, Ents(c));
    PlanInit(f, gone, cs);
  }

  /** A collection read by `get_collection` on a well-formed backend without
      repeated names names each entry once, names everything its directory
      holds, and each entry is there with its kind. */
  lemma CollectionFacts(f: Fs, c: Collection)
    requires WellFormed(f) && UniqueNames(f)
    requires GetCollection(f, c.path, c.parentName, true, true) == Ok(c)
    ensures DistinctNames(Ents(c)) && Lists(f, c)
    ensures forall k :: 0 <= k < |Ents(c)| ==>
      c.path + [Ents(c)[k].name] in f.tree && KindOf(f.tree[c.path + [Ents(c)[k].name]]) == Ents(c)[k].kind
  {
    EntsThere(f, c);
    EntsDistinct(f, c);
    EntsComplete(f, c);
  }

  lemma EntsThere(f: Fs, c: Collection)
    requires GetCollection(f, c.path, c.parentName, true, true) == Ok(c)
    ensures forall k :: 0 <= k < |Ents(c)| ==>
      c.path + [Ents(c)[k].name] in f.tree && KindOf(f.tree[c.path + [Ents(c)[k].name]]) == Ents(c)[k].kind
  {
    var t, p := f.tree, c.path;
    assert c.files == Children(t, p, t[p].names, FileKind);
    assert c.dirs == Children(t, p, t[p].names, DirKind);
    var es := Ents(c);
    forall k | 0 <= k < |es| ensures p + [es[k].name] in t && KindOf(t[p + [es[k].name]]) == es[k].kind {
      if k < |c.files| {
        assert es[k] == c.files[k];
      } else {
        assert es[k] == c.dirs[k - |c.files|];
      }
    }
  }

  lemma EntsDistinct(f: Fs, c: Collection)
    requires UniqueNames(f)
    requires GetCollection(f, c.path, c.parentName, true, true) == Ok(c)
    ensures DistinctNames(Ents(c))
  {
    EntsThere(f, c);
    var es := Ents(c);
    assert DistinctNames(c.files) && DistinctNames(c.dirs);
    forall i, j | 0 <= i < j < |es| ensures es[i].name != es[j].name {
      if j < |c.files| {
        assert es[i] == c.files[i] && es[j] == c.files[j];
      } else if i >= |c.files| {
        assert es[i] == c.dirs[i - |c.files|] && es[j] == c.dirs[j - |c.files|];
      } else {
        assert es[i] == c.files[i] && es[j] == c.dirs[j - |c.files|];
      }
    }
  }

  lemma EntsComplete(f: Fs, c: Collection)
    requires WellFormed(f)
    requires GetCollection(f, c.path, c.parentName, true, true) == Ok(c)
    ensures Lists(f, c)
  {
    var t, p := f.tree, c.path;
    assert c.files == Children(t, p, t[p].names, FileKind);
    assert c.dirs == Children(t, p, t[p].names, DirKind);
    forall n | Child(p, n) in t ensures Child(p, n) in EntryPaths(p, Ents(c)) {
      var k := KindOf(t[Child(p, n)]);
      ChildListed(t, p, t[p].names, n, k);
      assert Entry(n, k) in Ents(c);
    }
  }

  /** A successful snapshot of a well-formed backend that fails nowhere
      below `path` can be deleted back to front. */
  lemma SnapshotPlan(f: Fs, path: Path, parentName: Path)
    requires WellFormed(f) && UniqueNames(f)
    requires forall q :: q in f.faulty ==> !(path < q)
    requires Snapshot(f, path, parentName).rc.Success?
    ensures Plan(f, {}, Snapshot(f, path, parentName).cs)
  {
    var cs := Snapshot(f, path, parentName).cs;
    SnapshotExactlyOnce(f, path, parentName);
    SnapshotShape(f, path, parentName);
    SnapshotPreOrdered(f, path, parentName);
    forall i | 0 <= i < |cs| ensures DistinctNames(Ents(cs[i])) && Lists(f, cs[i]) {
      CollectionFacts(f, cs[i]);
    }
    forall i, k | 0 <= i < |cs| && 0 <= k < |Ents(cs[i])| ensures Waiting(f, {}, cs, i, k) {
      CollectionFacts(f, cs[i]);
      var e := Ents(cs[i])[k];
      var p := cs[i].path + [e.name];
      assert p[..|cs[i].path|] == cs[i].path;
      assert path < p;
      if e.kind == DirKind {
        assert IsDirAt(f.tree, p) && path <= p;
        var j :| 0 <= j < |cs| && cs[j].path == p;
        assert cs[i].path < cs[j].path;
      }
    }
  }

  lemma {:induction false} RemovedHas(cs: seq<Collection>, j: nat, q: Path)
    requires j < |cs| && q in EntryPaths(cs[j].path, Ents(cs[j]))
    ensures q in Removed(cs)
    decreases |cs|
  {
    var n := |cs| - 1;
    if j < n {
      assert cs[..n][j] == cs[j];
      RemovedHas(cs[..n], j, q);
    }
  }

  lemma {:induction false} RemovedFrom(cs: seq<Collection>, q: Path) returns (j: nat)
    requires q in Removed(cs)
    ensures j < |cs| && q in EntryPaths(cs[j].path, Ents(cs[j]))
    decreases |cs|
  {
    var n := |cs| - 1;
    if q in EntryPaths(cs[n].path, Ents(cs[n])) {
      j := n;
    } else {
      j := RemovedFrom(cs[..n], q);
      assert cs[..n][j] == cs[j];
    }
  }

  /** The deletion of a snapshot removes exactly what lies strictly below
      its directory. */
  lemma SnapshotRemoved(f: Fs, path: Path, parentName: Path)
    requires WellFormed(f) && UniqueNames(f)
    requires Snapshot(f, path, parentName).rc.Success?
    ensures forall q :: q in Removed(Snapshot(f, path, parentName).cs) <==> q in f.tree && path < q
  {
    var cs := Snapshot(f, path, parentName).cs;
    forall q | q in Removed(cs) ensures q in f.tree && path < q {
      RemovedWithin(f, path, parentName, q);
    }
    forall q | q in f.tree && path < q ensures q in Removed(cs) {
      RemovedAll(f, path, parentName, q);
    }
  }

  lemma RemovedWithin(f: Fs, path: Path, parentName: Path, q: Path)
    requires q in Removed(Snapshot(f, path, parentName).cs)
    ensures q in f.tree && path < q
  {
    var cs := Snapshot(f, path, parentName).cs;
    SnapshotShape(f, path, parentName);
    var j := RemovedFrom(cs, q);
    EntsThere(f, cs[j]);
    var e :| e in Ents(cs[j]) && q == cs[j].path + [e.name];
    var k :| 0 <= k < |Ents(cs[j])| && Ents(cs[j])[k] == e;
    assert q[..|cs[j].path|] == cs[j].path;
  }

  lemma RemovedAll(f: Fs, path: Path, parentName: Path, q: Path)
    requires WellFormed(f) && UniqueNames(f)
    requires Snapshot(f, path, parentName).rc.Success?
    requires q in f.tree && path < q
    ensures q in Removed(Snapshot(f, path, parentName).cs)
  {
    var cs := Snapshot(f, path, parentName).cs;
    SnapshotExactlyOnce(f, path, parentName);
    SnapshotShape(f, path, parentName);
    var r := Parent(q);
    assert Child(r, Last(q)) == q;
    assert r[..|path|] == q[..|path|];
    var j :| 0 <= j < |cs| && cs[j].path == r;
    EntsComplete(f, cs[j]);
    RemovedHas(cs, j, q);
  }

  /** `DeleteAllCollections` over a successful `get_collections` of a
      well-formed backend that fails nowhere below `path`, with nobody
      cancelling: every step succeeds (so each directory is empty when it
      is removed), everything strictly below `path` is gone, nothing else
      is, and `path` is left an empty directory. */
  lemma DeleteSnapshotSucceeds(s: Sys, v: Vol, path: Path, parentName: Path)
    requires WellFormed(FsOf(s, v)) && UniqueNames(FsOf(s, v))
    requires forall q :: q in FsOf(s, v).faulty ==> !(path < q)
    requires Snapshot(FsOf(s, v), path, parentName).rc.Success?
    requires NoCancel(s.ticks)
    ensures var f := FsOf(s, v);
      var o := Run(s, DeleteSteps(v, Snapshot(f, path, parentName).cs, ALL_ENTRIES));
      var g := FsOf(o.sys, v);
      && o.rc == Success
      && (forall q :: q in g.tree <==> q in f.tree && !(path < q))
      && IsDirAt(g.tree, path) && g.tree[path].names == []
  {
    var f := FsOf(s, v);
    var cs := Snapshot(f, path, parentName).cs;
    SnapshotPlan(f, path, parentName);
    RunDeleteSteps(s, v, f, {}, cs);
    SnapshotRemoved(f, path, parentName);
    SnapshotShape(f, path, parentName);
    var g := FsOf(Run(s, DeleteSteps(v, cs, ALL_ENTRIES)).sys, v);
    assert IsDirAt(f.tree, path);
    assert path in g.tree && KindOf(g.tree[path]) == DirKind;
    var n := FirstName(g.tree[path].names);
    assert Child(path, n)[..|path|] == path;
    assert n !in g.tree[path].names;
  }
}
