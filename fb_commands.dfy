/** The delete and paste commands of the file browser (`OnDeleteCallback`,
    `OnPasteCallback`) over the snapshot and step machinery of
    `FileTransfer`. */
module FileCommands {
  import opened FsBackend
  import opened FileTransfer

  /** The view a command runs in: its backend (`m_fs`) and directory
      (`m_path`). */
  datatype View = View(vol: Vol, path: Path)

  /** The selection stash (`m_selected`): the backend of the view it was made
      in, its directory, its entries, and whether it is a cut. */
  datatype Selection = Selection(vol: Vol, path: Path, files: seq<Entry>, cut: bool)

  /** `SameFs`: the selection was made on this view's backend. */
  predicate SameFs(sel: Selection, view: View) {
    sel.vol == view.vol
  }

  // ---------------------------------------------------------------------
  // Scanning the selection

  /** The scan loop: its state, its result, and the collections gathered. */
  datatype Scan = Scan(sys: Sys, rc: Status, cs: seq<Collection>)

  /** "build list of dirs / files": for each selected entry a `Yield` and a
      cancellation check; each directory's snapshot is appended, with the
      entry's own name as its relative name. */
  function Gather(s: Sys, v: Vol, base: Path, es: seq<Entry>): Scan
    decreases |es|
  {
    if es == [] then Scan(s, Success, [])
    else
      var t := Tick(s);
      if t.rc.Failure? then Scan(t.sys, t.rc, [])
      else if es[0].kind == DirKind then
        var h := Snapshot(FsOf(t.sys, v), base + [es[0].name], [es[0].name]);
        if h.rc.Failure? then Scan(t.sys, h.rc, h.cs)
        else
          var r := Gather(t.sys, v, base, es[1..]);
          Scan(r.sys, r.rc, h.cs + r.cs)
      else Gather(t.sys, v, base, es[1..])
  }

  function ScanGlue(done: seq<Collection>, r: Scan): Scan {
    Scan(r.sys, r.rc, done + r.cs)
  }

  lemma GatherCons(s: Sys, v: Vol, base: Path, es: seq<Entry>, i: nat)
    requires i < |es|
    ensures Gather(s, v, base, es[i..]) ==
      var t := Tick(s);
      if t.rc.Failure? then Scan(t.sys, t.rc, [])
      else if es[i].kind == DirKind then
        var h := Snapshot(FsOf(t.sys, v), base + [es[i].name], [es[i].name]);
        if h.rc.Failure? then Scan(t.sys, h.rc, h.cs)
        else ScanGlue(h.cs, Gather(t.sys, v, base, es[i + 1..]))
      else Gather(t.sys, v, base, es[i + 1..])
  {
    assert es[i..][0] == es[i] && es[i..][1..] == es[i + 1..];
  }

  lemma ScanGlueAssoc(a: seq<Collection>, b: seq<Collection>, r: Scan)
    ensures ScanGlue(a, ScanGlue(b, r)) == ScanGlue(a + b, r)
  {
    assert a + (b + r.cs) == (a + b) + r.cs;
  }

  /** The scan loop of both commands. */
  method CollectSelected(s: Sys, v: Vol, base: Path, es: seq<Entry>) returns (g: Scan)
    ensures g == Gather(s, v, base, es)
  {
    ghost var whole := Gather(s, v, base, es);
    var cur := s;
    var collections: seq<Collection> := [];
    var i := 0;
    while i < |es|
      invariant 0 <= i <= |es|
      invariant whole == ScanGlue(collections, Gather(cur, v, base, es[i..]))
    {
      GatherCons(cur, v, base, es, i);
      var t := Tick(cur);
      if t.rc.Failure? {
        return Scan(t.sys, t.rc, collections);
      }
      cur := t.sys;
      if es[i].kind == DirKind {
        var rc, out := GetCollections(FsOf(cur, v), base + [es[i].name], [es[i].name], collections);
        ghost var h := Snapshot(FsOf(cur, v), base + [es[i].name], [es[i].name]);
        if rc.Failure? {
          return Scan(cur, rc, out);
        }
        ScanGlueAssoc(collections, h.cs, Gather(cur, v, base, es[i + 1..]));
        collections := out;
      }
      i := i + 1;
    }
    assert es[i..] == [];
    g := Scan(cur, Success, collections);
  }

  /** The top-level relative names: one per selected directory. */
  function Roots(es: seq<Entry>): set<Path> {
    set e | e in es && e.kind == DirKind :: [e.name]
  }

  /** The scan only reads: the backends are as they were. */
  lemma {:induction false} GatherReads(s: Sys, v: Vol, base: Path, es: seq<Entry>)
    ensures Gather(s, v, base, es).sys.vols == s.vols
    decreases |es|
  {
    if es != [] {
      var t := Tick(s);
      if t.rc.Success? {
        GatherReads(t.sys, v, base, es[1..]);
      }
    }
  }

  /** The three facts of `GatherShape` hold of a concatenation. */
  lemma ShapeJoin(f: Fs, a: seq<Collection>, b: seq<Collection>, base: Path, names: seq<string>)
    requires Mirrors(a, base, []) && Under(a, base, names) && Faithful(f, a)
    requires Mirrors(b, base, []) && Under(b, base, names) && Faithful(f, b)
    ensures Mirrors(a + b, base, []) && Under(a + b, base, names) && Faithful(f, a + b)
  {
    var cs := a + b;
    forall i | 0 <= i < |cs| ensures cs[i] == if i < |a| then a[i] else b[i - |a|] {}
  }

  /** What the scan gathers: every collection lies below the selection's
      directory under one of the selected names, with that path below it as
      its relative name, and each is an exact listing of the backend. */
  lemma {:induction false} GatherShape(s: Sys, v: Vol, base: Path, es: seq<Entry>)
    ensures var g := Gather(s, v, base, es);
      Mirrors(g.cs, base, []) && Under(g.cs, base, Names(es)) && Faithful(FsOf(s, v), g.cs)
    decreases |es|
  {
    if es != [] {
      var t := Tick(s);
      var f := FsOf(s, v);
      assert FsOf(t.sys, v) == f;
      if t.rc.Success? {
        var r := Gather(t.sys, v, base, es[1..]);
        GatherShape(t.sys, v, base, es[1..]);
        assert Names(es[1..]) == Names(es)[1..];
        assert Under(r.cs, base, Names(es));
        if es[0].kind == DirKind {
          var d := es[0].name;
          var h := Snapshot(f, base + [d], [d]);
          SnapshotShape(f, base + [d], [d]);
          assert Names(es)[0] == d;
          HeadUnder(h.cs, base, [], d, Names(es));
          if h.rc.Success? {
            ShapeJoin(f, h.cs, r.cs, base, Names(es));
          }
        }
      }
    }
  }

  /** Every gathered collection hangs from a selected directory or from a
      directory of an earlier collection. */
  lemma {:induction false} GatherGrounded(s: Sys, v: Vol, base: Path, es: seq<Entry>)
    ensures Grounded(Gather(s, v, base, es).cs, Roots(es))
    decreases |es|
  {
    if es != [] {
      var t := Tick(s);
      if t.rc.Success? {
        var r := Gather(t.sys, v, base, es[1..]);
        GatherGrounded(t.sys, v, base, es[1..]);
        assert Roots(es[1..]) <= Roots(es) by {
          forall e | e in es[1..] ensures e in es {}
        }
        GroundedMono(r.cs, Roots(es[1..]), Roots(es));
        if es[0].kind == DirKind {
          var d := es[0].name;
          assert es[0] in es;
          var h := Snapshot(FsOf(t.sys, v), base + [d], [d]);
          SnapshotGrounded(FsOf(t.sys, v), base + [d], [d], Roots(es));
          if h.rc.Success? {
            GroundedAppend(h.cs, r.cs, Roots(es));
          }
        }
      }
    }
  }

  /** A snapshot of `base + [d]` lies below `base`, under `d`. */
  lemma SnapshotUnder(f: Fs, base: Path, d: string)
    ensures Under(Snapshot(f, base + [d], [d]).cs, base, [d])
  {
    SnapshotShape(f, base + [d], [d]);
    HeadUnder(Snapshot(f, base + [d], [d]).cs, base, [], d, [d]);
  }

  lemma FirstNameFresh(es: seq<Entry>)
    requires es != [] && DistinctNames(es)
    ensures es[0].name !in Names(es[1..]) && DistinctNames(es[1..])
  {
    forall k | 0 <= k < |es| - 1 ensures Names(es[1..])[k] != es[0].name {
      assert Names(es[1..])[k] == es[k + 1].name;
    }
  }

  lemma SiblingsJoin(a: seq<Collection>, b: seq<Collection>, base: Path, d: string, names: seq<string>)
    requires PreOrdered(a) && PreOrdered(b)
    requires Under(a, base, [d]) && Under(b, base, names) && d !in names
    ensures PreOrdered(a + b)
  {
    SiblingsApart(a, b, base, d, names);
    PreOrderedJoin(a, b);
  }

  /** With distinct names in the backend and in the selection, the gathered
      collections are in pre-order. */
  lemma {:induction false} GatherPreOrdered(s: Sys, v: Vol, base: Path, es: seq<Entry>)
    requires UniqueNames(FsOf(s, v)) && DistinctNames(es)
    ensures PreOrdered(Gather(s, v, base, es).cs)
    decreases |es|
  {
    if es != [] {
      var t := Tick(s);
      var f := FsOf(s, v);
      assert FsOf(t.sys, v) == f;
      FirstNameFresh(es);
      if t.rc.Success? {
        var r := Gather(t.sys, v, base, es[1..]);
        GatherPreOrdered(t.sys, v, base, es[1..]);
        if es[0].kind == DirKind {
          var d := es[0].name;
          var h := Snapshot(f, base + [d], [d]);
          SnapshotPreOrdered(f, base + [d], [d]);
          if h.rc.Success? {
            SnapshotUnder(f, base, d);
            GatherShape(t.sys, v, base, es[1..]);
            SiblingsJoin(h.cs, r.cs, base, d, Names(es[1..]));
          }
        }
      }
    }
  }

  // ---------------------------------------------------------------------
  // Delete

  /** `OnDeleteCallback`. One selected file, or one selected directory that
      `IsDirEmpty` reports empty, is deleted by a single call on the view's
      own backend (`m_fs`), with no progress box and no cancellation check.
      Otherwise the selection's backend is scanned and everything is deleted
      by `DeleteAllCollectionsWithSelected`. */
  function Delete(s: Sys, view: View, sel: Selection): Outcome {
    if |sel.files| == 1 && sel.files[0].kind == DirKind
       && IsDirEmpty(FsOf(s, view.vol), sel.path + [sel.files[0].name]) == Ok(true) then
      Apply(s, view.vol, DeleteDirectory(FsOf(s, view.vol), sel.path + [sel.files[0].name]))
    else if |sel.files| == 1 && sel.files[0].kind == FileKind then
      Apply(s, view.vol, DeleteFile(FsOf(s, view.vol), sel.path + [sel.files[0].name]))
    else
      var g := Gather(s, sel.vol, sel.path, sel.files);
      if g.rc.Failure? then Outcome(g.sys, g.rc)
      else Run(g.sys, WithSelectedSteps(sel.vol, sel.path, sel.files, g.cs, ALL_ENTRIES))
  }

  /** The single-call case of `OnDeleteCallback`. */
  predicate DeleteIsDirect(s: Sys, view: View, sel: Selection) {
    |sel.files| == 1 &&
    (sel.files[0].kind == FileKind ||
     IsDirEmpty(FsOf(s, view.vol), sel.path + [sel.files[0].name]) == Ok(true))
  }

  /** `OnDeleteCallback`. */
  method OnDeleteCallback(s: Sys, view: View, sel: Selection) returns (o: Outcome)
    ensures o == Delete(s, view, sel)
  {
    var useProgressBox := true;
    if |sel.files| == 1 {
      var entry := sel.files[0];
      var full := sel.path + [entry.name];
      if entry.kind == DirKind {
        var empty := IsDirEmpty(FsOf(s, view.vol), full);
        if empty == Ok(true) {
          o := Apply(s, view.vol, DeleteDirectory(FsOf(s, view.vol), full));
          useProgressBox := false;
        }
      } else {
        o := Apply(s, view.vol, DeleteFile(FsOf(s, view.vol), full));
        useProgressBox := false;
      }
    }
    if useProgressBox {
      var g := CollectSelected(s, sel.vol, sel.path, sel.files);
      if g.rc.Failure? {
        return Outcome(g.sys, g.rc);
      }
      o := DeleteAllCollectionsWithSelected(g.sys, sel.vol, sel.path, sel.files, g.cs, ALL_ENTRIES);
    }
  }

  /** The direct case: exactly one backend call on the view's backend, no
      cancellation answer consumed. */
  lemma DeleteDirect(s: Sys, view: View, sel: Selection)
    requires DeleteIsDirect(s, view, sel)
    ensures var full := sel.path + [sel.files[0].name];
      var f := FsOf(s, view.vol);
      Delete(s, view, sel) ==
        Apply(s, view.vol, if sel.files[0].kind == FileKind then DeleteFile(f, full) else DeleteDirectory(f, full))
    ensures Delete(s, view, sel).sys.ticks == s.ticks
  {
  }

  /** The general case: every deletion comes after everything below it, and
      the scan changed nothing. This needs distinct names in the backend and
      in the selection, as a directory listing gives. */
  lemma DeleteChildrenFirst(s: Sys, view: View, sel: Selection)
    requires !DeleteIsDirect(s, view, sel)
    requires UniqueNames(FsOf(s, sel.vol)) && DistinctNames(sel.files)
    ensures var g := Gather(s, sel.vol, sel.path, sel.files);
      var steps := WithSelectedSteps(sel.vol, sel.path, sel.files, g.cs, ALL_ENTRIES);
      && g.sys.vols == s.vols
      && (g.rc.Success? ==> Delete(s, view, sel) == Run(g.sys, steps))
      && ChildrenFirst(steps)
  {
    var g := Gather(s, sel.vol, sel.path, sel.files);
    GatherReads(s, sel.vol, sel.path, sel.files);
    GatherShape(s, sel.vol, sel.path, sel.files);
    GatherPreOrdered(s, sel.vol, sel.path, sel.files);
    WithSelectedChildrenFirst(sel.vol, sel.path, sel.files, g.cs, ALL_ENTRIES);
  }

  /** None of the entries `es` of `base` is there, and the backend does not
      fail on them. */
  predicate Missing(f: Fs, base: Path, es: seq<Entry>) {
    forall i :: 0 <= i < |es| ==> base + [es[i].name] !in f.tree && base + [es[i].name] !in f.faulty
  }

  lemma MissingTail(f: Fs, base: Path, es: seq<Entry>)
    requires es != [] && Missing(f, base, es)
    ensures Missing(f, base, es[1..])
  {
    forall i | 0 <= i < |es| - 1 ensures base + [es[1..][i].name] !in f.tree && base + [es[1..][i].name] !in f.faulty {
      assert es[1..][i] == es[i + 1];
    }
  }

  /** The scan of missing entries either finds no directory to walk or
      reports the first one missing. */
  lemma {:induction false} GatherMissing(s: Sys, v: Vol, base: Path, es: seq<Entry>)
    requires NoCancel(s.ticks) && Missing(FsOf(s, v), base, es)
    ensures var g := Gather(s, v, base, es);
      && (g.rc.Success? || g.rc == Failure(NotFound))
      && (g.rc.Success? ==> g.cs == [] && NoCancel(g.sys.ticks))
    decreases |es|
  {
    if es != [] {
      TickNoCancel(s);
      var t := Tick(s);
      assert FsOf(t.sys, v) == FsOf(s, v);
      if es[0].kind == FileKind {
        MissingTail(FsOf(s, v), base, es);
        GatherMissing(t.sys, v, base, es[1..]);
      }
    }
  }

  /** A deletion loop whose first entry is missing stops there: the entry
      is not found. */
  lemma EntriesMissingFail(s: Sys, v: Vol, base: Path, es: seq<Entry>)
    requires es != [] && NoCancel(s.ticks) && Missing(FsOf(s, v), base, es)
    ensures Run(s, EntrySteps(v, base, es, ALL_ENTRIES)).rc == Failure(NotFound)
  {
    TickNoCancel(s);
    assert FsOf(Tick(s).sys, v) == FsOf(s, v);
  }

  /** Deleting a selection none of whose entries is there any more reports
      that it is not found, whichever path `OnDeleteCallback` takes. */
  lemma DeleteMissingFails(s: Sys, view: View, sel: Selection)
    requires sel.files != [] && SameFs(sel, view) && NoCancel(s.ticks)
    requires Missing(FsOf(s, sel.vol), sel.path, sel.files)
    ensures Delete(s, view, sel).rc == Failure(NotFound)
  {
    var g := Gather(s, sel.vol, sel.path, sel.files);
    GatherMissing(s, sel.vol, sel.path, sel.files);
    GatherReads(s, sel.vol, sel.path, sel.files);
    if g.rc.Success? {
      assert WithSelectedSteps(sel.vol, sel.path, sel.files, g.cs, ALL_ENTRIES)
        == EntrySteps(sel.vol, sel.path, sel.files, ALL_ENTRIES);
      assert FsOf(g.sys, sel.vol) == FsOf(s, sel.vol);
      EntriesMissingFail(g.sys, sel.vol, sel.path, sel.files);
    }
  }

  /** A deletion loop that succeeds leaves none of its entries behind; the
      backend only loses paths and keeps its faulty ones. */
  lemma {:induction false} EntriesRemoved(s: Sys, v: Vol, base: Path, es: seq<Entry>)
    requires Run(s, EntrySteps(v, base, es, ALL_ENTRIES)).rc == Success
    ensures var g := FsOf(Run(s, EntrySteps(v, base, es, ALL_ENTRIES)).sys, v);
      && g.faulty == FsOf(s, v).faulty
      && (forall q :: q in g.tree ==> q in FsOf(s, v).tree)
      && Missing(g, base, es)
    decreases |es|
  {
    var steps := EntrySteps(v, base, es, ALL_ENTRIES);
    if es != [] {
      var t := Tick(s);
      assert FsOf(t.sys, v) == FsOf(s, v);
      var p := base + [es[0].name];
      assert steps[0] == DeleteStep(v, p, es[0].kind, ALL_ENTRIES);
      var e := Exec(t.sys, steps[0]);
      assert p !in FsOf(e.sys, v).tree && p !in FsOf(e.sys, v).faulty;
      assert FsOf(e.sys, v).faulty == FsOf(s, v).faulty;
      assert forall q :: q in FsOf(e.sys, v).tree ==> q in FsOf(s, v).tree;
      assert steps[1..] == EntrySteps(v, base, es[1..], ALL_ENTRIES);
      EntriesRemoved(e.sys, v, base, es[1..]);
      var g := FsOf(Run(s, steps).sys, v);
      forall i | 0 <= i < |es| ensures base + [es[i].name] !in g.tree && base + [es[i].name] !in g.faulty {
        if i > 0 {
          assert es[1..][i - 1] == es[i];
        }
      }
    }
  }

  /** After a successful delete, none of the selected entries is there. */
  lemma DeleteRemovesSelection(s: Sys, view: View, sel: Selection)
    requires SameFs(sel, view) && Delete(s, view, sel).rc == Success
    ensures Missing(FsOf(Delete(s, view, sel).sys, sel.vol), sel.path, sel.files)
  {
    if !DeleteIsDirect(s, view, sel) {
      var g := Gather(s, sel.vol, sel.path, sel.files);
      var d := DeleteSteps(sel.vol, g.cs, ALL_ENTRIES);
      var e := EntrySteps(sel.vol, sel.path, sel.files, ALL_ENTRIES);
      RunAppend(g.sys, d, e);
      EntriesRemoved(Run(g.sys, d).sys, sel.vol, sel.path, sel.files);
    }
  }

  /** Deleting the same selection twice: the second delete reports that its
      entries are not found. */
  lemma DeleteTwiceFails(s: Sys, view: View, sel: Selection)
    requires sel.files != [] && SameFs(sel, view)
    requires Delete(s, view, sel).rc == Success && NoCancel(Delete(s, view, sel).sys.ticks)
    ensures Delete(Delete(s, view, sel).sys, view, sel).rc == Failure(NotFound)
  {
    DeleteRemovesSelection(s, view, sel);
    DeleteMissingFails(Delete(s, view, sel).sys, view, sel);
  }

  // ---------------------------------------------------------------------
  // Paste

  /** The selection loop of the general paste: a directory is created at
      `m_path/name`, a file is copied there (and, for a cut, handed to
      `on_paste_file`). */
  function PasteEntries(sel: Selection, view: View, es: seq<Entry>): seq<Step>
    decreases |es|
  {
    if es == [] then []
    else
      var e := es[0];
      var step := if e.kind == DirKind then CreateStep(view.vol, view.path + [e.name])
                  else CopyStep(sel.vol, sel.path + [e.name], view.vol, view.path + [e.name], sel.cut);
      [step] + PasteEntries(sel, view, es[1..])
  }

  /** The directories of one collection, created below `base`. */
  function MakeDirs(v: Vol, base: Path, ds: seq<Entry>): seq<Step>
    decreases |ds|
  {
    if ds == [] then [] else [CreateStep(v, base + [ds[0].name])] + MakeDirs(v, base, ds[1..])
  }

  /** The files of one collection, copied from `from` to `base`. */
  function CopyFiles(sel: Selection, v: Vol, from: Path, base: Path, fs: seq<Entry>): seq<Step>
    decreases |fs|
  {
    if fs == [] then []
    else [CopyStep(sel.vol, from + [fs[0].name], v, base + [fs[0].name], sel.cut)] + CopyFiles(sel, v, from, base, fs[1..])
  }

  /** One collection: its directories, then its files, into
      `m_path/parent_name`. */
  function CollectionPaste(sel: Selection, view: View, c: Collection): seq<Step> {
    MakeDirs(view.vol, view.path + c.parentName, c.dirs)
      + CopyFiles(sel, view.vol, c.path, view.path + c.parentName, c.files)
  }

  /** The collections in capture order. */
  function CollectionsPaste(sel: Selection, view: View, cs: seq<Collection>): seq<Step>
    decreases |cs|
  {
    if cs == [] then [] else CollectionPaste(sel, view, cs[0]) + CollectionsPaste(sel, view, cs[1..])
  }

  /** Everything the general paste creates and copies, in order. */
  function CopySteps(sel: Selection, view: View, cs: seq<Collection>): seq<Step> {
    PasteEntries(sel, view, sel.files) + CollectionsPaste(sel, view, cs)
  }

  /** The same-backend cut: one rename per entry, to `m_path/name`. */
  function RenameSteps(sel: Selection, view: View, es: seq<Entry>): seq<Step>
    decreases |es|
  {
    if es == [] then []
    else
      var e := es[0];
      [RenameStep(view.vol, sel.path + [e.name], view.path + [e.name], e.kind)] + RenameSteps(sel, view, es[1..])
  }

  /** `OnPasteCallback`. A same-backend cut of one entry is one rename on the
      view's backend, with no progress box; a same-backend cut of several is a
      loop of renames. Otherwise the selection is scanned; the selected
      entries, then the collections, are created and copied; and for a cut
      the source directories are removed by a directories-only deletion pass.
      The results of the renames and of `CreateDirectory` are ignored. */
  function Paste(s: Sys, view: View, sel: Selection): Outcome {
    if SameFs(sel, view) && |sel.files| == 1 && sel.cut then
      var e := sel.files[0];
      Outcome(Apply(s, view.vol, Rename(FsOf(s, view.vol), sel.path + [e.name], view.path + [e.name], e.kind)).sys, Success)
    else if SameFs(sel, view) && sel.cut then Run(s, RenameSteps(sel, view, sel.files))
    else
      var g := Gather(s, sel.vol, sel.path, sel.files);
      if g.rc.Failure? then Outcome(g.sys, g.rc)
      else
        var o := Run(g.sys, CopySteps(sel, view, g.cs));
        if o.rc.Failure? || !sel.cut then o
        else Run(o.sys, WithSelectedSteps(sel.vol, sel.path, sel.files, g.cs, DIRS_ONLY))
  }

  lemma RunConsAt(s: Sys, steps: seq<Step>, rest: seq<Step>, st: Step)
    requires steps == [st] + rest
    ensures Run(s, steps) ==
      var t := Tick(s);
      if t.rc.Failure? then t
      else
        var e := Exec(t.sys, st);
        if e.rc.Failure? then e else Run(e.sys, rest)
  {
    assert steps[0] == st && steps[1..] == rest;
  }

  /** `on_paste_file` after a successful `CopyFile`. */
  method OnPasteFile(s: Sys, src: Vol, from: Path, dst: Vol, to: Path, cut: bool) returns (o: Outcome)
    requires Apply(s, dst, CopyFile(FsOf(s, src), FsOf(s, dst), from, to)).rc.Success?
    ensures o == PasteFile(s, src, from, dst, to, cut)
  {
    var cur := Apply(s, dst, CopyFile(FsOf(s, src), FsOf(s, dst), from, to)).sys;
    if cut {
      if !FsOf(cur, dst).native {
        var ts := GetStamp(FsOf(cur, src), from);
        if ts.Ok? {
          cur := Apply(cur, dst, SetStamp(FsOf(cur, dst), to, ts.value)).sys;
        }
      }
      o := Apply(cur, src, DeleteFile(FsOf(cur, src), from));
    } else {
      o := Outcome(cur, Success);
    }
  }

  /** The selection loop of the general paste. */
  method PasteSelected(s: Sys, view: View, sel: Selection) returns (o: Outcome)
    ensures o == Run(s, PasteEntries(sel, view, sel.files))
  {
    var es := sel.files;
    var cur := s;
    var i := 0;
    while i < |es|
      invariant 0 <= i <= |es|
      invariant Run(s, PasteEntries(sel, view, es)) == Run(cur, PasteEntries(sel, view, es[i..]))
    {
      var e := es[i];
      assert es[i..][0] == e && es[i..][1..] == es[i + 1..];
      var t := Tick(cur);
      if t.rc.Failure? {
        return t;
      }
      cur := t.sys;
      var src := sel.path + [e.name];
      var dst := view.path + [e.name];
      if e.kind == DirKind {
        cur := Apply(cur, view.vol, CreateDirectory(FsOf(cur, view.vol), dst)).sys;
      } else {
        o := Apply(cur, view.vol, CopyFile(FsOf(cur, sel.vol), FsOf(cur, view.vol), src, dst));
        if o.rc.Failure? {
          return;
        }
        o := OnPasteFile(cur, sel.vol, src, view.vol, dst, sel.cut);
        if o.rc.Failure? {
          return;
        }
        cur := o.sys;
      }
      i := i + 1;
    }
    assert es[i..] == [];
    o := Outcome(cur, Success);
  }

  /** The directory loop of one collection. */
  method MakeDirsLoop(s: Sys, v: Vol, base: Path, ds: seq<Entry>) returns (o: Outcome)
    ensures o == Run(s, MakeDirs(v, base, ds))
  {
    var cur := s;
    var i := 0;
    while i < |ds|
      invariant 0 <= i <= |ds|
      invariant Run(s, MakeDirs(v, base, ds)) == Run(cur, MakeDirs(v, base, ds[i..]))
    {
      assert ds[i..][0] == ds[i] && ds[i..][1..] == ds[i + 1..];
      var t := Tick(cur);
      if t.rc.Failure? {
        return t;
      }
      cur := Apply(t.sys, v, CreateDirectory(FsOf(t.sys, v), base + [ds[i].name])).sys;
      i := i + 1;
    }
    assert ds[i..] == [];
    o := Outcome(cur, Success);
  }

  /** The file loop of one collection. */
  method CopyFilesLoop(s: Sys, sel: Selection, v: Vol, from: Path, base: Path, fs: seq<Entry>) returns (o: Outcome)
    ensures o == Run(s, CopyFiles(sel, v, from, base, fs))
  {
    var cur := s;
    var i := 0;
    while i < |fs|
      invariant 0 <= i <= |fs|
      invariant Run(s, CopyFiles(sel, v, from, base, fs)) == Run(cur, CopyFiles(sel, v, from, base, fs[i..]))
    {
      assert fs[i..][0] == fs[i] && fs[i..][1..] == fs[i + 1..];
      var t := Tick(cur);
      if t.rc.Failure? {
        return t;
      }
      cur := t.sys;
      var src := from + [fs[i].name];
      var dst := base + [fs[i].name];
      o := Apply(cur, v, CopyFile(FsOf(cur, sel.vol), FsOf(cur, v), src, dst));
      if o.rc.Failure? {
        return;
      }
      o := OnPasteFile(cur, sel.vol, src, v, dst, sel.cut);
      if o.rc.Failure? {
        return;
      }
      cur := o.sys;
      i := i + 1;
    }
    assert fs[i..] == [];
    o := Outcome(cur, Success);
  }

  /** "copy everything in collections". */
  method PasteCollections(s: Sys, view: View, sel: Selection, cs: seq<Collection>) returns (o: Outcome)
    ensures o == Run(s, CollectionsPaste(sel, view, cs))
  {
    var cur := s;
    var i := 0;
    while i < |cs|
      invariant 0 <= i <= |cs|
      invariant Run(s, CollectionsPaste(sel, view, cs)) == Run(cur, CollectionsPaste(sel, view, cs[i..]))
    {
      var c := cs[i];
      assert cs[i..][0] == c && cs[i..][1..] == cs[i + 1..];
      var base := view.path + c.parentName;
      RunAppend(cur, CollectionPaste(sel, view, c), CollectionsPaste(sel, view, cs[i + 1..]));
      RunAppend(cur, MakeDirs(view.vol, base, c.dirs), CopyFiles(sel, view.vol, c.path, base, c.files));
      o := MakeDirsLoop(cur, view.vol, base, c.dirs);
      if o.rc.Failure? {
        return;
      }
      o := CopyFilesLoop(o.sys, sel, view.vol, c.path, base, c.files);
      if o.rc.Failure? {
        return;
      }
      cur := o.sys;
      i := i + 1;
    }
    assert cs[i..] == [];
    o := Outcome(cur, Success);
  }

  /** The rename loop of a same-backend cut. */
  method RenameAll(s: Sys, view: View, sel: Selection) returns (o: Outcome)
    ensures o == Run(s, RenameSteps(sel, view, sel.files))
  {
    var es := sel.files;
    var cur := s;
    var i := 0;
    while i < |es|
      invariant 0 <= i <= |es|
      invariant Run(s, RenameSteps(sel, view, es)) == Run(cur, RenameSteps(sel, view, es[i..]))
    {
      var e := es[i];
      assert es[i..][0] == e && es[i..][1..] == es[i + 1..];
      var t := Tick(cur);
      if t.rc.Failure? {
        return t;
      }
      var src := sel.path + [e.name];
      var dst := view.path + [e.name];
      if e.kind == DirKind {
        cur := Apply(t.sys, view.vol, Rename(FsOf(t.sys, view.vol), src, dst, DirKind)).sys;
      } else {
        cur := Apply(t.sys, view.vol, Rename(FsOf(t.sys, view.vol), src, dst, FileKind)).sys;
      }
      i := i + 1;
    }
    assert es[i..] == [];
    o := Outcome(cur, Success);
  }

  /** `OnPasteCallback`. */
  method OnPasteCallback(s: Sys, view: View, sel: Selection) returns (o: Outcome)
    ensures o == Paste(s, view, sel)
  {
    if SameFs(sel, view) && |sel.files| == 1 && sel.cut {
      var e := sel.files[0];
      var full := sel.path + [e.name];
      var r;
      if e.kind == DirKind {
        r := Apply(s, view.vol, Rename(FsOf(s, view.vol), full, view.path + [e.name], DirKind));
      } else {
        r := Apply(s, view.vol, Rename(FsOf(s, view.vol), full, view.path + [e.name], FileKind));
      }
      return Outcome(r.sys, Success);
    }
    if SameFs(sel, view) && sel.cut {
      o := RenameAll(s, view, sel);
      return;
    }
    var g := CollectSelected(s, sel.vol, sel.path, sel.files);
    if g.rc.Failure? {
      return Outcome(g.sys, g.rc);
    }
    RunAppend(g.sys, PasteEntries(sel, view, sel.files), CollectionsPaste(sel, view, g.cs));
    o := PasteSelected(g.sys, view, sel);
    if o.rc.Failure? {
      return;
    }
    o := PasteCollections(o.sys, view, sel, g.cs);
    if o.rc.Failure? {
      return;
    }
    if sel.cut {
      o := DeleteAllCollectionsWithSelected(o.sys, sel.vol, sel.path, sel.files, g.cs, DIRS_ONLY);
    }
  }

  // ---------------------------------------------------------------------
  // What a paste promises

  /** The same-backend cut of one entry: a single rename on the view's
      backend; nothing else changes and no cancellation check is made. */
  lemma PasteSingleRename(s: Sys, view: View, sel: Selection)
    requires SameFs(sel, view) && |sel.files| == 1 && sel.cut
    ensures var o := Paste(s, view, sel);
      var e := sel.files[0];
      var r := Rename(FsOf(s, view.vol), sel.path + [e.name], view.path + [e.name], e.kind);
      && o.rc == Success
      && o.sys.ticks == s.ticks
      && FsOf(o.sys, view.vol) == (if r.Ok? then r.value else FsOf(s, view.vol))
      && (forall v :: v != view.vol ==> FsOf(o.sys, v) == FsOf(s, v))
  {
  }

  /** `RenameSteps` renames each selected entry, in order, to the same name
      under the view's directory. */
  lemma {:induction false} RenameStepsAre(sel: Selection, view: View, es: seq<Entry>)
    ensures |RenameSteps(sel, view, es)| == |es|
    ensures forall k :: 0 <= k < |es| ==>
      RenameSteps(sel, view, es)[k] == RenameStep(view.vol, sel.path + [es[k].name], view.path + [es[k].name], es[k].kind)
    decreases |es|
  {
    if es != [] {
      RenameStepsAre(sel, view, es[1..]);
      var r := RenameSteps(sel, view, es);
      forall k | 1 <= k < |es|
        ensures r[k] == RenameStep(view.vol, sel.path + [es[k].name], view.path + [es[k].name], es[k].kind)
      {
        assert r[k] == RenameSteps(sel, view, es[1..])[k - 1];
        assert es[1..][k - 1] == es[k];
      }
    }
  }

  /** A same-backend cut of several entries is a loop of renames, one per
      entry; a failed rename does not stop it, only a cancellation does. */
  lemma PasteRenames(s: Sys, view: View, sel: Selection)
    requires SameFs(sel, view) && sel.cut && |sel.files| != 1
    ensures var steps := RenameSteps(sel, view, sel.files);
      && Paste(s, view, sel) == Run(s, steps)
      && |steps| == |sel.files|
      && (forall k :: 0 <= k < |sel.files| ==>
            steps[k] == RenameStep(view.vol, sel.path + [sel.files[k].name], view.path + [sel.files[k].name], sel.files[k].kind))
      && Paste(s, view, sel).rc == if CancelledWithin(s.ticks, |sel.files|) then Failure(Cancelled) else Success
  {
    RenameStepsAre(sel, view, sel.files);
    LenientRun(s, RenameSteps(sel, view, sel.files));
  }

  /** Copying one file to another backend. A failed copy changes nothing. A
      copy leaves the source as it was. A successful move leaves a file of the
      source's size at `to`, carrying the source's time stamp when the
      destination is not native, and removes the source. */
  lemma PasteFileMoves(s: Sys, src: Vol, from: Path, dst: Vol, to: Path, cut: bool)
    requires src != dst
    ensures var o := PasteFile(s, src, from, dst, to, cut);
      var c := CopyFile(FsOf(s, src), FsOf(s, dst), from, to);
      && (o.rc.Success? <==> c.Ok? && (!cut || from != []))
      && (c.Err? ==> o == Outcome(s, Failure(c.error)))
      && (c.Ok? && !cut ==> FsOf(o.sys, src) == FsOf(s, src) && FsOf(o.sys, dst) == c.value)
      && (o.rc.Success? && cut ==>
            && IsFileAt(FsOf(o.sys, dst).tree, to)
            && FsOf(o.sys, dst).tree[to].size == FsOf(s, src).tree[from].size
            && (!FsOf(s, dst).native ==> FsOf(o.sys, dst).tree[to].stamp == FsOf(s, src).tree[from].stamp)
            && from !in FsOf(o.sys, src).tree)
      && o.sys.ticks == s.ticks
      && (forall v :: v != src && v != dst ==> FsOf(o.sys, v) == FsOf(s, v))
  {
  }

  /** Every copy lands in a directory of the destination `dv` that is in
      `made` or that an earlier step created there. */
  predicate CreatesFirst(dv: Vol, steps: seq<Step>, made: set<Path>)
    decreases |steps|
  {
    steps == [] ||
    match steps[0]
    case CreateStep(v, p) => CreatesFirst(dv, steps[1..], if v == dv then made + {p} else made)
    case CopyStep(_, _, v, to, _) => v == dv && to != [] && Parent(to) in made && CreatesFirst(dv, steps[1..], made)
    case _ => CreatesFirst(dv, steps[1..], made)
  }

  /** The directories `steps` create on `dv`. */
  function Created(dv: Vol, steps: seq<Step>): set<Path>
    decreases |steps|
  {
    if steps == [] then {}
    else (if steps[0].CreateStep? && steps[0].vol == dv then {steps[0].path} else {}) + Created(dv, steps[1..])
  }

  lemma {:induction false} CreatesFirstMono(dv: Vol, steps: seq<Step>, a: set<Path>, b: set<Path>)
    requires CreatesFirst(dv, steps, a) && a <= b
    ensures CreatesFirst(dv, steps, b)
    decreases |steps|
  {
    if steps != [] {
      match steps[0]
      case CreateStep(v, p) =>
        CreatesFirstMono(dv, steps[1..], if v == dv then a + {p} else a, if v == dv then b + {p} else b);
      case CopyStep(_, _, _, _, _) =>
        CreatesFirstMono(dv, steps[1..], a, b);
      case DeleteStep(_, _, _, _) =>
        CreatesFirstMono(dv, steps[1..], a, b);
      case RenameStep(_, _, _, _) =>
        CreatesFirstMono(dv, steps[1..], a, b);
    }
  }

  lemma {:induction false} CreatesFirstAppend(dv: Vol, a: seq<Step>, b: seq<Step>, made: set<Path>)
    requires CreatesFirst(dv, a, made) && CreatesFirst(dv, b, made + Created(dv, a))
    ensures CreatesFirst(dv, a + b, made)
    ensures Created(dv, a + b) == Created(dv, a) + Created(dv, b)
    decreases |a|
  {
    if a == [] {
      assert a + b == b;
      assert made + Created(dv, a) == made;
    } else {
      assert (a + b)[0] == a[0] && (a + b)[1..] == a[1..] + b;
      var m := if a[0].CreateStep? && a[0].vol == dv then made + {a[0].path} else made;
      assert made + Created(dv, a) == m + Created(dv, a[1..]);
      CreatesFirstAppend(dv, a[1..], b, m);
    }
  }

  lemma ParentOf(p: Path, n: string)
    ensures p + [n] != [] && Parent(p + [n]) == p
  {
    assert (p + [n])[..|p|] == p;
  }

  /** The selection loop creates each selected directory under the view's
      directory and copies each file into it. */
  lemma {:induction false} PasteEntriesCreateFirst(sel: Selection, view: View, es: seq<Entry>, made: set<Path>)
    requires view.path in made
    ensures CreatesFirst(view.vol, PasteEntries(sel, view, es), made)
    ensures forall e :: e in es && e.kind == DirKind ==> view.path + [e.name] in Created(view.vol, PasteEntries(sel, view, es))
    decreases |es|
  {
    if es != [] {
      var e := es[0];
      var steps := PasteEntries(sel, view, es);
      assert steps[1..] == PasteEntries(sel, view, es[1..]);
      ParentOf(view.path, e.name);
      var m := if e.kind == DirKind then made + {view.path + [e.name]} else made;
      PasteEntriesCreateFirst(sel, view, es[1..], m);
      forall x | x in es && x.kind == DirKind
        ensures view.path + [x.name] in Created(view.vol, steps)
      {
        if x != e {
          assert x in es[1..];
        }
      }
    }
  }

  /** One collection's directories, created on `v` below `base`. */
  lemma {:induction false} MakeDirsCreate(v: Vol, base: Path, ds: seq<Entry>, made: set<Path>)
    ensures CreatesFirst(v, MakeDirs(v, base, ds), made)
    ensures forall d :: d in ds ==> base + [d.name] in Created(v, MakeDirs(v, base, ds))
    decreases |ds|
  {
    if ds != [] {
      var steps := MakeDirs(v, base, ds);
      assert steps[1..] == MakeDirs(v, base, ds[1..]);
      MakeDirsCreate(v, base, ds[1..], made + {base + [ds[0].name]});
      forall d | d in ds ensures base + [d.name] in Created(v, steps) {
        if d != ds[0] {
          assert d in ds[1..];
        }
      }
    }
  }

  /** One collection's files, copied into `base`, which already exists. */
  lemma {:induction false} CopyFilesCreate(sel: Selection, v: Vol, from: Path, base: Path, fs: seq<Entry>, made: set<Path>)
    requires base in made
    ensures CreatesFirst(v, CopyFiles(sel, v, from, base, fs), made)
    ensures Created(v, CopyFiles(sel, v, from, base, fs)) == {}
    decreases |fs|
  {
    if fs != [] {
      var steps := CopyFiles(sel, v, from, base, fs);
      assert steps[1..] == CopyFiles(sel, v, from, base, fs[1..]);
      ParentOf(base, fs[0].name);
      CopyFilesCreate(sel, v, from, base, fs[1..], made);
    }
  }

  /** Every name in `known` is already a directory under the view. */
  predicate Covers(made: set<Path>, root: Path, known: set<Path>) {
    forall r :: r in known ==> root + r in made
  }

  lemma CollectionCreate(sel: Selection, view: View, c: Collection, made: set<Path>)
    requires view.path + c.parentName in made
    ensures CreatesFirst(view.vol, CollectionPaste(sel, view, c), made)
    ensures forall k :: k in Kids(c) ==> view.path + k in Created(view.vol, CollectionPaste(sel, view, c))
  {
    var base := view.path + c.parentName;
    var mk := MakeDirs(view.vol, base, c.dirs);
    var cp := CopyFiles(sel, view.vol, c.path, base, c.files);
    MakeDirsCreate(view.vol, base, c.dirs, made);
    CopyFilesCreate(sel, view.vol, c.path, base, c.files, made + Created(view.vol, mk));
    CreatesFirstAppend(view.vol, mk, cp, made);
    forall k | k in Kids(c) ensures view.path + k in Created(view.vol, mk + cp) {
      var d :| d in c.dirs && k == c.parentName + [d.name];
      assert view.path + k == base + [d.name];
    }
  }

  /** The collections, pasted in capture order, only ever copy into
      directories created before. */
  lemma {:induction false} CollectionsCreate(sel: Selection, view: View, cs: seq<Collection>, known: set<Path>, made: set<Path>)
    requires Grounded(cs, known) && Covers(made, view.path, known)
    ensures CreatesFirst(view.vol, CollectionsPaste(sel, view, cs), made)
    decreases |cs|
  {
    if cs != [] {
      var c := cs[0];
      var head := CollectionPaste(sel, view, c);
      CollectionCreate(sel, view, c, made);
      var m := made + Created(view.vol, head);
      assert Covers(m, view.path, known + Kids(c));
      CollectionsCreate(sel, view, cs[1..], known + Kids(c), m);
      CreatesFirstAppend(view.vol, head, CollectionsPaste(sel, view, cs[1..]), made);
    }
  }

  /** The copies of a paste go into directories made before them, given
      that the collections hang off the selected directories. */
  lemma CopyStepsCreateFirst(sel: Selection, view: View, cs: seq<Collection>)
    requires Grounded(cs, Roots(sel.files))
    ensures CreatesFirst(view.vol, CopySteps(sel, view, cs), {view.path})
  {
    var own := PasteEntries(sel, view, sel.files);
    PasteEntriesCreateFirst(sel, view, sel.files, {view.path});
    assert Covers({view.path} + Created(view.vol, own), view.path, Roots(sel.files));
    CollectionsCreate(sel, view, cs, Roots(sel.files), {view.path} + Created(view.vol, own));
    CreatesFirstAppend(view.vol, own, CollectionsPaste(sel, view, cs), {view.path});
  }

  /** A paste that is not a same-backend cut. The scan only reads. The paste
      is one loop: the selected entries and the collections are created and
      copied, then, for a cut, the source directories are removed. Every
      copy goes to a directory the view already shows or that the paste
      created before it, and every directory is removed only after
      everything below it. */
  lemma PasteGeneral(s: Sys, view: View, sel: Selection)
    requires !(SameFs(sel, view) && sel.cut)
    ensures var g := Gather(s, sel.vol, sel.path, sel.files);
      var copies := CopySteps(sel, view, g.cs);
      var removals := WithSelectedSteps(sel.vol, sel.path, sel.files, g.cs, DIRS_ONLY);
      && g.sys.vols == s.vols
      && (g.rc.Failure? ==> Paste(s, view, sel) == Outcome(g.sys, g.rc))
      && (g.rc.Success? ==> Paste(s, view, sel) == Run(g.sys, copies + if sel.cut then removals else []))
      && CreatesFirst(view.vol, copies, {view.path})
      && (UniqueNames(FsOf(s, sel.vol)) && DistinctNames(sel.files) ==> ChildrenFirst(removals))
  {
    var g := Gather(s, sel.vol, sel.path, sel.files);
    GatherReads(s, sel.vol, sel.path, sel.files);
    var copies := CopySteps(sel, view, g.cs);
    var removals := WithSelectedSteps(sel.vol, sel.path, sel.files, g.cs, DIRS_ONLY);
    RunAppend(g.sys, copies, if sel.cut then removals else []);
    assert CreatesFirst(view.vol, copies, {view.path}) by {
      GatherGrounded(s, sel.vol, sel.path, sel.files);
      CopyStepsCreateFirst(sel, view, g.cs);
    }
    if UniqueNames(FsOf(s, sel.vol)) && DistinctNames(sel.files) {
      assert ChildrenFirst(removals) by {
        GatherShape(s, sel.vol, sel.path, sel.files);
        GatherPreOrdered(s, sel.vol, sel.path, sel.files);
        WithSelectedChildrenFirst(sel.vol, sel.path, sel.files, g.cs, DIRS_ONLY);
      }
    }
  }
}
