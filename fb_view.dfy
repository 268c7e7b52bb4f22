/** One pane of the file browser (`FsView`): the listing of the current
    directory, the two index lists over it (every entry, and the entries
    not hidden), the sorted list on show, the highlighted row, the
    selection count, and the stack of rows to restore when walking back
    up. The backend is reduced to the listing a scan reads. */
module FileView {
  import opened Text
  import opened Sorting
  import opened Wrappers

  /** An entry of the listing, with its selection mark. */
  datatype DirEntry = DirEntry(name: string, isDir: bool, size: int, selected: bool)

  /** A name starting with '.'. */
  predicate Hidden(e: DirEntry) {
    |e.name| > 0 && e.name[0] == '.'
  }

  // ---------------------------------------------------------------------
  // Ordering

  datatype SortType = BySize | Alphabetical
  datatype OrderType = Descending | Ascending

  /** The menu settings `Sort` reads. */
  datatype SortOptions = SortOptions(sort: SortType, order: OrderType, foldersFirst: bool, hiddenLast: bool, showHidden: bool)

  /** The comparator of `FsView::Sort`: hidden entries last, then folders
      first (each when enabled), then by size with names breaking ties, or
      by name; "descending" by name is ascending `strncasecmp`. */
  predicate Before(l: DirEntry, r: DirEntry, o: SortOptions) {
    if o.hiddenLast && Hidden(l) && !Hidden(r) then false
    else if o.hiddenLast && !Hidden(l) && Hidden(r) then true
    else if o.foldersFirst && l.isDir && !r.isDir then true
    else if o.foldersFirst && !l.isDir && r.isDir then false
    else SortBefore(l, r, o)
  }

  predicate SortBefore(l: DirEntry, r: DirEntry, o: SortOptions) {
    match o.sort
    case BySize =>
      if l.size == r.size then CaseCmp(l.name, r.name) == Less
      else if o.order == Descending then l.size > r.size
      else l.size < r.size
    case Alphabetical =>
      if o.order == Descending then CaseCmp(l.name, r.name) == Less
      else CaseCmp(l.name, r.name) == Greater
  }

  function SortKey(e: DirEntry, o: SortOptions): Key {
    match o.sort
    case BySize => [Num(if o.order == Descending then -e.size else e.size), Txt(e.name)]
    case Alphabetical => [if o.order == Descending then Txt(e.name) else RevTxt(e.name)]
  }

  function FolderKey(e: DirEntry, o: SortOptions): Key {
    (if o.foldersFirst then [Num(if e.isDir then 0 else 1)] else []) + SortKey(e, o)
  }

  /** The comparator as a sort key. */
  function EntryKey(e: DirEntry, o: SortOptions): Key {
    (if o.hiddenLast then [Num(if Hidden(e) then 1 else 0)] else []) + FolderKey(e, o)
  }

  lemma SortKeyOrder(l: DirEntry, r: DirEntry, o: SortOptions)
    ensures KeyLess(SortKey(l, o), SortKey(r, o)) == SortBefore(l, r, o)
  {
    CaseCmpFlip(l.name, r.name);
    match o.sort
    case BySize =>
      var n, m := if o.order == Descending then -l.size else l.size, if o.order == Descending then -r.size else r.size;
      KeyLessCons(Num(n), Num(m), [Txt(l.name)], [Txt(r.name)]);
      KeyLessCons(Txt(l.name), Txt(r.name), [], []);
      assert [Num(n), Txt(l.name)] == [Num(n)] + [Txt(l.name)];
      assert [Num(m), Txt(r.name)] == [Num(m)] + [Txt(r.name)];
      assert [Txt(l.name)] == [Txt(l.name)] + [];
      assert [Txt(r.name)] == [Txt(r.name)] + [];
    case Alphabetical =>
      var p, q := SortKey(l, o)[0], SortKey(r, o)[0];
      KeyLessCons(p, q, [], []);
      assert SortKey(l, o) == [p] + [] && SortKey(r, o) == [q] + [];
  }

  lemma FolderKeyOrder(l: DirEntry, r: DirEntry, o: SortOptions)
    ensures KeyLess(FolderKey(l, o), FolderKey(r, o)) ==
      if o.foldersFirst && l.isDir && !r.isDir then true
      else if o.foldersFirst && !l.isDir && r.isDir then false
      else SortBefore(l, r, o)
  {
    SortKeyOrder(l, r, o);
    if o.foldersFirst {
      KeyLessCons(Num(if l.isDir then 0 else 1), Num(if r.isDir then 0 else 1), SortKey(l, o), SortKey(r, o));
    } else {
      assert FolderKey(l, o) == SortKey(l, o) && FolderKey(r, o) == SortKey(r, o);
    }
  }

  /** `std::sort` with this comparator sorts by `EntryKey`: the comparator
      is exactly "key strictly before", hence a strict weak order. */
  lemma BeforeIsKeyLess(l: DirEntry, r: DirEntry, o: SortOptions)
    ensures Before(l, r, o) == KeyLess(EntryKey(l, o), EntryKey(r, o))
  {
    FolderKeyOrder(l, r, o);
    if o.hiddenLast {
      KeyLessCons(Num(if Hidden(l) then 1 else 0), Num(if Hidden(r) then 1 else 0), FolderKey(l, o), FolderKey(r, o));
    } else {
      assert EntryKey(l, o) == FolderKey(l, o) && EntryKey(r, o) == FolderKey(r, o);
    }
  }

  /** The listed entries are in the comparator's order: no entry should
      come before one listed ahead of it. */
  ghost predicate InOrder(es: seq<DirEntry>, idx: seq<nat>, o: SortOptions)
    requires forall k :: 0 <= k < |idx| ==> idx[k] < |es|
  {
    forall i, j :: 0 <= i < j < |idx| ==> !Before(es[idx[j]], es[idx[i]], o)
  }

  /** The comparator's key of every entry. */
  function Keys(es: seq<DirEntry>, o: SortOptions): seq<Key>
  {
    KeysOf(es, e => EntryKey(e, o))
  }

  // ---------------------------------------------------------------------
  // Index lists

  /** 0, 1, ..., n - 1. */
  function Upto(n: nat): (r: seq<nat>)
    ensures |r| == n && forall i :: 0 <= i < n ==> r[i] == i
  {
    seq(n, i requires 0 <= i < n => i)
  }

  /** The positions of the entries that are not hidden, in order. */
  function ShownOf(es: seq<DirEntry>): seq<nat>
    decreases |es|
  {
    if es == [] then []
    else ShownOf(es[..|es| - 1]) + (if Hidden(es[|es| - 1]) then [] else [|es| - 1])
  }

  /** `ShownOf` lists exactly the entries that are not hidden, each once and
      in increasing order. */
  lemma {:induction false} ShownOfSpec(es: seq<DirEntry>)
    ensures forall k: nat :: k in ShownOf(es) <==> k < |es| && !Hidden(es[k])
    ensures forall i, j :: 0 <= i < j < |ShownOf(es)| ==> ShownOf(es)[i] < ShownOf(es)[j]
    decreases |es|
  {
    if es != [] {
      var n := |es| - 1;
      ShownOfSpec(es[..n]);
      ShownOfBound(es[..n]);
      forall k: nat ensures k in ShownOf(es) <==> k < |es| && !Hidden(es[k]) {
        if k < n {
          assert es[..n][k] == es[k];
        }
      }
    }
  }

  /** Every position `ShownOf` lists is a position of the listing. */
  lemma {:induction false} ShownOfBound(es: seq<DirEntry>)
    ensures forall i :: 0 <= i < |ShownOf(es)| ==> ShownOf(es)[i] < |es|
    decreases |es|
  {
    if es != [] {
      ShownOfBound(es[..|es| - 1]);
    }
  }

  /** The number of selected entries. */
  function CountSelected(es: seq<DirEntry>): nat
    decreases |es|
  {
    if es == [] then 0
    else CountSelected(es[..|es| - 1]) + (if es[|es| - 1].selected then 1 else 0)
  }

  /** Changing one entry moves the count by what its mark did. */
  lemma {:induction false} CountSelectedUpdate(es: seq<DirEntry>, i: nat, e: DirEntry)
    requires i < |es|
    ensures CountSelected(es[i := e]) ==
      CountSelected(es) - (if es[i].selected then 1 else 0) + (if e.selected then 1 else 0)
    decreases |es|
  {
    var n := |es| - 1;
    if i == n {
      assert es[i := e][..n] == es[..n];
    } else {
      CountSelectedUpdate(es[..n], i, e);
      assert es[i := e][..n] == es[..n][i := e];
    }
  }

  /** An entry re-marked with `set`. */
  function Mark(e: DirEntry, mark: bool): DirEntry {
    e.(selected := mark)
  }

  /** Every entry at the given positions re-marked with `mark`. */
  function MarkAll(es: seq<DirEntry>, idx: seq<nat>, mark: bool): (r: seq<DirEntry>)
    ensures |r| == |es|
    decreases |idx|
  {
    if idx == [] then es
    else
      var r := MarkAll(es, idx[..|idx| - 1], mark);
      var j := idx[|idx| - 1];
      if j < |r| then r[j := Mark(r[j], mark)] else r
  }

  /** `MarkAll` marks exactly the listed entries and only changes marks. */
  lemma {:induction false} MarkAllSpec(es: seq<DirEntry>, idx: seq<nat>, mark: bool)
    ensures forall k :: 0 <= k < |idx| && idx[k] < |es| ==> MarkAll(es, idx, mark)[idx[k]] == Mark(es[idx[k]], mark)
    ensures forall j :: 0 <= j < |es| && j !in idx ==> MarkAll(es, idx, mark)[j] == es[j]
    ensures forall j :: 0 <= j < |es| ==> MarkAll(es, idx, mark)[j] == Mark(es[j], MarkAll(es, idx, mark)[j].selected)
    decreases |idx|
  {
    if idx != [] {
      var n := |idx| - 1;
      MarkAllSpec(es, idx[..n], mark);
      forall k | 0 <= k < |idx| && idx[k] < |es|
        ensures MarkAll(es, idx, mark)[idx[k]] == Mark(es[idx[k]], mark)
      {
        if k < n {
          assert idx[..n][k] == idx[k];
        }
      }
      forall j | 0 <= j < |es| && j !in idx
        ensures MarkAll(es, idx, mark)[j] == es[j]
      {
        assert idx == idx[..n] + [idx[n]];
      }
    }
  }

  /** What `Scan` stores for a listing: every entry unselected. */
  function Cleared(des: seq<DirEntry>): (r: seq<DirEntry>)
    ensures |r| == |des| && forall i :: 0 <= i < |des| ==> r[i] == Mark(des[i], false)
  {
    seq(|des|, i requires 0 <= i < |des| => Mark(des[i], false))
  }

  /** Storing one more entry of the listing extends the stored entries,
      the index lists and the count as `Scan`'s loop does. */
  lemma FillStep(des: seq<DirEntry>, i: nat)
    requires i < |des|
    ensures var stored := Cleared(des[..i]); var e := Mark(des[i], false);
      && Cleared(des[..i + 1]) == stored + [e]
      && Upto(i + 1) == Upto(i) + [i]
      && ShownOf(stored + [e]) == ShownOf(stored) + (if Hidden(e) then [] else [i])
      && CountSelected(stored + [e]) == CountSelected(stored)
  {
    var stored := Cleared(des[..i]);
    var e := Mark(des[i], false);
    assert (stored + [e])[..|stored|] == stored;
  }

  /** The row `Scan` remembers before entering a directory. */
  datatype LastFile = LastFile(name: string, index: int, offset: int, entriesCount: int)

  /** The first position of the list whose entry has the name. */
  function FindName(es: seq<DirEntry>, current: seq<nat>, name: string, from: nat): (r: Option<nat>)
    requires forall k :: 0 <= k < |current| ==> current[k] < |es|
    requires from <= |current|
    ensures r.Some? ==> from <= r.value < |current| && es[current[r.value]].name == name
    ensures r.Some? ==> forall k :: from <= k < r.value ==> es[current[k]].name != name
    ensures r.None? ==> forall k :: from <= k < |current| ==> es[current[k]].name != name
    decreases |current| - from
  {
    if from == |current| then None
    else if es[current[from]].name == name then Some(from)
    else FindName(es, current, name, from + 1)
  }

  /** The row `SetIndexFromLastFile` highlights: the first with the name, or
      row 0. */
  function RestoredIndex(es: seq<DirEntry>, current: seq<nat>, name: string): nat
    requires forall k :: 0 <= k < |current| ==> current[k] < |es|
  {
    match FindName(es, current, name, 0)
    case Some(k) => k
    case None => 0
  }

  /** The scroll offset `SetIndexFromLastFile` picks for row `found`: the
      remembered one when the row and the list length are unchanged,
      otherwise a guess that keeps the row in view below the eighth. */
  function RestoredOffset(found: nat, count: nat, last: LastFile, maxY: int): int {
    if found == last.index && count == last.entriesCount then last.offset
    else if found >= 8 then ((found - 8) + 1) * maxY
    else 0
  }

  /** The directory the "Back" action scans: the text before the last '/',
      or the root when that '/' is the first character; nothing at the
      root itself. */
  function BackTarget(path: string, root: string): (r: Option<string>)
    requires path != root ==> '/' in path
  {
    if path == root then None
    else
      var k := LastSlash(path);
      if k == 0 then Some(root) else Some(path[..k])
  }

  function LastSlash(s: string): (k: nat)
    requires '/' in s
    ensures k < |s| && s[k] == '/' && '/' !in s[k + 1..]
    decreases |s|
  {
    if s[|s| - 1] == '/' then |s| - 1
    else
      assert s == s[..|s| - 1] + [s[|s| - 1]];
      var k := LastSlash(s[..|s| - 1]);
      assert s[k + 1..] == s[..|s| - 1][k + 1..] + [s[|s| - 1]];
      k
  }

  /** The path of an entry of a directory: the two joined with one '/'. */
  function Child(dir: string, name: string): string {
    if dir != [] && dir[|dir| - 1] == '/' then dir + name else dir + "/" + name
  }

  /** A directory's path without its trailing '/'. */
  function Trimmed(dir: string): string {
    if dir != [] && dir[|dir| - 1] == '/' then dir[..|dir| - 1] else dir
  }

  /** Going back from a child directory returns to its parent (the root
      when the parent is the top level). */
  lemma BackFromChild(parent: string, name: string, root: string)
    requires name != [] && '/' !in name
    requires Child(parent, name) != root
    ensures '/' in Child(parent, name)
    ensures BackTarget(Child(parent, name), root) == Some(if Trimmed(parent) == [] then root else Trimmed(parent))
  {
    var base := Trimmed(parent);
    var child := Child(parent, name);
    if parent != [] && parent[|parent| - 1] == '/' {
      assert parent == base + "/";
    }
    assert child == base + "/" + name;
    assert child[|base|] == '/';
    assert child[|base| + 1..] == name;
    var k := LastSlash(child);
    assert child[..k] == base;
  }

  /** The backend a pane is on; two are the same when root and type are. */
  datatype FsType = Sd | ImageNand | ImageSd | Stdio
  datatype FsEntry = FsEntry(root: string, kind: FsType)

  /** The pane's invariant on its lists: the index lists describe the
      listing, the list on show is one of them in some order, and the
      count is the number of marked entries. */
  ghost predicate Coherent(entries: seq<DirEntry>, everyIndex: seq<nat>, shownIndex: seq<nat>,
                           current: seq<nat>, selectedCount: int)
  {
    && everyIndex == Upto(|entries|)
    && shownIndex == ShownOf(entries)
    && (multiset(current) == multiset(everyIndex) || multiset(current) == multiset(shownIndex))
    && (forall k :: 0 <= k < |current| ==> current[k] < |entries|)
    && selectedCount == CountSelected(entries)
  }

  /** A pane with nothing listed is coherent. */
  lemma EmptyCoherent()
    ensures Coherent([], [], [], [], 0)
  {
    assert Upto(0) == [];
  }

  /** Re-marking one entry keeps the lists coherent once the count moves
      with the mark. */
  lemma RemarkCoherent(entries: seq<DirEntry>, everyIndex: seq<nat>, shownIndex: seq<nat>,
                       current: seq<nat>, selectedCount: int, j: nat, mark: bool)
    requires Coherent(entries, everyIndex, shownIndex, current, selectedCount)
    requires j < |entries|
    ensures Coherent(entries[j := Mark(entries[j], mark)], everyIndex, shownIndex, current,
                     selectedCount - (if entries[j].selected then 1 else 0) + (if mark then 1 else 0))
  {
    CountSelectedUpdate(entries, j, Mark(entries[j], mark));
    ShownMarkInvariant(entries, j, Mark(entries[j], mark));
  }

  /** One step of L2's select-all loop: re-marking the next entry on show
      extends `MarkAll` by one position, keeps the lists coherent, and is
      no change when the entry already has the mark. */
  lemma SelectStep(entries: seq<DirEntry>, everyIndex: seq<nat>, shownIndex: seq<nat>,
                   current: seq<nat>, selectedCount: int, before: seq<DirEntry>, i: nat, mark: bool)
    requires Coherent(entries, everyIndex, shownIndex, current, selectedCount)
    requires i < |current| && entries == MarkAll(before, current[..i], mark)
    ensures var j := current[i]; var after := entries[j := Mark(entries[j], mark)];
      && MarkAll(before, current[..i + 1], mark) == after
      && Coherent(after, everyIndex, shownIndex, current,
                  selectedCount - (if entries[j].selected then 1 else 0) + (if mark then 1 else 0))
      && (entries[j].selected == mark ==> after == entries)
  {
    var j := current[i];
    assert current[..i + 1][..i] == current[..i];
    RemarkCoherent(entries, everyIndex, shownIndex, current, selectedCount, j, mark);
    if entries[j].selected == mark {
      assert entries[j := Mark(entries[j], mark)] == entries;
    }
  }

  // ---------------------------------------------------------------------
  // The pane

  class FsView {
    var path: string
    /** `m_entries`. */
    var entries: seq<DirEntry>
    /** `m_entries_index_hidden`: every entry. */
    var everyIndex: seq<nat>
    /** `m_entries_index`: the entries not hidden. */
    var shownIndex: seq<nat>
    /** `m_entries_current`: the list on show. */
    var current: seq<nat>
    var index: nat
    /** The list's scroll offset. */
    var yoff: int
    var selectedCount: int
    var previous: seq<LastFile>
    var fsEntry: FsEntry
    var hasFs: bool

    /** The lists are coherent. */
    ghost predicate ListsValid()
      reads this`entries, this`everyIndex, this`shownIndex, this`current, this`selectedCount
    {
      Coherent(entries, everyIndex, shownIndex, current, selectedCount)
    }

    /** The lists are coherent and, while the list is not empty, the
        highlighted row is on it. */
    ghost predicate Valid()
      reads this`entries, this`everyIndex, this`shownIndex, this`current, this`selectedCount, this`index
    {
      ListsValid() && (|current| == 0 || index < |current|)
    }

    constructor ()
      ensures Valid() && !hasFs && entries == [] && current == [] && previous == []
    {
      path := [];
      entries := [];
      everyIndex := [];
      shownIndex := [];
      current := [];
      index := 0;
      yoff := 0;
      selectedCount := 0;
      previous := [];
      fsEntry := FsEntry([], Sd);
      hasFs := false;
    }

    /** `SetIndex`: the highlighted row; row 0 also scrolls to the top. */
    method SetIndex(i: nat)
      requires i == 0 || i < |current|
      modifies this`index, this`yoff
      ensures index == i && yoff == (if i == 0 then 0 else old(yoff))
    {
      index := i;
      if i == 0 {
        yoff := 0;
      }
    }

    /** `Sort`: the list on show becomes the chosen index list, sorted by the
        comparator. */
    method Sort(o: SortOptions)
      requires forall k :: 0 <= k < |everyIndex| ==> everyIndex[k] < |entries|
      requires forall k :: 0 <= k < |shownIndex| ==> shownIndex[k] < |entries|
      modifies this`current
      ensures forall k :: 0 <= k < |current| ==> current[k] < |entries|
      ensures var chosen := if o.showHidden then everyIndex else shownIndex;
        && multiset(current) == multiset(chosen)
        && InOrder(entries, current, o)
    {
      var keys := Keys(entries, o);
      var chosen := if o.showHidden then everyIndex else shownIndex;
      current := SortBy(chosen, keys);
      forall i, j | 0 <= i < j < |current| ensures !Before(entries[current[j]], entries[current[i]], o) {
        BeforeIsKeyLess(entries[current[j]], entries[current[i]], o);
      }
    }

    /** The loop of `Scan` over the listing: each entry goes to the
        every-entry list, to the shown list unless its name starts with
        '.', and unselected into `entries`. */
    method Fill(des: seq<DirEntry>)
      modifies this`entries, this`everyIndex, this`shownIndex
      ensures entries == Cleared(des) && everyIndex == Upto(|des|) && shownIndex == ShownOf(entries)
      ensures CountSelected(entries) == 0
      ensures forall k :: 0 <= k < |everyIndex| ==> everyIndex[k] < |entries|
      ensures forall k :: 0 <= k < |shownIndex| ==> shownIndex[k] < |entries|
    {
      entries := [];
      everyIndex := [];
      shownIndex := [];
      var i := 0;
      while i < |des|
        invariant 0 <= i <= |des|
        invariant entries == Cleared(des[..i]) && everyIndex == Upto(i) && shownIndex == ShownOf(entries)
        invariant CountSelected(entries) == 0
      {
        var e := Mark(des[i], false);
        FillStep(des, i);
        everyIndex := everyIndex + [i];
        if !(|e.name| > 0 && e.name[0] == '.') {
          shownIndex := shownIndex + [i];
        }
        entries := entries + [e];
        i := i + 1;
      }
      assert des[..i] == des;
      ShownOfBound(entries);
    }

    /** The search loop of `SetIndexFromLastFile`: the first row of the list
        with the name, or -1. */
    method Search(name: string) returns (found: int)
      requires forall k :: 0 <= k < |current| ==> current[k] < |entries|
      ensures found == match FindName(entries, current, name, 0) case Some(k) => k case None => -1
    {
      found := -1;
      var i := 0;
      while i < |current|
        invariant 0 <= i <= |current|
        invariant FindName(entries, current, name, 0) == FindName(entries, current, name, i)
      {
        if name == entries[current[i]].name {
          found := i;
          return;
        }
        i := i + 1;
      }
    }

    /** `SetIndexFromLastFile`: highlight the first row with the remembered
        name and restore or guess the scroll offset; row 0 when the name is
        gone. */
    method SetIndexFromLastFile(last: LastFile, maxY: int)
      requires ListsValid()
      modifies this`index, this`yoff
      ensures Valid()
      ensures index == RestoredIndex(entries, current, last.name)
      ensures var found := FindName(entries, current, last.name, 0);
        && (found.None? ==> index == 0 && yoff == 0)
        && (found.Some? ==>
             index == found.value && yoff == (if found.value == 0 then 0 else RestoredOffset(found.value, |current|, last, maxY)))
    {
      SetIndex(0);
      var found := Search(last.name);
      if found >= 0 {
        yoff := RestoredOffset(found, |current|, last, maxY);
        SetIndex(found);
      }
    }

    /** The row `Scan` and `SortAndFindLastFile` remember: the highlighted
        name, row, offset and list length; none for an empty list or the
        unset path. */
    function Highlighted(): (r: Option<LastFile>)
      reads this`path, this`entries, this`everyIndex, this`shownIndex, this`current, this`selectedCount, this`index, this`yoff
      requires Valid()
      ensures r.Some? <==> path != [] && current != []
    {
      if path != [] && current != [] then
        Some(LastFile(entries[current[index]].name, index, yoff, |current|))
      else None
    }

    /** The start of a `Scan` that is not a walk up: remember the
        highlighted row, if any. */
    method Remember()
      requires Valid()
      modifies this`previous
      ensures previous == if old(Highlighted()).Some? then old(previous) + [old(Highlighted()).value] else old(previous)
    {
      if path != [] && current != [] {
        var f := LastFile(entries[current[index]].name, index, yoff, |current|);
        previous := previous + [f];
      }
    }

    /** The middle of a successful `Scan`, on a pane just emptied: store
        and sort the listing and highlight row 0. */
    method Show(des: seq<DirEntry>, o: SortOptions)
      requires selectedCount == 0
      modifies this`entries, this`everyIndex, this`shownIndex, this`current, this`index, this`yoff
      ensures Valid() && entries == Cleared(des) && index == 0 && yoff == 0
      ensures var chosen := if o.showHidden then Upto(|entries|) else ShownOf(entries);
        && multiset(current) == multiset(chosen)
        && InOrder(entries, current, o)
    {
      Fill(des);
      Sort(o);
      SetIndex(0);
    }

    /** The rest of a successful `Scan`: show the listing, and on a walk up
        highlight the last remembered row again. */
    method Load(des: seq<DirEntry>, isWalkUp: bool, o: SortOptions, maxY: int)
      requires selectedCount == 0
      modifies this`entries, this`everyIndex, this`shownIndex, this`current, this`index, this`yoff, this`previous
      ensures Valid() && entries == Cleared(des) && CountSelected(entries) == 0
      ensures var chosen := if o.showHidden then Upto(|entries|) else ShownOf(entries);
        && multiset(current) == multiset(chosen)
        && InOrder(entries, current, o)
      ensures var back := isWalkUp && old(previous) != [];
        && previous == (if back then old(previous)[..|old(previous)| - 1] else old(previous))
        && index == if back then RestoredIndex(entries, current, old(previous)[|old(previous)| - 1].name) else 0
    {
      Show(des, o);
      if isWalkUp && previous != [] {
        Restore(maxY);
      }
    }

    /** The end of a walk-up `Scan`: highlight the last remembered row
        again and forget it. */
    method Restore(maxY: int)
      requires ListsValid() && previous != []
      modifies this`index, this`yoff, this`previous
      ensures Valid()
      ensures previous == old(previous)[..|old(previous)| - 1]
      ensures index == RestoredIndex(entries, current, old(previous)[|old(previous)| - 1].name)
    {
      var last := previous[|previous| - 1];
      SetIndexFromLastFile(last, maxY);
      previous := previous[..|previous| - 1];
    }

    /** `Scan` once the listing has been read (`None` when opening or
        reading the directory failed). On failure the index lists and the
        list on show are emptied too, so that the pane never refers to
        entries it no longer has. */
    method Scan(newPath: string, isWalkUp: bool, listing: Option<seq<DirEntry>>, o: SortOptions, maxY: int)
      requires Valid()
      modifies this`path, this`entries, this`everyIndex, this`shownIndex, this`current, this`index, this`yoff, this`selectedCount, this`previous
      ensures Valid()
      ensures path == newPath && selectedCount == 0 && CountSelected(entries) == 0
      ensures listing.None? ==> entries == [] && current == [] && index == 0 && yoff == 0
      ensures listing.Some? ==> entries == Cleared(listing.value)
      ensures listing.Some? ==>
        var chosen := if o.showHidden then Upto(|entries|) else ShownOf(entries);
        && multiset(current) == multiset(chosen)
        && InOrder(entries, current, o)
      ensures isWalkUp && listing.None? ==> previous == old(previous)
      ensures isWalkUp && listing.Some? ==> var back := old(previous) != [];
        && previous == (if back then old(previous)[..|old(previous)| - 1] else old(previous))
        && index == if back then RestoredIndex(entries, current, old(previous)[|old(previous)| - 1].name) else 0
      ensures !isWalkUp ==>
        && previous == (if old(Highlighted()).Some? then old(previous) + [old(Highlighted()).value] else old(previous))
        && (listing.Some? ==> index == 0)
    {
      if !isWalkUp {
        Remember();
      }
      Enter(newPath, isWalkUp, listing, o, maxY);
    }

    /** `Scan` after the highlighted row is remembered: empty the pane, then
        show the listing or, on failure, nothing. */
    method Enter(newPath: string, isWalkUp: bool, listing: Option<seq<DirEntry>>, o: SortOptions, maxY: int)
      modifies this`path, this`entries, this`everyIndex, this`shownIndex, this`current, this`index, this`yoff, this`selectedCount, this`previous
      ensures Valid()
      ensures path == newPath && selectedCount == 0 && CountSelected(entries) == 0
      ensures listing.None? ==> entries == [] && current == [] && index == 0 && yoff == 0 && previous == old(previous)
      ensures listing.Some? ==> entries == Cleared(listing.value)
      ensures listing.Some? ==>
        var chosen := if o.showHidden then Upto(|entries|) else ShownOf(entries);
        && multiset(current) == multiset(chosen)
        && InOrder(entries, current, o)
      ensures listing.Some? ==> var back := isWalkUp && old(previous) != [];
        && previous == (if back then old(previous)[..|old(previous)| - 1] else old(previous))
        && index == if back then RestoredIndex(entries, current, old(previous)[|old(previous)| - 1].name) else 0
    {
      path := newPath;
      entries := [];
      index := 0;
      yoff := 0;
      selectedCount := 0;
      if listing.None? {
        ClearLists();
        return;
      }
      ghost var before := previous;
      assert before == old(previous);
      Load(listing.value, isWalkUp, o, maxY);
      assert previous == if isWalkUp && before != [] then before[..|before| - 1] else before;
    }

    /** The index lists and the list on show of a pane just emptied. */
    method ClearLists()
      requires entries == [] && selectedCount == 0
      modifies this`everyIndex, this`shownIndex, this`current
      ensures Valid() && everyIndex == [] && shownIndex == [] && current == []
    {
      everyIndex := [];
      shownIndex := [];
      current := [];
      EmptyCoherent();
    }

    /** `Scan` as written: on failure `m_entries` is emptied but the index
        lists and the list on show are left as they were, so a pane that
        showed rows now points past the end of its entries. */
    method ScanAsWritten(newPath: string, isWalkUp: bool, listing: Option<seq<DirEntry>>, o: SortOptions, maxY: int)
      requires Valid()
      modifies this`path, this`entries, this`everyIndex, this`shownIndex, this`current, this`index, this`yoff, this`selectedCount, this`previous
      ensures listing.None? ==> entries == [] && current == old(current) && everyIndex == old(everyIndex)
      ensures listing.None? && old(current) != [] ==> !Valid()
      ensures listing.Some? ==> Valid() && entries == Cleared(listing.value)
    {
      if !isWalkUp {
        Remember();
      }
      path := newPath;
      entries := [];
      index := 0;
      yoff := 0;
      selectedCount := 0;
      if listing.None? {
        return;
      }
      Load(listing.value, isWalkUp, o, maxY);
    }

    /** `SortAndFindLastFile`: remember the highlighted row, rescan the
        path (or only sort), then highlight the remembered name again. */
    method SortAndFindLastFile(scan: bool, listing: Option<seq<DirEntry>>, o: SortOptions, maxY: int)
      requires Valid()
      modifies this`path, this`entries, this`everyIndex, this`shownIndex, this`current, this`index, this`yoff, this`selectedCount, this`previous
      ensures ListsValid() && path == old(path)
      ensures scan || old(Highlighted()).Some? ==> Valid()
      ensures scan ==> selectedCount == 0 && (listing.Some? ==> entries == Cleared(listing.value))
      ensures scan ==> previous == if old(Highlighted()).Some? then old(previous) + [old(Highlighted()).value] else old(previous)
      ensures !scan ==> entries == old(entries) && selectedCount == old(selectedCount) && previous == old(previous)
      ensures (!scan || listing.Some?) ==>
        var chosen := if o.showHidden then Upto(|entries|) else ShownOf(entries);
        multiset(current) == multiset(chosen) && InOrder(entries, current, o)
      ensures old(Highlighted()).Some? ==> index == RestoredIndex(entries, current, old(Highlighted()).value.name)
    {
      var last := Highlighted();
      Refresh(scan, listing, o, maxY);
      if last.Some? {
        SetIndexFromLastFile(last.value, maxY);
      }
    }

    /** The middle of `SortAndFindLastFile`: rescan the path, or only
        sort. */
    method Refresh(scan: bool, listing: Option<seq<DirEntry>>, o: SortOptions, maxY: int)
      requires Valid()
      modifies this`path, this`entries, this`everyIndex, this`shownIndex, this`current, this`index, this`yoff, this`selectedCount, this`previous
      ensures ListsValid() && path == old(path)
      ensures scan ==> Valid() && selectedCount == 0 && (listing.Some? ==> entries == Cleared(listing.value))
      ensures scan ==> previous == if old(Highlighted()).Some? then old(previous) + [old(Highlighted()).value] else old(previous)
      ensures !scan ==> entries == old(entries) && selectedCount == old(selectedCount) && previous == old(previous)
      ensures (!scan || listing.Some?) ==>
        var chosen := if o.showHidden then Upto(|entries|) else ShownOf(entries);
        multiset(current) == multiset(chosen) && InOrder(entries, current, o)
    {
      if scan {
        Scan(path, false, listing, o, maxY);
      } else {
        ShownOfBound(entries);
        Sort(o);
      }
    }

    /** "Open" (A) on a directory row: scan that directory, remembering
        the row. On an empty list, or on a file, nothing is scanned. */
    method Open(listing: Option<seq<DirEntry>>, o: SortOptions, maxY: int)
      requires Valid()
      modifies this`path, this`entries, this`everyIndex, this`shownIndex, this`current, this`index, this`yoff, this`selectedCount, this`previous
      ensures Valid()
      ensures old(current) == [] || !old(entries)[old(current)[old(index)]].isDir ==>
        path == old(path) && entries == old(entries) && current == old(current) && index == old(index) && previous == old(previous)
      ensures old(current) != [] && old(entries)[old(current)[old(index)]].isDir ==>
        && path == Child(old(path), old(entries)[old(current)[old(index)]].name)
        && previous == (if old(path) != [] then old(previous) + [old(Highlighted()).value] else old(previous))
        && (listing.Some? ==> entries == Cleared(listing.value) && index == 0)
    {
      if current == [] {
        return;
      }
      var e := entries[current[index]];
      if e.isDir {
        Scan(Child(path, e.name), false, listing, o, maxY);
      }
    }

    /** "Back" (B): scan the parent directory as a walk up, restoring the
        row remembered on the way in; nothing at the root. */
    method Back(root: string, listing: Option<seq<DirEntry>>, o: SortOptions, maxY: int)
      requires Valid() && (path != root ==> '/' in path)
      modifies this`path, this`entries, this`everyIndex, this`shownIndex, this`current, this`index, this`yoff, this`selectedCount, this`previous
      ensures Valid()
      ensures old(path) == root ==> path == old(path) && entries == old(entries) && current == old(current) && previous == old(previous)
      ensures old(path) != root ==> Some(path) == BackTarget(old(path), root)
      ensures old(path) != root && listing.Some? ==>
        && entries == Cleared(listing.value)
        && previous == (if old(previous) != [] then old(previous)[..|old(previous)| - 1] else [])
        && (old(previous) != [] ==> index == RestoredIndex(entries, current, old(previous)[|old(previous)| - 1].name))
    {
      if path != root {
        var k := LastSlash(path);
        var target := if k == 0 then root else path[..k];
        Scan(target, true, listing, o, maxY);
      }
    }

    /** L2 on its own: the highlighted entry's mark flips and the count
        follows. The source reads the highlighted entry unguarded, so a
        non-empty list is demanded. */
    method ToggleHighlighted()
      requires Valid() && current != []
      modifies this`entries, this`selectedCount
      ensures Valid()
      ensures var j := old(current[index]);
        && entries == old(entries)[j := Mark(old(entries)[j], !old(entries)[j].selected)]
        && selectedCount == old(selectedCount) + (if old(entries)[j].selected then -1 else 1)
    {
      var j := current[index];
      var e := entries[j];
      RemarkCoherent(entries, everyIndex, shownIndex, current, selectedCount, j, !e.selected);
      entries := entries[j := Mark(e, !e.selected)];
      selectedCount := selectedCount + (if e.selected then -1 else 1);
    }

    /** L2 with R2 held: every entry on show gets the same mark, "selected"
        unless all of them were counted as selected already. */
    method SelectAll()
      requires Valid()
      modifies this`entries, this`selectedCount
      ensures Valid()
      ensures entries == MarkAll(old(entries), current, old(selectedCount) != |current|)
    {
      var mark := selectedCount != |current|;
      ghost var before := entries;
      var i := 0;
      while i < |current|
        invariant 0 <= i <= |current|
        invariant Valid()
        invariant entries == MarkAll(before, current[..i], mark)
      {
        var j := current[i];
        var e := entries[j];
        SelectStep(entries, everyIndex, shownIndex, current, selectedCount, before, i, mark);
        if e.selected != mark {
          entries := entries[j := Mark(e, mark)];
          if mark {
            selectedCount := selectedCount + 1;
          } else {
            selectedCount := selectedCount - 1;
          }
        }
        i := i + 1;
      }
      assert current[..i] == current;
    }

    /** `SetFs`: the same backend (root and type) changes nothing; another
        one empties the pane and forgets the rows to restore, and a focused
        pane then scans `newPath`, or the backend's root when it is empty. */
    method SetFs(newPath: string, newEntry: FsEntry, focused: bool, root: string,
                 listing: Option<seq<DirEntry>>, o: SortOptions, maxY: int)
      requires Valid()
      modifies this`path, this`entries, this`everyIndex, this`shownIndex, this`current, this`index, this`yoff, this`selectedCount, this`previous
      modifies this`fsEntry, this`hasFs
      ensures Valid()
      ensures old(hasFs) && old(fsEntry).root == newEntry.root && old(fsEntry).kind == newEntry.kind ==>
        && path == old(path) && entries == old(entries) && current == old(current) && previous == old(previous)
        && selectedCount == old(selectedCount) && fsEntry == old(fsEntry) && index == old(index)
      ensures !(old(hasFs) && old(fsEntry).root == newEntry.root && old(fsEntry).kind == newEntry.kind) ==>
        && fsEntry == newEntry && hasFs && previous == [] && selectedCount == 0
        && (!focused ==> path == newPath && entries == [] && current == [])
        && (focused ==> path == (if newPath == [] then root else newPath))
        && (focused && listing.Some? ==> entries == Cleared(listing.value))
    {
      if hasFs && fsEntry.root == newEntry.root && fsEntry.kind == newEntry.kind {
        return;
      }
      Switch(newPath, newEntry, focused, root, listing, o, maxY);
    }

    /** `SetFs` on another backend: attach it, then scan when the pane has
        focus. */
    method Switch(newPath: string, newEntry: FsEntry, focused: bool, root: string,
                  listing: Option<seq<DirEntry>>, o: SortOptions, maxY: int)
      modifies this`path, this`entries, this`everyIndex, this`shownIndex, this`current, this`index, this`yoff, this`selectedCount, this`previous
      modifies this`fsEntry, this`hasFs
      ensures Valid()
      ensures fsEntry == newEntry && hasFs && previous == [] && selectedCount == 0
      ensures !focused ==> path == newPath && entries == [] && current == []
      ensures focused ==> path == (if newPath == [] then root else newPath)
      ensures focused && listing.Some? ==> entries == Cleared(listing.value)
    {
      Attach(newPath, newEntry);
      if focused {
        var target := if path == [] then root else path;
        Scan(target, false, listing, o, maxY);
      }
    }

    /** The part of `SetFs` that switches backends: the new path and entry,
        and an empty pane with nothing remembered. */
    method Attach(newPath: string, newEntry: FsEntry)
      modifies this`path, this`entries, this`everyIndex, this`shownIndex, this`current, this`selectedCount, this`previous
      modifies this`fsEntry, this`hasFs
      ensures Valid() && path == newPath && entries == [] && current == [] && previous == [] && selectedCount == 0
      ensures fsEntry == newEntry && hasFs
    {
      path := newPath;
      entries := [];
      previous := [];
      selectedCount := 0;
      ClearLists();
      fsEntry := newEntry;
      hasFs := true;
    }
  }

  /** Marks do not change which entries are hidden. */
  lemma {:induction false} ShownMarkInvariant(es: seq<DirEntry>, i: nat, e: DirEntry)
    requires i < |es| && e.name == es[i].name
    ensures ShownOf(es[i := e]) == ShownOf(es)
    decreases |es|
  {
    var n := |es| - 1;
    if i == n {
      assert es[i := e][..n] == es[..n];
    } else {
      ShownMarkInvariant(es[..n], i, e);
      assert es[i := e][..n] == es[..n][i := e];
    }
  }
}
