/** The app-store catalogue menu: the entries of the repository listing,
    the index list of every filter, the list the menu shows and its order,
    the search and author views with their way back, and the option list of
    one entry's page. The listing, `info.json`, the SD card and the NRO
    headers are read by the caller; what the scan learns from them comes in
    as `Probe` values. */
module AppStore {
  import opened Text
  import opened Sorting
  import opened Wrappers
  import opened StoreFormat

  // ---------------------------------------------------------------------
  // Entries

  datatype EntryStatus = Get | Update | Installed | Local

  /** The fields of a catalogue entry the menu logic reads. */
  datatype Entry = Entry(
    name: string, title: string, author: string, description: string,
    category: string, binary: string, version: string, updated: string,
    updatedNum: int, appDls: nat, extracted: nat, status: EntryStatus,
    baseUrl: string, updUrl: string)

  /** The entry names an NRO on the SD card. */
  predicate HasBinary(e: Entry) {
    e.binary != [] && e.binary != "none"
  }

  // ---------------------------------------------------------------------
  // Filters and the per-filter index lists

  datatype Filter = All | Games | Emulators | Tools | Advanced | Themes | Legacy | Misc

  /** The position of the filter in the menu's filter list and in the
      array of index lists. */
  function FilterIndex(f: Filter): (i: nat)
    ensures i < 8
    ensures i == 0 <==> f == All
  {
    match f
    case All => 0
    case Games => 1
    case Emulators => 2
    case Tools => 3
    case Advanced => 4
    case Themes => 5
    case Legacy => 6
    case Misc => 7
  }

  lemma FilterIndexInjective(f: Filter, g: Filter)
    requires FilterIndex(f) == FilterIndex(g)
    ensures f == g
  {
  }

  /** The category list an entry goes to besides `All`. */
  function CategoryFilter(category: string): (f: Filter)
    ensures f != All
  {
    if category == "game" then Games
    else if category == "emu" then Emulators
    else if category == "tool" then Tools
    else if category == "advanced" then Advanced
    else if category == "theme" then Themes
    else if category == "legacy" then Legacy
    else Misc
  }

  predicate InBucket(e: Entry, f: Filter) {
    f == All || CategoryFilter(e.category) == f
  }

  /** Indices below `n`, one list after another, are still below `n`. */
  lemma WithinAppend(a: seq<nat>, b: seq<nat>, n: nat)
    requires Within(a, n) && Within(b, n)
    ensures Within(a + b, n)
  {
    forall k | 0 <= k < |a + b| ensures (a + b)[k] < n {
      if k >= |a| {
        assert (a + b)[k] == b[k - |a|];
      }
    }
  }

  /** The indices the scan appends to the list of filter `f`, in order. */
  function Bucket(es: seq<Entry>, f: Filter): (b: seq<nat>)
    ensures Within(b, |es|)
  {
    if es == [] then []
    else Bucket(es[..|es| - 1], f) + (if InBucket(es[|es| - 1], f) then [|es| - 1] else [])
  }

  lemma BucketSnoc(es: seq<Entry>, i: nat, f: Filter)
    requires i < |es|
    ensures Bucket(es[..i + 1], f) == Bucket(es[..i], f) + (if InBucket(es[i], f) then [i] else [])
  {
    assert es[..i + 1][..i] == es[..i];
  }

  /** The list of `f` holds, in increasing order, exactly the indices of
      the entries the filter admits. */
  lemma {:induction false} BucketSpec(es: seq<Entry>, f: Filter)
    ensures forall k: nat :: k in Bucket(es, f) <==> k < |es| && InBucket(es[k], f)
    ensures forall i, j :: 0 <= i < j < |Bucket(es, f)| ==> Bucket(es, f)[i] < Bucket(es, f)[j]
  {
    if es != [] {
      var n := |es| - 1;
      var init := es[..n];
      BucketSpec(init, f);
      assert forall k :: 0 <= k < n ==> init[k] == es[k];
    }
  }

  /** Each admitted index occurs in the list exactly once. */
  lemma {:induction false} BucketOnce(es: seq<Entry>, f: Filter, k: nat)
    ensures multiset(Bucket(es, f))[k] == if k < |es| && InBucket(es[k], f) then 1 else 0
  {
    if es != [] {
      var n := |es| - 1;
      var init := es[..n];
      BucketOnce(init, f, k);
      if k == n {
        assert k !in Bucket(init, f);
      } else if k < n {
        assert init[k] == es[k];
      }
    }
  }

  /** The index lists are appended to and never cleared, so a second scan
      of the same listing lists every admitted entry twice. */
  lemma RescanListsTwice(es: seq<Entry>, f: Filter, k: nat)
    requires k < |es| && InBucket(es[k], f)
    ensures multiset(Bucket(es, f) + Bucket(es, f))[k] == 2
  {
    BucketOnce(es, f, k);
  }

  /** Every entry is listed under `All` and under exactly one category. */
  lemma OneCategory(es: seq<Entry>, k: nat)
    requires k < |es|
    ensures k in Bucket(es, All)
    ensures k in Bucket(es, CategoryFilter(es[k].category))
    ensures forall f :: f != All && k in Bucket(es, f) ==> f == CategoryFilter(es[k].category)
  {
    BucketSpec(es, All);
    BucketSpec(es, CategoryFilter(es[k].category));
    forall f | f != All && k in Bucket(es, f) ensures f == CategoryFilter(es[k].category) {
      BucketSpec(es, f);
    }
  }

  /** The scan's step for entry `i`: appending `i` to the `All` list and to
      its category's list extends every list by the entry's share. */
  lemma ListStep(lists: seq<seq<nat>>, before: seq<seq<nat>>, es: seq<Entry>, i: nat)
    requires |lists| == 8 && |before| == 8 && i < |es|
    requires forall f :: lists[FilterIndex(f)] == before[FilterIndex(f)] + Bucket(es[..i], f)
    ensures var c := FilterIndex(CategoryFilter(es[i].category));
      var next := lists[0 := lists[0] + [i]][c := lists[0 := lists[0] + [i]][c] + [i]];
      |next| == 8 && forall f :: next[FilterIndex(f)] == before[FilterIndex(f)] + Bucket(es[..i + 1], f)
  {
    var cat := CategoryFilter(es[i].category);
    var c := FilterIndex(cat);
    var next := lists[0 := lists[0] + [i]][c := lists[0 := lists[0] + [i]][c] + [i]];
    forall f ensures next[FilterIndex(f)] == before[FilterIndex(f)] + Bucket(es[..i + 1], f) {
      BucketSnoc(es, i, f);
      if FilterIndex(f) == c {
        FilterIndexInjective(f, cat);
      }
    }
  }

  // ---------------------------------------------------------------------
  // What the scan computes for each entry

  /** What the scan reads for one entry: the `version` of its `info.json`
      (None when the file cannot be read or has none), whether its NRO
      exists, and the first title of the NRO's NACP (None when it cannot be
      read). */
  datatype Probe = Probe(infoVersion: Option<string>, binaryExists: bool, nacpName: Option<string>)

  /** `ReadFromInfoJson` on an entry whose status is `Get`. */
  function InfoStatus(e: Entry, info: Option<string>): EntryStatus {
    match info
    case None => Get
    case Some(v) => if v == e.version then Installed else Update
  }

  /** Entries that must not show as local: an `hbmenu` whose NRO is not the
      real `nx-hbmenu`, and `snes9x_2010`. */
  predicate Filtered(e: Entry, nacpName: Option<string>) {
    if e.name == "hbmenu" then nacpName.Some? && nacpName.value != "nx-hbmenu"
    else e.name == "snes9x_2010"
  }

  /** The status the scan gives an entry. */
  function ScanStatus(e: Entry, p: Probe): EntryStatus {
    if !HasBinary(e) then InfoStatus(e, p.infoVersion)
    else if !p.binaryExists then Get
    else if InfoStatus(e, p.infoVersion) != Get then InfoStatus(e, p.infoVersion)
    else if Filtered(e, p.nacpName) then Get
    else Local
  }

  /** How the status is decided: an `info.json` version decides Installed or
      Update unless the entry's NRO is missing; Local needs the NRO on the
      card, no usable `info.json` and no filter. */
  lemma ScanStatusSpec(e: Entry, p: Probe)
    ensures var s := ScanStatus(e, p); var seen := !HasBinary(e) || p.binaryExists;
      && (s == Installed <==> seen && p.infoVersion == Some(e.version))
      && (s == Update <==> seen && p.infoVersion.Some? && p.infoVersion.value != e.version)
      && (s == Local <==> HasBinary(e) && p.binaryExists && p.infoVersion.None? && !Filtered(e, p.nacpName))
  {
  }

  /** `updated_num`: the day, month and year fields read with `atoi` at
      offsets 0, 3 and 6. */
  function UpdatedNum(u: string): int {
    Atoi(u) + 100 * Atoi(From(u, 3)) + 10000 * Atoi(From(u, 6))
  }

  /** A `DD/MM/YYYY` date. */
  predicate IsDate(u: string) {
    && |u| == 10 && u[2] == '/' && u[5] == '/'
    && IsDigit(u[0]) && IsDigit(u[1]) && IsDigit(u[3]) && IsDigit(u[4])
    && IsDigit(u[6]) && IsDigit(u[7]) && IsDigit(u[8]) && IsDigit(u[9])
  }

  function Digit(c: char): nat
    requires IsDigit(c)
  {
    c as int - '0' as int
  }

  function Day(u: string): nat requires IsDate(u) { 10 * Digit(u[0]) + Digit(u[1]) }
  function Month(u: string): nat requires IsDate(u) { 10 * Digit(u[3]) + Digit(u[4]) }
  function Year(u: string): nat requires IsDate(u) {
    1000 * Digit(u[6]) + 100 * Digit(u[7]) + 10 * Digit(u[8]) + Digit(u[9])
  }

  /** `atoi` of a text that starts with `k` digits followed by a non-digit
      (or the end). */
  lemma AtoiDigits(s: string, k: nat)
    requires 1 <= k <= |s|
    requires forall i :: 0 <= i < k ==> IsDigit(s[i])
    requires k < |s| ==> !IsDigit(s[k])
    ensures Atoi(s) == DecimalValue(s[..k])
  {
    assert LTrim(s) == s;
    var r := DigitRun(s);
    assert |r| == k;
    assert r == s[..k];
  }

  lemma DecimalValue2(s: string)
    requires |s| == 2 && IsDigit(s[0]) && IsDigit(s[1])
    ensures DecimalValue(s) == 10 * Digit(s[0]) + Digit(s[1])
  {
    var h := s[..1];
    assert h[..0] == [] && h[0] == s[0];
    assert DecimalValue(h) == Digit(s[0]);
    assert s[..|s| - 1] == h;
  }

  lemma DecimalValue4(s: string)
    requires |s| == 4 && forall i :: 0 <= i < 4 ==> IsDigit(s[i])
    ensures DecimalValue(s) == 1000 * Digit(s[0]) + 100 * Digit(s[1]) + 10 * Digit(s[2]) + Digit(s[3])
  {
    var h := s[..3];
    DecimalValue2(h[..2]);
    assert h[..2] == s[..2] && h[2] == s[2];
    assert DecimalValue(h) == 10 * DecimalValue(h[..2]) + Digit(s[2]);
    assert s[..|s| - 1] == h;
  }

  /** On a `DD/MM/YYYY` date `updated_num` is `YYYYMMDD` read as a number. */
  lemma UpdatedNumOfDate(u: string)
    requires IsDate(u)
    ensures UpdatedNum(u) == Day(u) + 100 * Month(u) + 10000 * Year(u)
  {
    AtoiDigits(u, 2);
    DecimalValue2(u[..2]);
    var m := From(u, 3);
    AtoiDigits(m, 2);
    DecimalValue2(m[..2]);
    var y := From(u, 6);
    AtoiDigits(y, 4);
    DecimalValue4(y[..4]);
  }

  /** So ordering by `updated_num` orders dates by year, then month, then day. */
  lemma UpdatedNumOrder(a: string, b: string)
    requires IsDate(a) && IsDate(b)
    ensures UpdatedNum(a) < UpdatedNum(b) <==>
      || Year(a) < Year(b)
      || (Year(a) == Year(b) && Month(a) < Month(b))
      || (Year(a) == Year(b) && Month(a) == Month(b) && Day(a) < Day(b))
  {
    UpdatedNumOfDate(a);
    UpdatedNumOfDate(b);
  }

  /** `atoi` of a text without digits is 0. */
  lemma AtoiNoDigits(s: string)
    requires forall i :: 0 <= i < |s| ==> !IsDigit(s[i])
    ensures Atoi(s) == 0
  {
    LTrimSuffix(s);
    var t := LTrim(s);
    assert forall i :: 0 <= i < |t| ==> t[i] == s[|s| - |t| + i];
  }

  /** The `updated` text every listing entry gets: the em dash U+2014 as
      its three UTF-8 bytes. */
  const NoDate: string := ['\U{E2}', '\U{80}', '\U{94}']

  /** A text shorter than six characters without digits reads as 0; for
      such a text offset 6 lies past its end, where `atoi` reads out of
      range (modelled as reading an empty text). */
  lemma UpdatedNumShort(u: string)
    requires |u| < 6 && forall i :: 0 <= i < |u| ==> !IsDigit(u[i])
    ensures UpdatedNum(u) == 0
  {
    AtoiNoDigits(u);
    AtoiNoDigits(From(u, 3));
  }

  /** As written, every scanned listing entry has date number 0, so the
      Updated sort ties all of them and only the names order them. */
  lemma UpdatedAsWrittenTies(a: Entry, b: Entry, p: Probe, q: Probe)
    requires a.updated == NoDate && b.updated == NoDate
    ensures Measure(Scanned(a, p), Updated) == 0
    ensures Measure(Scanned(a, p), Updated) == Measure(Scanned(b, q), Updated)
  {
    UpdatedNumShort(NoDate);
  }

  /** An entry after the scan: its date number and its status. */
  function Scanned(e: Entry, p: Probe): Entry {
    e.(updatedNum := UpdatedNum(e.updated), status := ScanStatus(e, p))
  }

  function ScannedAll(es: seq<Entry>, ps: seq<Probe>): (r: seq<Entry>)
    requires |ps| == |es|
    ensures |r| == |es|
  {
    seq(|es|, i requires 0 <= i < |es| => Scanned(es[i], ps[i]))
  }

  // ---------------------------------------------------------------------
  // Ordering

  datatype SortType = Updated | Downloads | Size | Alphabetical
  datatype OrderType = Descending | Ascending

  /** The number an entry is sorted by, for the sort types that use one. */
  function Measure(e: Entry, sort: SortType): int {
    match sort
    case Updated => e.updatedNum
    case Downloads => e.appDls
    case Size => e.extracted
    case Alphabetical => 0
  }

  /** The comparator of `Menu::Sort`: entries to update first, then
      installed ones, then local ones, then the rest; within a status by
      the sort type, names breaking ties. "Descending" by name is ascending
      `strcasecmp`. */
  predicate Before(l: Entry, r: Entry, sort: SortType, order: OrderType) {
    if l.status == Update && r.status != Update then true
    else if l.status != Update && r.status == Update then false
    else if l.status == Installed && r.status != Installed then true
    else if l.status != Installed && r.status == Installed then false
    else if l.status == Local && r.status != Local then true
    else if l.status != Local && r.status == Local then false
    else SortBefore(l, r, sort, order)
  }

  predicate SortBefore(l: Entry, r: Entry, sort: SortType, order: OrderType) {
    if sort == Alphabetical then
      if order == Descending then CaseCmp(l.name, r.name) == Less
      else CaseCmp(l.name, r.name) == Greater
    else
      var a, b := Measure(l, sort), Measure(r, sort);
      if a == b then CaseCmp(l.name, r.name) == Less
      else if order == Descending then a > b
      else a < b
  }

  function StatusRank(s: EntryStatus): nat {
    match s
    case Update => 0
    case Installed => 1
    case Local => 2
    case Get => 3
  }

  function SortKey(e: Entry, sort: SortType, order: OrderType): Key {
    if sort == Alphabetical then [if order == Descending then Txt(e.name) else RevTxt(e.name)]
    else [Num(if order == Descending then -Measure(e, sort) else Measure(e, sort)), Txt(e.name)]
  }

  function EntryKey(e: Entry, sort: SortType, order: OrderType): Key {
    [Num(StatusRank(e.status))] + SortKey(e, sort, order)
  }

  lemma SortKeyOrder(l: Entry, r: Entry, sort: SortType, order: OrderType)
    ensures KeyLess(SortKey(l, sort, order), SortKey(r, sort, order)) == SortBefore(l, r, sort, order)
  {
    CaseCmpFlip(l.name, r.name);
    if sort == Alphabetical {
      var p, q := SortKey(l, sort, order)[0], SortKey(r, sort, order)[0];
      KeyLessCons(p, q, [], []);
      assert SortKey(l, sort, order) == [p] + [] && SortKey(r, sort, order) == [q] + [];
    } else {
      var a, b := Measure(l, sort), Measure(r, sort);
      var n, m := if order == Descending then -a else a, if order == Descending then -b else b;
      KeyLessCons(Num(n), Num(m), [Txt(l.name)], [Txt(r.name)]);
      KeyLessCons(Txt(l.name), Txt(r.name), [], []);
      assert [Num(n), Txt(l.name)] == [Num(n)] + [Txt(l.name)];
      assert [Num(m), Txt(r.name)] == [Num(m)] + [Txt(r.name)];
      assert [Txt(l.name)] == [Txt(l.name)] + [];
      assert [Txt(r.name)] == [Txt(r.name)] + [];
    }
  }

  /** The comparator is "key strictly before", hence a strict weak order
      `std::sort` may be given. */
  lemma BeforeIsKeyLess(l: Entry, r: Entry, sort: SortType, order: OrderType)
    ensures Before(l, r, sort, order) == KeyLess(EntryKey(l, sort, order), EntryKey(r, sort, order))
  {
    SortKeyOrder(l, r, sort, order);
    KeyLessCons(Num(StatusRank(l.status)), Num(StatusRank(r.status)), SortKey(l, sort, order), SortKey(r, sort, order));
  }

  /** The comparator's key of every entry. */
  function Keys(es: seq<Entry>, sort: SortType, order: OrderType): seq<Key>
  {
    KeysOf(es, e => EntryKey(e, sort, order))
  }

  /** No listed entry should come before one listed ahead of it. */
  ghost predicate InOrder(es: seq<Entry>, idx: seq<nat>, sort: SortType, order: OrderType)
    requires Within(idx, |es|)
  {
    forall i, j :: 0 <= i < j < |idx| ==> !Before(es[idx[j]], es[idx[i]], sort, order)
  }

  /** A list sorted by the entries' keys is in the comparator's order. */
  lemma SortedInOrder(es: seq<Entry>, idx: seq<nat>, sort: SortType, order: OrderType)
    requires Indices(idx, Keys(es, sort, order)) && SortedBy(idx, Keys(es, sort, order))
    ensures Within(idx, |es|) && InOrder(es, idx, sort, order)
  {
    var keys := Keys(es, sort, order);
    forall i, j | 0 <= i < j < |idx| ensures !Before(es[idx[j]], es[idx[i]], sort, order) {
      BeforeIsKeyLess(es[idx[j]], es[idx[i]], sort, order);
    }
  }

  // ---------------------------------------------------------------------
  // The sort settings line

  const FilterNames := ["All", "Games", "Emulators", "Tools", "Advanced", "Themes", "Legacy", "Misc"]
  const SortNames := ["Updated", "Downloads", "Size", "Alphabetical"]
  const OrderNames := ["Desc", "Asc"]

  function SortIndex(s: SortType): (i: nat)
    ensures i < 4
  {
    match s
    case Updated => 0
    case Downloads => 1
    case Size => 2
    case Alphabetical => 3
  }

  function OrderIndex(o: OrderType): (i: nat)
    ensures i < 2
  {
    if o == Descending then 0 else 1
  }

  /** The text `Sort` formats into its 128-byte buffer. */
  function SettingsText(fs: string, ss: string, os: string): (r: string)
    ensures |r| == 27 + |fs| + |ss| + |os|
    ensures r[8 + |fs| + 9..][..|ss|] == ss
  {
    var r := "Filter: " + fs + " | Sort: " + ss + " | Order: " + os;
    assert r[8 + |fs| + 9..][..|ss|] == ss;
    r
  }

  /** The settings line `Sort` formats from the name tables as written:
      the filter and sort tables hold one name each, so every other filter
      or sort reads past the end of its table (None), and the one sort
      that can be shown, `Updated`, is called "Alphabetical". */
  function SettingsLineAsWritten(f: Filter, s: SortType, o: OrderType): (r: Option<string>)
    ensures r.Some? <==> f == All && s == Updated
    ensures r.Some? ==> r.value == SettingsText("All", "Alphabetical", OrderNames[OrderIndex(o)])
  {
    var filterStr, sortStr := ["All"], ["Alphabetical"];
    if FilterIndex(f) < |filterStr| && SortIndex(s) < |sortStr| then
      Some(Truncate(SettingsText(filterStr[FilterIndex(f)], sortStr[SortIndex(s)], OrderNames[OrderIndex(o)]), 128))
    else None
  }

  /** The settings line with tables that name every filter and sort as the
      options sidebar lists them: defined for every setting, never cut by
      the 128-byte buffer, and naming the sort in effect where the sort's
      name belongs. */
  function SettingsLine(f: Filter, s: SortType, o: OrderType): (r: string)
    ensures |r| < 128
    ensures |r| > 8 + |FilterNames[FilterIndex(f)]| + 9 + |SortNames[SortIndex(s)]|
    ensures r[8 + |FilterNames[FilterIndex(f)]| + 9..][..|SortNames[SortIndex(s)]|] == SortNames[SortIndex(s)]
  {
    Truncate(SettingsText(FilterNames[FilterIndex(f)], SortNames[SortIndex(s)], OrderNames[OrderIndex(o)]), 128)
  }

  /** The shown line differs from what is in effect: `Updated` is the
      default sort and is shown as "Alphabetical". */
  lemma SettingsLineMislabels(o: OrderType)
    ensures SettingsLineAsWritten(All, Updated, o) != Some(SettingsLine(All, Updated, o))
  {
    var a := SettingsLineAsWritten(All, Updated, o).value;
    var b := SettingsLine(All, Updated, o);
    assert a[20] == 'A' && b[20] == 'U';
  }

  /** Text of a position counter: `std::to_string` of a signed number. */
  function IntText(x: int): string {
    if x < 0 then "-" + NatToString(-x) else NatToString(x)
  }

  // ---------------------------------------------------------------------
  // Search terms

  /** A search over title, author and description, or over the author only. */
  datatype Query = Anywhere(term: string) | ByAuthor(author: string)

  predicate Hit(e: Entry, q: Query) {
    match q
    case Anywhere(t) =>
      FindCaseInsensitive(e.title, t) || FindCaseInsensitive(e.author, t) || FindCaseInsensitive(e.description, t)
    case ByAuthor(a) => FindCaseInsensitive(e.author, a)
  }

  /** The indices of the entries the query finds, in increasing order. */
  function Selected(es: seq<Entry>, q: Query): (r: seq<nat>)
    ensures Within(r, |es|)
  {
    if es == [] then []
    else Selected(es[..|es| - 1], q) + (if Hit(es[|es| - 1], q) then [|es| - 1] else [])
  }

  lemma {:induction false} SelectedSpec(es: seq<Entry>, q: Query)
    ensures forall k: nat :: k in Selected(es, q) <==> k < |es| && Hit(es[k], q)
    ensures forall i, j :: 0 <= i < j < |Selected(es, q)| ==> Selected(es, q)[i] < Selected(es, q)[j]
  {
    if es != [] {
      var n := |es| - 1;
      var init := es[..n];
      SelectedSpec(init, q);
      assert forall k :: 0 <= k < n ==> init[k] == es[k];
    }
  }

  /** The author view of an entry lists the entry itself exactly when its
      author is not empty. */
  lemma AuthorViewHasSelf(e: Entry)
    ensures Hit(e, ByAuthor(e.author)) <==> e.author != []
  {
    var t := e.author;
    FindCaseInsensitiveSpec(t, t);
    if t != [] {
      assert MatchAt(t, t, 0);
    }
  }

  /** With an empty author the author view lists every entry that has one. */
  lemma EmptyAuthorView(d: Entry)
    ensures Hit(d, ByAuthor([])) <==> d.author != []
  {
    FindCaseInsensitiveSpec(d.author, []);
  }

  // ---------------------------------------------------------------------
  // The menu

  /** The row offset `SetYoff` is given to bring position `jump` back into
      view when returning from a search or author view (three entries a
      row, nine on the first page). */
  function JumpYoff(jump: int, maxY: int): int {
    if jump >= 9 then (((jump - 9) + 3) / 3) * maxY else 0
  }

  class Menu {
    var entries: seq<Entry>
    /** `m_entries_index`: one index list per filter, by `FilterIndex`. */
    var buckets: seq<seq<nat>>
    var searchIndex: seq<nat>
    var authorIndex: seq<nat>
    /** The list shown, as indices into `entries`. */
    var current: seq<nat>
    var index: int
    var yoff: int
    var isSearch: bool
    var isAuthor: bool
    var searchJumpBack: int
    var authorJumpBack: int
    var searchTerm: string
    var authorTerm: string
    var filter: Filter
    var sort: SortType
    var order: OrderType
    /** The title's subheading: the sort settings. */
    var title: string
    /** The subheading: the position counter. */
    var counter: string

    /** The menu before the listing is scanned, with the stored settings. */
    constructor (f: Filter, s: SortType, o: OrderType)
      ensures entries == [] && current == [] && |buckets| == 8
      ensures forall k :: 0 <= k < 8 ==> buckets[k] == []
      ensures searchIndex == [] && authorIndex == []
      ensures filter == f && sort == s && order == o
      ensures index == 0 && yoff == 0 && !isSearch && !isAuthor
    {
      entries := [];
      buckets := [[], [], [], [], [], [], [], []];
      searchIndex := [];
      authorIndex := [];
      current := [];
      index := 0;
      yoff := 0;
      isSearch := false;
      isAuthor := false;
      searchJumpBack := 0;
      authorJumpBack := 0;
      searchTerm := [];
      authorTerm := [];
      filter := f;
      sort := s;
      order := o;
      title := [];
      counter := [];
    }

    /** `Menu::SetIndex`: index 0 also scrolls back to the top; the
        counter shows the position from 1 and the length of the list. */
    method SetIndex(i: int)
      modifies this`index, this`yoff, this`counter
      ensures index == i
      ensures yoff == if i == 0 then 0 else old(yoff)
      ensures counter == IntText(i + 1) + " / " + NatToString(|current|)
    {
      index := i;
      if i == 0 {
        yoff := 0;
      }
      counter := IntText(i + 1) + " / " + NatToString(|current|);
    }

    /** `Menu::Sort`: the shown list reordered by the comparator, and the
        settings line. */
    method Sort()
      requires Within(current, |entries|)
      modifies this`current, this`title
      ensures Within(current, |entries|)
      ensures multiset(current) == multiset(old(current))
      ensures InOrder(entries, current, sort, order)
      ensures title == SettingsLine(filter, sort, order)
    {
      title := SettingsLine(filter, sort, order);
      current := SortBy(current, Keys(entries, sort, order));
      SortedInOrder(entries, current, sort, order);
    }

    /** The menu shows the entries of `list`, each once, in the
        comparator's order. */
    ghost predicate Shows(list: seq<nat>)
      reads this`current, this`entries, this`sort, this`order
    {
      Within(current, |entries|) && multiset(current) == multiset(list) && InOrder(entries, current, sort, order)
    }

    /** The common end of `SetFilter`, `SetSearch` and `SetAuthor`: show
        `list` from the top, sorted. */
    method ShowList(list: seq<nat>)
      requires Within(list, |entries|)
      modifies this`current, this`index, this`yoff, this`counter, this`title
      ensures index == 0 && yoff == 0 && Shows(list)
    {
      current := list;
      SetIndex(0);
      Sort();
    }

    /** `Menu::SetFilter`: leave the search and author views and show the
        list of the chosen filter, from the top, sorted. */
    method SetFilter()
      requires |buckets| == 8 && Within(buckets[FilterIndex(filter)], |entries|)
      modifies this`isSearch, this`isAuthor, this`current, this`index, this`yoff, this`counter, this`title
      ensures !isSearch && !isAuthor && index == 0 && yoff == 0
      ensures Shows(buckets[FilterIndex(filter)])
    {
      isSearch := false;
      isAuthor := false;
      ShowList(buckets[FilterIndex(filter)]);
    }

    /** The loop of `SetSearch` and `SetAuthor`: the indices of the entries
        the query finds. */
    method Select(q: Query) returns (r: seq<nat>)
      ensures r == Selected(entries, q)
    {
      r := [];
      for i := 0 to |entries|
        invariant r == Selected(entries[..i], q)
      {
        assert entries[..i + 1][..i] == entries[..i];
        if Hit(entries[i], q) {
          r := r + [i];
        }
      }
      assert entries[..|entries|] == entries;
    }

    /** `Menu::SetSearch`: remember where the list was unless a search view
        is already showing, then show the entries whose title, author or
        description contains the term. */
    method SetSearch(term: string)
      modifies this`searchJumpBack, this`searchTerm, this`searchIndex, this`isSearch
      modifies this`current, this`index, this`yoff, this`counter, this`title
      ensures searchJumpBack == if old(isSearch) then old(searchJumpBack) else old(index)
      ensures searchTerm == term && isSearch && index == 0 && yoff == 0
      ensures searchIndex == Selected(entries, Anywhere(term))
      ensures Shows(searchIndex)
    {
      if !isSearch {
        searchJumpBack := index;
      }
      searchTerm := term;
      searchIndex := Select(Anywhere(term));
      isSearch := true;
      ShowList(searchIndex);
    }

    /** `Menu::SetAuthor`: the same for the author of the highlighted
        entry, which the caller guarantees exists. */
    method SetAuthor()
      requires 0 <= index < |current| && Within(current, |entries|)
      modifies this`authorJumpBack, this`authorTerm, this`authorIndex, this`isAuthor
      modifies this`current, this`index, this`yoff, this`counter, this`title
      ensures authorJumpBack == if old(isAuthor) then old(authorJumpBack) else old(index)
      ensures authorTerm == entries[old(current)[old(index)]].author
      ensures isAuthor && index == 0 && yoff == 0
      ensures authorIndex == Selected(entries, ByAuthor(authorTerm))
      ensures Shows(authorIndex)
    {
      if !isAuthor {
        authorJumpBack := index;
      }
      authorTerm := entries[current[index]].author;
      authorIndex := Select(ByAuthor(authorTerm));
      isAuthor := true;
      ShowList(authorIndex);
    }

    /** Show position `jump` of the list again, scrolled so that it is in
        view. */
    method ReturnTo(jump: int, maxY: int)
      modifies this`index, this`yoff, this`counter
      ensures index == jump && yoff == JumpYoff(jump, maxY)
      ensures counter == IntText(jump + 1) + " / " + NatToString(|current|)
    {
      SetIndex(jump);
      yoff := JumpYoff(jump, maxY);
    }

    /** The B button in the author view: back to the search view if one was
        open, else to the filter list, at the position the author view was
        opened from. */
    method LeaveAuthor(maxY: int)
      requires |buckets| == 8 && Within(buckets[FilterIndex(filter)], |entries|)
      modifies this`isSearch, this`isAuthor, this`current, this`index, this`yoff, this`counter, this`title
      modifies this`searchJumpBack, this`searchTerm, this`searchIndex
      ensures !isAuthor && isSearch == old(isSearch)
      ensures index == old(authorJumpBack) && yoff == JumpYoff(old(authorJumpBack), maxY)
      ensures old(isSearch) ==> searchIndex == Selected(entries, Anywhere(old(searchTerm)))
      ensures old(isSearch) ==> searchJumpBack == old(searchJumpBack) && Shows(searchIndex)
      ensures !old(isSearch) ==> Shows(buckets[FilterIndex(filter)])
    {
      isAuthor := false;
      if isSearch {
        SetSearch(searchTerm);
      } else {
        SetFilter();
      }
      ReturnTo(authorJumpBack, maxY);
    }

    /** The B button in the search view: back to the filter list at the
        position the search was started from. */
    method LeaveSearch(maxY: int)
      requires |buckets| == 8 && Within(buckets[FilterIndex(filter)], |entries|)
      modifies this`isSearch, this`isAuthor, this`current, this`index, this`yoff, this`counter, this`title
      ensures !isSearch && !isAuthor
      ensures index == old(searchJumpBack) && yoff == JumpYoff(old(searchJumpBack), maxY)
      ensures Shows(buckets[FilterIndex(filter)])
    {
      isSearch := false;
      SetFilter();
      ReturnTo(searchJumpBack, maxY);
    }

    /** The B button: from the author view back to the search view or the
        filter list, from the search view back to the filter list, each time
        at the remembered position; otherwise the menu closes (`pop`). */
    method Back(maxY: int) returns (pop: bool)
      requires |buckets| == 8 && Within(buckets[FilterIndex(filter)], |entries|)
      modifies this`isSearch, this`isAuthor, this`current, this`index, this`yoff, this`counter, this`title
      modifies this`searchJumpBack, this`searchTerm, this`searchIndex
      ensures pop <==> !old(isSearch) && !old(isAuthor)
      ensures pop ==> current == old(current) && index == old(index)
      ensures old(isAuthor) ==> !isAuthor && isSearch == old(isSearch)
      ensures old(isAuthor) ==> index == old(authorJumpBack) && yoff == JumpYoff(old(authorJumpBack), maxY)
      ensures old(isAuthor) && old(isSearch) ==> searchIndex == Selected(entries, Anywhere(old(searchTerm)))
      ensures old(isAuthor) && old(isSearch) ==> Shows(searchIndex)
      ensures !old(isAuthor) && old(isSearch) ==> !isSearch && !isAuthor
      ensures !old(isAuthor) && old(isSearch) ==> index == old(searchJumpBack) && yoff == JumpYoff(old(searchJumpBack), maxY)
      ensures old(isAuthor) != old(isSearch) ==> Shows(buckets[FilterIndex(filter)])
    {
      pop := false;
      if isAuthor {
        LeaveAuthor(maxY);
      } else if isSearch {
        LeaveSearch(maxY);
      } else {
        pop := true;
      }
    }

    /** The loop of `ScanHomebrew`: every entry goes to `All` and to its
        category list (appended to what the lists already hold), and gets its
        date number and status. */
    method Classify(probes: seq<Probe>)
      requires |probes| == |entries| && |buckets| == 8
      modifies this`entries, this`buckets
      ensures |buckets| == 8
      ensures entries == ScannedAll(old(entries), probes)
      ensures forall f :: buckets[FilterIndex(f)] == old(buckets)[FilterIndex(f)] + Bucket(old(entries), f)
    {
      ghost var parsed, before := entries, buckets;
      for i := 0 to |entries|
        invariant |entries| == |parsed| && |buckets| == 8
        invariant forall k :: 0 <= k < i ==> entries[k] == Scanned(parsed[k], probes[k])
        invariant forall k :: i <= k < |entries| ==> entries[k] == parsed[k]
        invariant forall f :: buckets[FilterIndex(f)] == before[FilterIndex(f)] + Bucket(parsed[..i], f)
      {
        var e := entries[i];
        var c := FilterIndex(CategoryFilter(e.category));
        ListStep(buckets, before, parsed, i);
        buckets := buckets[0 := buckets[0] + [i]];
        buckets := buckets[c := buckets[c] + [i]];
        entries := entries[i := Scanned(e, probes[i])];
      }
      assert parsed[..|parsed|] == parsed;
    }

    /** `Menu::ScanHomebrew` on a parsed listing: without the SD card only
        the entries are replaced; otherwise they are classified and the
        filter's list is shown from the top, sorted. The index lists are not
        cleared, so they must not hold indices past the new listing. */
    method ScanHomebrew(parsed: seq<Entry>, sdOk: bool, probes: seq<Probe>)
      requires |probes| == |parsed| && |buckets| == 8
      requires forall k :: 0 <= k < 8 ==> Within(buckets[k], |parsed|)
      modifies this`entries, this`buckets, this`isSearch, this`isAuthor, this`current, this`index, this`yoff, this`counter, this`title
      ensures |buckets| == 8
      ensures !sdOk ==> entries == parsed && buckets == old(buckets) && current == old(current) && index == old(index)
      ensures sdOk ==> entries == ScannedAll(parsed, probes)
      ensures sdOk ==> forall f :: buckets[FilterIndex(f)] == old(buckets)[FilterIndex(f)] + Bucket(parsed, f)
      ensures sdOk ==> !isSearch && !isAuthor && index == 0 && yoff == 0
      ensures sdOk ==> Shows(buckets[FilterIndex(filter)])
    {
      entries := parsed;
      if !sdOk {
        return;
      }
      Classify(probes);
      WithinAppend(old(buckets)[FilterIndex(filter)], Bucket(parsed, filter), |entries|);
      ShowFilter();
    }

    /** The end of `ScanHomebrew`: the filter's list, from the top, sorted. */
    method ShowFilter()
      requires |buckets| == 8 && Within(buckets[FilterIndex(filter)], |entries|)
      modifies this`isSearch, this`isAuthor, this`current, this`index, this`yoff, this`counter, this`title
      ensures !isSearch && !isAuthor && index == 0 && yoff == 0
      ensures Shows(buckets[FilterIndex(filter)])
    {
      SetFilter();
      SetIndex(0);
      Sort();
    }
  }

  // ---------------------------------------------------------------------
  // The entry page

  /** The options of an entry's page. */
  datatype OptionKind = DownloadBase | DownloadLatestUpdate | ListUpdates | ListDlcs | Launch

  predicate IsInstalled(e: Entry) {
    e.status == Installed || e.status == Local
  }

  /** The option list `UpdateOptions` builds. */
  function OptionsFor(e: Entry): seq<OptionKind> {
    (if !IsInstalled(e) then (if e.baseUrl != [] then [DownloadBase] else [])
     else (if e.updUrl != [] then [DownloadLatestUpdate] else []) + [ListUpdates, ListDlcs])
    + (if HasBinary(e) then [Launch] else [])
  }

  /** What the page offers: the base download only for entries not
      installed and with a base URL; the latest update only for installed
      entries with an update URL; the update and DLC lists for every
      installed entry; launching, as the last option, for every entry with
      an NRO. The list is empty exactly for an entry that is not installed,
      has no base URL and no NRO. */
  lemma OptionsForSpec(e: Entry)
    ensures var os := OptionsFor(e);
      && (DownloadBase in os <==> !IsInstalled(e) && e.baseUrl != [])
      && (DownloadLatestUpdate in os <==> IsInstalled(e) && e.updUrl != [])
      && (ListUpdates in os <==> IsInstalled(e))
      && (ListDlcs in os <==> IsInstalled(e))
      && (Launch in os <==> HasBinary(e))
      && (HasBinary(e) ==> os[|os| - 1] == Launch)
      && (os == [] <==> !IsInstalled(e) && e.baseUrl == [] && !HasBinary(e))
  {
  }

  /** An entry the scan can produce whose page has no option: not on the
      card, no base URL, no NRO. */
  lemma EmptyOptionsExist()
    ensures var e := Entry("x", "", "", "", "", "none", "", "", 0, 0, 0, Get, "", "");
      e.status == ScanStatus(e, Probe(None, false, None)) && OptionsFor(e) == []
  {
  }

  class EntryMenu {
    var entry: Entry
    var options: seq<OptionKind>
    var index: int
    /** The option the A button runs. */
    var action: Option<OptionKind>

    constructor (e: Entry)
      ensures entry == e && options == [] && action == None
    {
      entry := e;
      options := [];
      index := 0;
      action := None;
    }

    /** `EntryMenu::SetIndex`: reads `m_options[index]` unchecked. */
    method SetIndex(i: int)
      requires 0 <= i < |options|
      modifies this`index, this`action
      ensures index == i && action == Some(options[i])
    {
      index := i;
      action := Some(options[i]);
    }

    /** `UpdateOptions` as written: it ends with `SetIndex(0)`, so it needs
        a non-empty list, which `EmptyOptionsExist` shows is not always
        there. */
    method UpdateOptionsAsWritten()
      requires OptionsFor(entry) != []
      modifies this`options, this`index, this`action
      ensures options == OptionsFor(entry) && index == 0 && action == Some(options[0])
    {
      options := OptionsFor(entry);
      SetIndex(0);
    }

    /** `UpdateOptions` with the first option selected only when there is
        one; an empty page has no A action. */
    method UpdateOptions()
      modifies this`options, this`index, this`action
      ensures options == OptionsFor(entry) && index == 0
      ensures action == if options == [] then None else Some(options[0])
    {
      options := OptionsFor(entry);
      if options != [] {
        SetIndex(0);
      } else {
        index := 0;
        action := None;
      }
    }
  }

  // ---------------------------------------------------------------------
  // Update labels

  /** Where `" ("` first starts in `s`, or `|s|`. */
  function FindOpen(s: string): (k: nat)
    ensures k <= |s|
    decreases |s|
  {
    if |s| < 2 then |s| else if s[0] == ' ' && s[1] == '(' then 0 else 1 + FindOpen(s[1..])
  }

  predicate HasOpen(s: string) {
    exists i :: 0 <= i < |s| - 1 && s[i] == ' ' && s[i + 1] == '('
  }

  /** The label of one update in the updates list: the file name, with the
      version in parentheses when there is one. */
  function UpdateLabel(file: string, version: string): string {
    if version == [] then file else file + " (" + version + ")"
  }

  /** One element of the updates list the server returns. */
  datatype UpdateRecord = UpdateRecord(file: string, url: string, version: string)

  /** The popup's items: a label and a URL for each record with a file
      name and a URL, in order. */
  function UpdateItems(rs: seq<UpdateRecord>): seq<(string, string)> {
    if rs == [] then []
    else
      var r := rs[|rs| - 1];
      UpdateItems(rs[..|rs| - 1]) + (if r.file != [] && r.url != [] then [(UpdateLabel(r.file, r.version), r.url)] else [])
  }

  /** Each item comes from a usable record, in order, and every usable
      record gives an item. */
  lemma {:induction false} UpdateItemsSpec(rs: seq<UpdateRecord>)
    ensures |UpdateItems(rs)| <= |rs|
    ensures forall r :: r in rs && r.file != [] && r.url != [] ==> (UpdateLabel(r.file, r.version), r.url) in UpdateItems(rs)
    ensures forall it :: it in UpdateItems(rs) ==> exists r :: r in rs && r.file != [] && r.url != [] && it == (UpdateLabel(r.file, r.version), r.url)
  {
    if rs != [] {
      var init := rs[..|rs| - 1];
      UpdateItemsSpec(init);
      assert rs == init + [rs[|rs| - 1]];
    }
  }

  /** The file name the download is saved as: the label cut at the first
      `" ("`. */
  function LabelFile(text: string): string {
    text[..FindOpen(text)]
  }

  lemma {:induction false} FindOpenAfter(a: string, b: string)
    requires !HasOpen(a) && |b| >= 2 && b[0] == ' ' && b[1] == '('
    ensures FindOpen(a + b) == |a|
    decreases |a|
  {
    if a != [] {
      assert (a + b)[1..] == a[1..] + b;
      if |a| == 1 {
        assert (a + b)[1] == ' ';
      }
      FindOpenAfter(a[1..], b);
    } else {
      assert a + b == b;
    }
  }

  lemma {:induction false} FindOpenNone(s: string)
    requires !HasOpen(s)
    ensures FindOpen(s) == |s|
    decreases |s|
  {
    if |s| >= 2 {
      assert !(s[0] == ' ' && s[1] == '(');
      FindOpenNone(s[1..]);
    }
  }

  /** The chosen update is saved under its own file name, whatever the
      version, when the name holds no `" ("`. */
  lemma LabelRoundTrip(file: string, version: string)
    requires !HasOpen(file)
    ensures LabelFile(UpdateLabel(file, version)) == file
  {
    if version == [] {
      FindOpenNone(file);
    } else {
      var b := " (" + version + ")";
      assert file + " (" + version + ")" == file + b;
      FindOpenAfter(file, b);
      assert (file + b)[..|file|] == file;
    }
  }
}
