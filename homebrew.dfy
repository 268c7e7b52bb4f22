/** The homebrew menu: the list of NRO files on the SD card, which can be
    sorted by update time, name or size, with starred entries first in the
    "(Star)" sort types. A star is an empty marker file beside the NRO. The
    menu keeps two index lists into its entries (all of them, and the ones
    not hidden) and shows one of them, sorted in place. */
module Homebrew {
  import opened Text
  import opened Wrappers
  import opened Sorting
  import FileNames

  /** One NRO found on the SD card, with the fields the comparator reads. */
  datatype NroEntry = NroEntry(
    name: string,
    author: string,
    path: string,
    /** The time stamp recorded in the homebrew's own settings file. */
    iniTimestamp: int,
    /** Whether the file's modification time could be read, and that time. */
    stampValid: bool,
    modified: int,
    size: int,
    hasStar: bool)

  /** `SortType`, in the order of its enumerators. */
  datatype SortType = Updated | Alphabetical | Size | UpdatedStar | AlphabeticalStar | SizeStar
  datatype OrderType = Descending | Ascending

  /** `IsStarEnabled`: the enumerators from `SortType_UpdatedStar` on. */
  predicate IsStarEnabled(s: SortType) {
    s.UpdatedStar? || s.AlphabeticalStar? || s.SizeStar?
  }

  /** The plain sort a star sort falls through to. */
  function Base(s: SortType): (b: SortType)
    ensures !IsStarEnabled(b)
    ensures !IsStarEnabled(s) ==> b == s
  {
    match s
    case UpdatedStar => Updated
    case AlphabeticalStar => Alphabetical
    case SizeStar => Size
    case _ => s
  }

  // ---------------------------------------------------------------------
  // Star files

  /** Every entry's path has a directory part. */
  predicate Rooted(es: seq<NroEntry>) {
    forall i :: 0 <= i < |es| ==> '/' in es[i].path
  }

  /** The position of the last '/' of a path that has one. */
  function SlashAt(path: string): (k: nat)
    requires '/' in path
    ensures k < |path| && path[k] == '/' && '/' !in path[k + 1..]
  {
    FileNames.LastIndexOf(path, '/').value
  }

  /** `GenerateStarPath`: the NRO's directory, then a '.', the file's own
      name and ".star", so `/switch/a.nro` is starred by `/switch/.a.nro.star`. */
  function StarPath(path: string): string
    requires '/' in path
  {
    var k := SlashAt(path);
    path[..k + 1] + "." + path[k + 1..] + ".star"
  }

  /** A file name of the form `.<name>.star`. */
  predicate IsStarName(f: string) {
    |f| >= 6 && f[0] == '.' && f[|f| - 5..] == ".star"
  }

  /** The NRO a star file belongs to, if it is one. */
  function Unstarred(star: string): Option<string> {
    match FileNames.LastIndexOf(star, '/')
    case None => None
    case Some(k) =>
      var f := star[k + 1..];
      if IsStarName(f) then Some(star[..k + 1] + f[1..|f| - 5]) else None
  }

  /** `strrchr` finds the one '/' with no '/' after it. */
  lemma LastSlashUnique(s: string, k: nat)
    requires k < |s| && s[k] == '/' && '/' !in s[k + 1..]
    ensures FileNames.LastIndexOf(s, '/') == Some(k)
  {
    assert s[k] in s;
  }

  /** A star file lies in the NRO's own directory and is a hidden file
      (its name starts with '.') ending in ".star". */
  lemma StarPathShape(path: string)
    requires '/' in path
    ensures var k := SlashAt(path); var s := StarPath(path);
      FileNames.LastIndexOf(s, '/') == Some(k) && s[..k + 1] == path[..k + 1] && s[k + 1] == '.'
      && s[k + 2..|s| - 5] == path[k + 1..] && s[|s| - 5..] == ".star"
  {
    var k := SlashAt(path);
    var s := StarPath(path);
    var tail := "." + path[k + 1..] + ".star";
    assert s == path[..k + 1] + tail;
    assert s[k + 1..] == tail;
    forall i | 0 <= i < |tail| ensures tail[i] != '/' {
      if 1 <= i < |tail| - 5 {
        assert tail[i] == path[k + 1..][i - 1];
      }
    }
    assert '/' !in s[k + 1..];
    LastSlashUnique(s, k);
  }

  /** A name after the last '/' of the form `.<name>.star` is a star file. */
  lemma UnstarredAt(s: string, k: nat)
    requires FileNames.LastIndexOf(s, '/') == Some(k) && IsStarName(s[k + 1..])
    ensures var f := s[k + 1..]; Unstarred(s) == Some(s[..k + 1] + f[1..|f| - 5])
  {
  }

  /** `Unstarred` undoes `StarPath`. */
  lemma StarPathRoundTrip(path: string)
    requires '/' in path
    ensures Unstarred(StarPath(path)) == Some(path)
  {
    StarPathShape(path);
    var k := SlashAt(path);
    var s := StarPath(path);
    var f := s[k + 1..];
    assert f[|f| - 5..] == s[|s| - 5..];
    assert f[1..|f| - 5] == s[k + 2..|s| - 5];
    UnstarredAt(s, k);
    assert path == path[..k + 1] + path[k + 1..];
  }

  /** Two NROs never share a star file. */
  lemma StarPathInjective(p: string, q: string)
    requires '/' in p && '/' in q && StarPath(p) == StarPath(q)
    ensures p == q
  {
    StarPathRoundTrip(p);
    StarPathRoundTrip(q);
  }

  /** The star files after the "Star"/"Unstar" action on `path`: its star
      file is created when missing and deleted when present. */
  function Toggled(stars: set<string>, path: string): set<string>
    requires '/' in path
  {
    if StarPath(path) in stars then stars - {StarPath(path)} else stars + {StarPath(path)}
  }

  /** Toggling one entry flips its own star and no other entry's. */
  lemma ToggledOnly(stars: set<string>, p: string, q: string)
    requires '/' in p && '/' in q
    ensures (StarPath(q) in Toggled(stars, p)) == if q == p then StarPath(q) !in stars else StarPath(q) in stars
  {
    if q != p && StarPath(q) == StarPath(p) {
      StarPathInjective(p, q);
    }
  }

  /** The entries with `has_star` read back from the star files present. */
  function Refreshed(es: seq<NroEntry>, stars: set<string>): (r: seq<NroEntry>)
    requires Rooted(es)
    ensures |r| == |es| && Rooted(r)
  {
    seq(|es|, i requires 0 <= i < |es| => es[i].(hasStar := StarPath(es[i].path) in stars))
  }

  /** After toggling the star of `p` and reading the stars back, exactly the
      entries with path `p` have their star flipped; paths do not change. */
  lemma RefreshedToggled(es: seq<NroEntry>, stars: set<string>, p: string)
    requires Rooted(es) && '/' in p
    ensures forall i :: 0 <= i < |es| ==>
      (Refreshed(es, Toggled(stars, p))[i].path == es[i].path
       && Refreshed(es, Toggled(stars, p))[i].hasStar == if es[i].path == p then StarPath(es[i].path) !in stars
                                                        else StarPath(es[i].path) in stars)
  {
    forall i | 0 <= i < |es|
      ensures Refreshed(es, Toggled(stars, p))[i].hasStar == if es[i].path == p then StarPath(es[i].path) !in stars
                                                             else StarPath(es[i].path) in stars
    {
      ToggledOnly(stars, p, es[i].path);
    }
  }

  // ---------------------------------------------------------------------
  // The comparator

  /** The update time an entry is sorted by: the settings file's stamp,
      raised to the file's modification time when that is known and later. */
  function Timestamp(e: NroEntry): (t: int)
    ensures t >= e.iniTimestamp && (e.stampValid ==> t >= e.modified)
    ensures t == e.iniTimestamp || (e.stampValid && t == e.modified)
  {
    if e.stampValid && e.iniTimestamp < e.modified then e.modified else e.iniTimestamp
  }

  /** The `strcasecmp` cascade of `name_cmp`: name, then author, then path. */
  function NameCmp(l: NroEntry, r: NroEntry): Ord {
    var c := CaseCmp(l.name, r.name);
    if c != Equal then c
    else
      var d := CaseCmp(l.author, r.author);
      if d != Equal then d else CaseCmp(l.path, r.path)
  }

  /** `name_cmp`: "Descending" keeps the names in ascending order. */
  predicate NameBefore(l: NroEntry, r: NroEntry, order: OrderType) {
    if order == Descending then NameCmp(l, r) == Less else NameCmp(l, r) == Greater
  }

  /** The comparison shared by the update-time and size sorts. */
  predicate ByMeasure(a: int, b: int, l: NroEntry, r: NroEntry, order: OrderType) {
    if a == b then NameBefore(l, r, order)
    else if order == Descending then a > b
    else a < b
  }

  /** The plain sorts. */
  predicate BaseBefore(l: NroEntry, r: NroEntry, sort: SortType, order: OrderType) {
    match sort
    case Updated => ByMeasure(Timestamp(l), Timestamp(r), l, r, order)
    case Size => ByMeasure(l.size, r.size, l, r, order)
    case _ => NameBefore(l, r, order)
  }

  /** The comparator of `Menu::Sort`: in a star sort starred entries come
      before unstarred ones, and otherwise the plain sort decides. */
  predicate Before(l: NroEntry, r: NroEntry, sort: SortType, order: OrderType) {
    if IsStarEnabled(sort) && l.hasStar && !r.hasStar then true
    else if IsStarEnabled(sort) && !l.hasStar && r.hasStar then false
    else BaseBefore(l, r, Base(sort), order)
  }

  /** Entries that agree, ignoring case, on name, author and path are in
      no order either way. */
  lemma NameTie(l: NroEntry, r: NroEntry, order: OrderType)
    requires CaseEq(l.name, r.name) && CaseEq(l.author, r.author) && CaseEq(l.path, r.path)
    ensures !NameBefore(l, r, order) && !NameBefore(r, l, order)
  {
    CaseCmpEqual(l.name, r.name);
    CaseCmpEqual(l.author, r.author);
    CaseCmpEqual(l.path, r.path);
    CaseCmpEqual(r.name, l.name);
    CaseCmpEqual(r.author, l.author);
    CaseCmpEqual(r.path, l.path);
  }

  function TextPart(s: string, order: OrderType): Part {
    if order == Descending then Txt(s) else RevTxt(s)
  }

  function NameKey(e: NroEntry, order: OrderType): Key {
    [TextPart(e.name, order), TextPart(e.author, order), TextPart(e.path, order)]
  }

  function Signed(n: int, order: OrderType): int {
    if order == Descending then -n else n
  }

  function BaseKey(e: NroEntry, sort: SortType, order: OrderType): Key {
    match sort
    case Updated => [Num(Signed(Timestamp(e), order))] + NameKey(e, order)
    case Size => [Num(Signed(e.size, order))] + NameKey(e, order)
    case _ => NameKey(e, order)
  }

  function EntryKey(e: NroEntry, sort: SortType, order: OrderType): Key {
    (if IsStarEnabled(sort) then [Num(if e.hasStar then 0 else 1)] else []) + BaseKey(e, Base(sort), order)
  }

  lemma TextPartCmp(a: string, b: string, order: OrderType)
    ensures PartCmp(TextPart(a, order), TextPart(b, order)) ==
      if order == Descending then CaseCmp(a, b) else CaseCmp(a, b).Flip()
  {
    CaseCmpFlip(a, b);
  }

  lemma NameKeyOrder(l: NroEntry, r: NroEntry, order: OrderType)
    ensures KeyLess(NameKey(l, order), NameKey(r, order)) == NameBefore(l, r, order)
  {
    var p1, p2, p3 := TextPart(l.name, order), TextPart(l.author, order), TextPart(l.path, order);
    var q1, q2, q3 := TextPart(r.name, order), TextPart(r.author, order), TextPart(r.path, order);
    TextPartCmp(l.name, r.name, order);
    TextPartCmp(l.author, r.author, order);
    TextPartCmp(l.path, r.path, order);
    KeyLessCons(p1, q1, [p2, p3], [q2, q3]);
    KeyLessCons(p2, q2, [p3], [q3]);
    KeyLessCons(p3, q3, [], []);
    assert NameKey(l, order) == [p1] + [p2, p3] && [p2, p3] == [p2] + [p3] && [p3] == [p3] + [];
    assert NameKey(r, order) == [q1] + [q2, q3] && [q2, q3] == [q2] + [q3] && [q3] == [q3] + [];
  }

  lemma MeasureKeyOrder(a: int, b: int, l: NroEntry, r: NroEntry, order: OrderType)
    ensures KeyLess([Num(Signed(a, order))] + NameKey(l, order), [Num(Signed(b, order))] + NameKey(r, order))
      == ByMeasure(a, b, l, r, order)
  {
    NameKeyOrder(l, r, order);
    KeyLessCons(Num(Signed(a, order)), Num(Signed(b, order)), NameKey(l, order), NameKey(r, order));
  }

  lemma BaseKeyOrder(l: NroEntry, r: NroEntry, sort: SortType, order: OrderType)
    ensures KeyLess(BaseKey(l, sort, order), BaseKey(r, sort, order)) == BaseBefore(l, r, sort, order)
  {
    match sort
    case Updated => MeasureKeyOrder(Timestamp(l), Timestamp(r), l, r, order);
    case Size => MeasureKeyOrder(l.size, r.size, l, r, order);
    case _ => NameKeyOrder(l, r, order);
  }

  /** The comparator is "key strictly before", hence a strict weak order
      `std::sort` may be given, star fall-through included. */
  lemma BeforeIsKeyLess(l: NroEntry, r: NroEntry, sort: SortType, order: OrderType)
    ensures Before(l, r, sort, order) == KeyLess(EntryKey(l, sort, order), EntryKey(r, sort, order))
  {
    var b := Base(sort);
    BaseKeyOrder(l, r, b, order);
    if IsStarEnabled(sort) {
      KeyLessCons(Num(if l.hasStar then 0 else 1), Num(if r.hasStar then 0 else 1), BaseKey(l, b, order), BaseKey(r, b, order));
    } else {
      assert EntryKey(l, sort, order) == BaseKey(l, b, order);
      assert EntryKey(r, sort, order) == BaseKey(r, b, order);
    }
  }

  /** The comparator never puts an entry before itself, and it chains. */
  lemma BeforeStrict(a: NroEntry, b: NroEntry, c: NroEntry, sort: SortType, order: OrderType)
    ensures !Before(a, a, sort, order)
    ensures Before(a, b, sort, order) && Before(b, c, sort, order) ==> Before(a, c, sort, order)
  {
    BeforeIsKeyLess(a, a, sort, order);
    BeforeIsKeyLess(a, b, sort, order);
    BeforeIsKeyLess(b, c, sort, order);
    BeforeIsKeyLess(a, c, sort, order);
    KeyLessIrreflexive(EntryKey(a, sort, order));
    if Before(a, b, sort, order) && Before(b, c, sort, order) {
      KeyLessTrans(EntryKey(a, sort, order), EntryKey(b, sort, order), EntryKey(c, sort, order));
    }
  }

  /** The comparator's key of every entry. */
  function Keys(es: seq<NroEntry>, sort: SortType, order: OrderType): seq<Key>
  {
    KeysOf(es, e => EntryKey(e, sort, order))
  }

  /** No listed entry comes before one listed ahead of it. */
  ghost predicate InOrder(es: seq<NroEntry>, idx: seq<nat>, sort: SortType, order: OrderType)
    requires Within(idx, |es|)
  {
    forall i, j :: 0 <= i < j < |idx| ==> !Before(es[idx[j]], es[idx[i]], sort, order)
  }

  /** A list sorted by the entries' keys is in the comparator's order. */
  lemma SortedInOrder(es: seq<NroEntry>, idx: seq<nat>, sort: SortType, order: OrderType)
    requires Indices(idx, Keys(es, sort, order)) && SortedBy(idx, Keys(es, sort, order))
    ensures Within(idx, |es|) && InOrder(es, idx, sort, order)
  {
    forall i, j | 0 <= i < j < |idx| ensures !Before(es[idx[j]], es[idx[i]], sort, order) {
      BeforeIsKeyLess(es[idx[j]], es[idx[i]], sort, order);
    }
  }

  /** In a star sort every starred entry is listed ahead of every
      unstarred one. */
  lemma StarredFirst(es: seq<NroEntry>, idx: seq<nat>, sort: SortType, order: OrderType, i: nat, j: nat)
    requires Within(idx, |es|) && InOrder(es, idx, sort, order) && IsStarEnabled(sort)
    requires i < |idx| && j < |idx| && es[idx[i]].hasStar && !es[idx[j]].hasStar
    ensures i < j
  {
  }

  /** The first position of `idx` whose entry has `path`, or `|idx|`. */
  function FirstWithPath(es: seq<NroEntry>, idx: seq<nat>, path: string): (k: nat)
    requires Within(idx, |es|)
    ensures k <= |idx|
    ensures k < |idx| ==> es[idx[k]].path == path
    ensures forall j :: 0 <= j < k ==> es[idx[j]].path != path
  {
    if idx == [] then 0
    else if es[idx[0]].path == path then 0
    else 1 + FirstWithPath(es, idx[1..], path)
  }

  /** An index list that holds an entry finds its path. */
  lemma FirstWithPathListed(es: seq<NroEntry>, idx: seq<nat>, x: nat)
    requires Within(idx, |es|) && x in multiset(idx)
    ensures FirstWithPath(es, idx, es[x].path) < |idx|
  {
    assert x in idx;
    var j :| 0 <= j < |idx| && idx[j] == x;
  }

  /** The scroll offset `SortAndFindLastFile` guesses for a position: none
      within the first page, otherwise one row height per row past it. */
  function Scroll(index: nat, row: int, page: int, rowHeight: int): int
    requires row > 0
  {
    if index >= page then ((index - page) + row) / row * rowHeight else 0
  }

  // ---------------------------------------------------------------------
  // The listing

  /** What the menu lists: `m_entries`, the index lists
      `m_entries_index[Filter_All]` and `m_entries_index[Filter_HideHidden]`,
      and the list shown, which is a view of one of those two. */
  datatype Listing = Listing(entries: seq<NroEntry>, all: seq<nat>, unhidden: seq<nat>, current: seq<nat>)

  /** Every index list points into the entries, and every path has a
      directory part. */
  predicate ValidListing(l: Listing) {
    Within(l.all, |l.entries|) && Within(l.unhidden, |l.entries|) && Within(l.current, |l.entries|) && Rooted(l.entries)
  }

  /** The index list `Sort` shows. */
  function Chosen(l: Listing, showHidden: bool): seq<nat> {
    if showHidden then l.all else l.unhidden
  }

  /** What `Sort` makes of `was`: the stars are read back in a star sort,
      the chosen list is permuted into the comparator's order and shown,
      and the other list is untouched. */
  ghost predicate SortedFrom(was: Listing, now: Listing, sort: SortType, order: OrderType, showHidden: bool, stars: set<string>) {
    ValidListing(now) && Rooted(was.entries)
    && now.entries == (if IsStarEnabled(sort) then Refreshed(was.entries, stars) else was.entries)
    && now.current == Chosen(now, showHidden)
    && multiset(now.current) == multiset(Chosen(was, showHidden))
    && (if showHidden then now.unhidden == was.unhidden else now.all == was.all)
    && InOrder(now.entries, now.current, sort, order)
  }

  /** The listing with its stars read back, in a star sort. */
  function Restarred(was: Listing, sort: SortType, stars: set<string>): (r: Listing)
    requires ValidListing(was)
    ensures ValidListing(r)
  {
    if IsStarEnabled(sort) then was.(entries := Refreshed(was.entries, stars)) else was
  }

  /** The chosen list sorted in place and shown. */
  function Shown(was: Listing, sort: SortType, order: OrderType, showHidden: bool): Listing
    requires ValidListing(was)
  {
    var keys := Keys(was.entries, sort, order);
    if showHidden then
      var a := SortBy(was.all, keys);
      Listing(was.entries, a, was.unhidden, a)
    else
      var u := SortBy(was.unhidden, keys);
      Listing(was.entries, was.all, u, u)
  }

  /** The listing `Menu::Sort` leaves behind. */
  function SortedListing(was: Listing, sort: SortType, order: OrderType, showHidden: bool, stars: set<string>): Listing
    requires ValidListing(was)
  {
    Shown(Restarred(was, sort, stars), sort, order, showHidden)
  }

  /** `Menu::Sort` refreshes the stars, permutes the chosen list into the
      comparator's order and leaves the other list alone. */
  lemma SortedListingSpec(was: Listing, sort: SortType, order: OrderType, showHidden: bool, stars: set<string>)
    requires ValidListing(was)
    ensures SortedFrom(was, SortedListing(was, sort, order, showHidden, stars), sort, order, showHidden, stars)
  {
    var now := SortedListing(was, sort, order, showHidden, stars);
    SortedInOrder(now.entries, now.current, sort, order);
  }

  /** The sorted listing is valid and shows as many entries as the chosen
      list holds. */
  lemma SortedListingValid(was: Listing, sort: SortType, order: OrderType, showHidden: bool, stars: set<string>)
    requires ValidListing(was)
    ensures var now := SortedListing(was, sort, order, showHidden, stars);
      ValidListing(now) && |now.current| == |Chosen(was, showHidden)|
  {
    var now := SortedListing(was, sort, order, showHidden, stars);
    SortedListingSpec(was, sort, order, showHidden, stars);
    assert |multiset(now.current)| == |multiset(Chosen(was, showHidden))|;
  }

  /** Sorting keeps every entry of the chosen list in the list shown, with
      its path. */
  lemma SelectionKept(was: Listing, now: Listing, sort: SortType, order: OrderType, showHidden: bool, stars: set<string>, x: nat)
    requires ValidListing(was) && now == SortedListing(was, sort, order, showHidden, stars)
    requires x in Chosen(was, showHidden)
    ensures x < |was.entries| && FirstWithPath(now.entries, now.current, was.entries[x].path) < |now.current|
  {
    SortedListingSpec(was, sort, order, showHidden, stars);
    assert now.entries[x].path == was.entries[x].path;
    FirstWithPathListed(now.entries, now.current, x);
  }

  // ---------------------------------------------------------------------
  // The menu

  class Menu {
    var listing: Listing
    var index: int
    var yoff: int
    var sort: SortType
    var order: OrderType
    var showHidden: bool
    var layout: int
    /** Set once the homebrew list is signalled as changed. */
    var dirty: bool
    /** The title's subheading (the selected path) and the position counter. */
    var subTitle: string
    var counter: string

    /** The menu over a listing built elsewhere, with the stored settings
        (sort, order, layout and whether hidden entries show). */
    constructor (l: Listing, s: SortType, o: OrderType, h: bool, lay: int)
      requires ValidListing(l)
      ensures listing == l && sort == s && order == o && showHidden == h && layout == lay
      ensures index == 0 && yoff == 0 && !dirty
    {
      listing := l;
      index := 0;
      yoff := 0;
      sort := s;
      order := o;
      showHidden := h;
      layout := lay;
      dirty := false;
      subTitle := [];
      counter := [];
    }

    /** `Menu::SetIndex`: select a position; position 0 also scrolls to the
        top. The subheadings show the entry's path and the position. */
    method SetIndex(i: int)
      requires 0 <= i < |listing.current| && Within(listing.current, |listing.entries|)
      modifies this`index, this`yoff, this`subTitle, this`counter
      ensures index == i
      ensures yoff == if i == 0 then 0 else old(yoff)
      ensures subTitle == listing.entries[listing.current[i]].path
      ensures counter == NatToString(i + 1) + " / " + NatToString(|listing.current|)
    {
      index := i;
      if i == 0 {
        yoff := 0;
      }
      subTitle := listing.entries[listing.current[i]].path;
      counter := NatToString(i + 1) + " / " + NatToString(|listing.current|);
    }

    /** The loop at the start of `Menu::Sort` in a star sort: every entry's
        `has_star` read from whether its star file exists. */
    method RefreshStars(stars: set<string>)
      requires ValidListing(listing)
      modifies this`listing
      ensures listing == old(listing).(entries := Refreshed(old(listing).entries, stars))
    {
      var es := listing.entries;
      var i := 0;
      while i < |es|
        invariant 0 <= i <= |es| == |listing.entries|
        invariant forall j :: 0 <= j < i ==> es[j] == listing.entries[j].(hasStar := StarPath(listing.entries[j].path) in stars)
        invariant forall j :: i <= j < |es| ==> es[j] == listing.entries[j]
      {
        var e := es[i];
        es := es[i := e.(hasStar := StarPath(e.path) in stars)];
        i := i + 1;
      }
      listing := listing.(entries := es);
    }

    /** `Menu::Sort`: refresh the stars in a star sort, then sort the chosen
        list in place and show it. */
    method Sort(stars: set<string>)
      requires ValidListing(listing)
      modifies this`listing
      ensures ValidListing(listing) && |listing.current| == |Chosen(old(listing), showHidden)|
      ensures listing == SortedListing(old(listing), sort, order, showHidden, stars)
    {
      SortedListingValid(listing, sort, order, showHidden, stars);
      if IsStarEnabled(sort) {
        RefreshStars(stars);
      }
      listing := Shown(listing, sort, order, showHidden);
    }

    /** The search loop of `SortAndFindLastFile`: the first position whose
        entry has `path`, or -1. */
    method FindPath(path: string) returns (found: int)
      requires Within(listing.current, |listing.entries|)
      ensures found == var k := FirstWithPath(listing.entries, listing.current, path);
        if k < |listing.current| then k else -1
    {
      found := -1;
      var i := 0;
      while i < |listing.current|
        invariant 0 <= i <= |listing.current|
        invariant forall j :: 0 <= j < i ==> listing.entries[listing.current[j]].path != path
      {
        if listing.entries[listing.current[i]].path == path {
          found := i;
          return;
        }
        i := i + 1;
      }
    }

    /** After sorting, the menu selects the first entry with `path` (with the
        estimated scroll), or the top of the list when none has it. */
    ghost predicate Reselected(path: string, row: int, page: int, rowHeight: int)
      requires row > 0
      reads this`listing, this`index, this`yoff, this`subTitle, this`counter
    {
      var es, cur := listing.entries, listing.current;
      Within(cur, |es|) && 0 <= index < |cur|
      && subTitle == es[cur[index]].path
      && counter == NatToString(index + 1) + " / " + NatToString(|cur|)
      && var k := FirstWithPath(es, cur, path);
      if k < |cur| then index == k && yoff == (if k == 0 then 0 else Scroll(k, row, page, rowHeight))
      else index == 0 && yoff == 0
    }

    /** The end of `SortAndFindLastFile`: go to the top, then to the first
        entry with `path` when there is one, guessing its scroll offset. */
    method Reselect(path: string, row: int, page: int, rowHeight: int)
      requires Within(listing.current, |listing.entries|) && listing.current != [] && row > 0
      modifies this`index, this`yoff, this`subTitle, this`counter
      ensures Reselected(path, row, page, rowHeight)
      ensures FirstWithPath(listing.entries, listing.current, path) < |listing.current| ==>
        listing.entries[listing.current[index]].path == path
    {
      SetIndex(0);
      var found := FindPath(path);
      if found >= 0 {
        if found >= page {
          yoff := Scroll(found, row, page, rowHeight);
        } else {
          yoff := 0;
        }
        SetIndex(found);
      }
    }

    /** The entry selected now. */
    function Selected(): NroEntry
      requires 0 <= index < |listing.current| && Within(listing.current, |listing.entries|)
      reads this`listing, this`index
    {
      listing.entries[listing.current[index]]
    }

    /** `Menu::SortAndFindLastFile`: sort, go to the top, then select the
        entry that was selected before, wherever it moved: when it is in
        the list shown, it is selected again. The list's row count, page
        size and row height are parameters. */
    method SortAndFindLastFile(stars: set<string>, row: int, page: int, rowHeight: int)
      requires ValidListing(listing) && 0 <= index < |listing.current| && Chosen(listing, showHidden) != [] && row > 0
      modifies this`listing, this`index, this`yoff, this`subTitle, this`counter
      ensures ValidListing(listing) && listing == SortedListing(old(listing), sort, order, showHidden, stars)
      ensures Reselected(old(Selected().path), row, page, rowHeight)
      ensures old(listing.current[index] in Chosen(listing, showHidden)) ==> Selected().path == old(Selected().path)
    {
      ghost var was := listing;
      ghost var before := listing.current[index];
      var path := listing.entries[listing.current[index]].path;
      Sort(stars);
      Reselect(path, row, page, rowHeight);
      if before in Chosen(was, showHidden) {
        SelectionKept(was, listing, sort, order, showHidden, stars, before);
      }
    }

    /** The R3 action of a star sort ("Star" or "Unstar"): create or delete
        the selected entry's star file, then re-sort keeping it selected.
        Exactly the entries with that path change their star. */
    method ToggleStar(stars: set<string>, row: int, page: int, rowHeight: int) returns (next: set<string>)
      requires ValidListing(listing) && 0 <= index < |listing.current| && Chosen(listing, showHidden) != [] && row > 0
      requires IsStarEnabled(sort)
      modifies this`listing, this`index, this`yoff, this`subTitle, this`counter
      ensures next == Toggled(stars, old(Selected().path))
      ensures ValidListing(listing) && listing == SortedListing(old(listing), sort, order, showHidden, next)
      ensures Reselected(old(Selected().path), row, page, rowHeight)
      ensures listing.entries == Refreshed(old(listing.entries), next)
    {
      var path := listing.entries[listing.current[index]].path;
      next := Toggled(stars, path);
      SortAndFindLastFile(next, row, page, rowHeight);
    }

    /** The "Sort", "Order" and "Show hidden" options: store the choice and
        re-sort, keeping the selection. */
    method SetSort(s: SortType, stars: set<string>, row: int, page: int, rowHeight: int)
      requires ValidListing(listing) && 0 <= index < |listing.current| && Chosen(listing, showHidden) != [] && row > 0
      modifies this`sort, this`listing, this`index, this`yoff, this`subTitle, this`counter
      ensures sort == s && ValidListing(listing) && listing == SortedListing(old(listing), s, order, showHidden, stars)
      ensures Reselected(old(Selected().path), row, page, rowHeight)
    {
      sort := s;
      SortAndFindLastFile(stars, row, page, rowHeight);
    }

    method SetOrder(o: OrderType, stars: set<string>, row: int, page: int, rowHeight: int)
      requires ValidListing(listing) && 0 <= index < |listing.current| && Chosen(listing, showHidden) != [] && row > 0
      modifies this`order, this`listing, this`index, this`yoff, this`subTitle, this`counter
      ensures order == o && ValidListing(listing) && listing == SortedListing(old(listing), sort, o, showHidden, stars)
      ensures Reselected(old(Selected().path), row, page, rowHeight)
    {
      order := o;
      SortAndFindLastFile(stars, row, page, rowHeight);
    }

    /** Showing or hiding hidden entries switches the list shown. */
    method SetShowHidden(h: bool, stars: set<string>, row: int, page: int, rowHeight: int)
      requires ValidListing(listing) && 0 <= index < |listing.current| && Chosen(listing, h) != [] && row > 0
      modifies this`showHidden, this`listing, this`index, this`yoff, this`subTitle, this`counter
      ensures showHidden == h && ValidListing(listing) && listing == SortedListing(old(listing), sort, order, h, stars)
      ensures Reselected(old(Selected().path), row, page, rowHeight)
    {
      showHidden := h;
      SortAndFindLastFile(stars, row, page, rowHeight);
    }

    /** The "Layout" option: store it and go back to the first entry. */
    method SetLayout(l: int)
      modifies this`layout, this`index
      ensures layout == l && index == 0
    {
      layout := l;
      index := 0;
    }

    /** The re-sort at the start of `Menu::Update`: a change signal marks the
        menu dirty, and a dirty menu re-sorts on every update. */
    method Update(signalled: bool, stars: set<string>, row: int, page: int, rowHeight: int)
      requires dirty || signalled ==>
        ValidListing(listing) && 0 <= index < |listing.current| && Chosen(listing, showHidden) != [] && row > 0
      modifies this`dirty, this`listing, this`index, this`yoff, this`subTitle, this`counter
      ensures dirty == (old(dirty) || signalled)
      ensures !dirty ==> listing == old(listing) && index == old(index)
      ensures dirty ==>
        (ValidListing(listing) && listing == SortedListing(old(listing), sort, order, showHidden, stars)
         && Reselected(old(Selected().path), row, page, rowHeight))
    {
      if signalled {
        dirty := true;
      }
      if dirty {
        SortAndFindLastFile(stars, row, page, rowHeight);
      }
    }
  }
}
