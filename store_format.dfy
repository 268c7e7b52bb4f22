/** The text helpers of the app-store menu: the URL and cache-path builders,
    the install-manifest reader, the download-count formatter, the
    case-insensitive search, and the FNV-1a hash with the placeholder
    colours derived from it. Strings stand for byte strings: each character
    is one byte. */
module StoreFormat {
  import opened Text
  import opened Wrappers

  // ---------------------------------------------------------------------
  // URL and cache-path builders

  const UrlBase := "https://npshop.org"
  const CachePath := "/switch/npshop/cache/appstore"
  const PackageRoot := "/switch/appstore/.get/packages/"

  /** The name framed by `prefix` and `suffix` in `s`, if `s` has that frame. */
  function Unframe(prefix: string, suffix: string, s: string): Option<string> {
    if |prefix| + |suffix| <= |s| && s[..|prefix|] == prefix && s[|s| - |suffix|..] == suffix
    then Some(s[|prefix|..|s| - |suffix|])
    else None
  }

  /** A framed name can be read back out of its frame. */
  lemma UnframeFrame(prefix: string, name: string, suffix: string)
    ensures Unframe(prefix, suffix, prefix + name + suffix) == Some(name)
  {
    var s := prefix + name + suffix;
    assert s[..|prefix|] == prefix;
    assert s[|s| - |suffix|..] == suffix;
    assert s[|prefix|..|s| - |suffix|] == name;
  }

  /** Unframing and framing again gives the text back. */
  lemma FrameUnframe(prefix: string, suffix: string, s: string)
    requires Unframe(prefix, suffix, s).Some?
    ensures prefix + Unframe(prefix, suffix, s).value + suffix == s
  {
    var n := Unframe(prefix, suffix, s).value;
    assert s == s[..|prefix|] + s[|prefix|..|s| - |suffix|] + s[|s| - |suffix|..];
  }

  /** The default download location of a package file, formatted into a
      buffer of `size` bytes. */
  function PackageUrl(name: string, file: string, size: nat): (u: string)
    requires size >= 1
    ensures |u| < size
    ensures |UrlBase + "/packages/" + name + file| < size ==>
      Unframe(UrlBase + "/packages/", file, u) == Some(name)
  {
    UnframeFrame(UrlBase + "/packages/", name, file);
    Truncate(UrlBase + "/packages/" + name + file, size)
  }

  /** The URL held for `name` in `overrides` when it is non-empty;
      otherwise `default`. What the maps hold is described by `Filed`. */
  function Override(name: string, overrides: map<string, string>, default: string): (u: string)
    ensures name in overrides && overrides[name] != [] ==> u == overrides[name]
    ensures !(name in overrides && overrides[name] != []) ==> u == default
  {
    if name in overrides && overrides[name] != [] then overrides[name] else default
  }

  /** `BuildIconUrl`: the listing's icon URL, else `.../packages/<name>/icon.png`. */
  function IconUrl(name: string, overrides: map<string, string>): string {
    Override(name, overrides, PackageUrl(name, "/icon.png", 0x200))
  }

  /** `BuildBannerUrl`, the first of its two definitions, with the lookup:
      the listing's banner URL, else `.../packages/<name>/screen.png`. */
  function BannerUrl(name: string, overrides: map<string, string>): string {
    Override(name, overrides, PackageUrl(name, "/screen.png", 0x200))
  }

  /** The second definition of `BuildBannerUrl`: no lookup, and a buffer of
      256 bytes. */
  function BannerUrlSecond(name: string): string {
    PackageUrl(name, "/screen.png", 0x100)
  }

  /** The two definitions agree on a package without an override whose URL
      fits 256 bytes, and differ on every package with one that is not the
      default URL: whichever is compiled decides whether the listing's
      banner is used. */
  lemma BannerDefinitions(name: string, overrides: map<string, string>)
    ensures !(name in overrides && overrides[name] != []) && |UrlBase + "/packages/" + name + "/screen.png"| < 0x100
            ==> BannerUrl(name, overrides) == BannerUrlSecond(name)
    ensures name in overrides && overrides[name] != [] && overrides[name] != BannerUrlSecond(name)
            ==> BannerUrl(name, overrides) != BannerUrlSecond(name)
  {
  }

  // ---------------------------------------------------------------------
  // Filling the URL maps from the repository listing

  /** The fields of one record of the repository listing that `from_json_hb`
      reads before it files the record's URLs: `title`, `titleid`, `image`
      and `banner`, each present only when the listing gives it as text. */
  datatype ListingUrls = ListingUrls(title: Option<string>, titleid: Option<string>,
                                     image: Option<string>, banner: Option<string>)

  /** The name the record's entry gets: its `titleid`, else its `title`,
      else the empty name. */
  function RecordName(r: ListingUrls): string {
    if r.titleid.Some? then r.titleid.value else if r.title.Some? then r.title.value else []
  }

  /** The URL the record gives for the icon map (`banner` false) or the
      banner map (`banner` true). */
  function UrlOf(r: ListingUrls, banner: bool): Option<string> {
    if banner then r.banner else r.image
  }

  /** The map after `from_json_hb` reads the records `rs` as written: every
      URL is filed under `e.name` while `e.name` is still the empty name of
      the fresh `Entry`, so each overwrites the one before under "". */
  function FiledAsWritten(m: map<string, string>, rs: seq<ListingUrls>, banner: bool): map<string, string> {
    if rs == [] then m
    else
      var before := FiledAsWritten(m, rs[..|rs| - 1], banner);
      var u := UrlOf(rs[|rs| - 1], banner);
      if u.Some? then before[[] := u.value] else before
  }

  /** The map after reading `rs` with each URL filed under its record's
      name, as the lookup in `BuildIconUrl`/`BuildBannerUrl` expects. */
  function Filed(m: map<string, string>, rs: seq<ListingUrls>, banner: bool): map<string, string> {
    if rs == [] then m
    else
      var before := Filed(m, rs[..|rs| - 1], banner);
      var r := rs[|rs| - 1];
      if UrlOf(r, banner).Some? then before[RecordName(r) := UrlOf(r, banner).value] else before
  }

  /** As written, reading the listing adds no key but the empty name. */
  lemma {:induction false} FiledAsWrittenKeys(m: map<string, string>, rs: seq<ListingUrls>, banner: bool)
    ensures forall k :: k in FiledAsWritten(m, rs, banner) ==> k in m || k == []
  {
    if rs != [] {
      FiledAsWrittenKeys(m, rs[..|rs| - 1], banner);
    }
  }

  /** As written, a package with a real name never gets the listing's icon:
      after the listing is read into an empty map, its icon URL is always
      the default one. */
  lemma FiledAsWrittenMissesNames(rs: seq<ListingUrls>, name: string)
    requires name != []
    ensures IconUrl(name, FiledAsWritten(map[], rs, false)) == PackageUrl(name, "/icon.png", 0x200)
    ensures BannerUrl(name, FiledAsWritten(map[], rs, true)) == PackageUrl(name, "/screen.png", 0x200)
  {
    FiledAsWrittenKeys(map[], rs, false);
    FiledAsWrittenKeys(map[], rs, true);
  }

  /** A record with `titleid` "abc" and an image shows the difference: as
      written the package keeps the default icon, filed by name it gets the
      listing's. */
  lemma FiledAsWrittenExample()
    ensures var rs := [ListingUrls(None, Some("abc"), Some("https://cdn.example/abc.png"), None)];
      && IconUrl("abc", FiledAsWritten(map[], rs, false)) == PackageUrl("abc", "/icon.png", 0x200)
      && IconUrl("abc", Filed(map[], rs, false)) == "https://cdn.example/abc.png"
  {
    var rs := [ListingUrls(None, Some("abc"), Some("https://cdn.example/abc.png"), None)];
    FiledAsWrittenMissesNames(rs, "abc");
    assert rs[..0] == [];
  }

  /** Filed by name, a record's URL is what the map holds for its name when
      no later record of that name gives one. */
  lemma {:induction false} FiledLastWins(m: map<string, string>, rs: seq<ListingUrls>, banner: bool, i: nat)
    requires i < |rs| && UrlOf(rs[i], banner).Some?
    requires forall j :: i < j < |rs| && UrlOf(rs[j], banner).Some? ==> RecordName(rs[j]) != RecordName(rs[i])
    ensures var f := Filed(m, rs, banner);
      RecordName(rs[i]) in f && f[RecordName(rs[i])] == UrlOf(rs[i], banner).value
  {
    if i < |rs| - 1 {
      var init := rs[..|rs| - 1];
      assert init[i] == rs[i];
      forall j | i < j < |init| && UrlOf(init[j], banner).Some?
        ensures RecordName(init[j]) != RecordName(init[i])
      {
        assert init[j] == rs[j];
      }
      FiledLastWins(m, init, banner, i);
    }
  }

  /** Filed by name, a non-empty icon URL the listing gave for a package
      (and no later record of that name overrides) is the URL used. */
  lemma IconUrlFromListing(rs: seq<ListingUrls>, i: nat)
    requires i < |rs| && rs[i].image.Some? && rs[i].image.value != []
    requires forall j :: i < j < |rs| && rs[j].image.Some? ==> RecordName(rs[j]) != RecordName(rs[i])
    ensures IconUrl(RecordName(rs[i]), Filed(map[], rs, false)) == rs[i].image.value
  {
    FiledLastWins(map[], rs, false, i);
  }

  /** `BuildManifestUrl`: `.../packages/<name>/manifest.install` in 256 bytes. */
  function ManifestUrl(name: string): string {
    PackageUrl(name, "/manifest.install", 0x100)
  }

  /** Without an override, the icon URL names exactly its package. */
  lemma IconUrlNamesPackage(name: string, overrides: map<string, string>)
    requires !(name in overrides && overrides[name] != [])
    requires |UrlBase + "/packages/" + name + "/icon.png"| < 0x200
    ensures Unframe(UrlBase + "/packages/", "/icon.png", IconUrl(name, overrides)) == Some(name)
  {
  }

  /** Without an override, the banner URL names exactly its package. */
  lemma BannerUrlNamesPackage(name: string, overrides: map<string, string>)
    requires !(name in overrides && overrides[name] != [])
    requires |UrlBase + "/packages/" + name + "/screen.png"| < 0x200
    ensures Unframe(UrlBase + "/packages/", "/screen.png", BannerUrl(name, overrides)) == Some(name)
  {
  }

  /** The manifest URL always fits its 256-byte buffer, and names exactly
      its package when the whole URL fits. */
  lemma ManifestUrlNamesPackage(name: string)
    ensures |ManifestUrl(name)| < 0x100
    ensures |UrlBase + "/packages/" + name + "/manifest.install"| < 0x100 ==>
      Unframe(UrlBase + "/packages/", "/manifest.install", ManifestUrl(name)) == Some(name)
  {
  }

  /** A cached image of package `name` in the cache sub-directory `dir`:
      `<cache>/<dir>/<name>.png`. */
  function CacheImagePath(dir: string, name: string): (p: string)
    ensures Unframe(CachePath + "/" + dir + "/", ".png", p) == Some(name)
  {
    UnframeFrame(CachePath + "/" + dir + "/", name, ".png");
    CachePath + "/" + dir + "/" + name + ".png"
  }

  /** `BuildIconCachePath`: `<cache>/icons/<name>.png`. */
  function IconCachePath(name: string): string {
    CacheImagePath("icons", name)
  }

  /** `BuildBannerCachePath`: `<cache>/banners/<name>.png`. */
  function BannerCachePath(name: string): string {
    CacheImagePath("banners", name)
  }

  /** `BuildPackageCachePath`: the package directory shared with the
      original app store. */
  function PackageCachePath(name: string): (p: string)
    ensures |p| == |PackageRoot| + |name| && p[..|PackageRoot|] == PackageRoot && p[|PackageRoot|..] == name
  {
    PackageRoot + name
  }

  function InfoCachePath(name: string): string { PackageCachePath(name) + "/info.json" }
  function ManifestCachePath(name: string): string { PackageCachePath(name) + "/manifest.install" }
  function FeedbackCachePath(name: string): string { PackageCachePath(name) + "/feedback.json" }

  /** Two packages never share a cached icon or banner, and an icon never
      lands on a banner. */
  lemma CachePathsDistinct(a: string, b: string)
    ensures IconCachePath(a) == IconCachePath(b) ==> a == b
    ensures BannerCachePath(a) == BannerCachePath(b) ==> a == b
    ensures IconCachePath(a) != BannerCachePath(b)
  {
    var i, k := IconCachePath(a), BannerCachePath(b);
    assert i[|CachePath| + 1] == 'i' && k[|CachePath| + 1] == 'b';
    if IconCachePath(a) == IconCachePath(b) {
      assert Unframe(CachePath + "/icons/", ".png", i) == Some(a);
    }
    if BannerCachePath(a) == BannerCachePath(b) {
      assert Unframe(CachePath + "/banners/", ".png", k) == Some(a);
    }
  }

  /** The info, manifest and feedback files of any two packages are
      different files. */
  lemma PackageFilesDistinct(a: string, b: string)
    ensures InfoCachePath(a) != ManifestCachePath(b)
    ensures InfoCachePath(a) != FeedbackCachePath(b)
    ensures ManifestCachePath(a) != FeedbackCachePath(b)
    ensures InfoCachePath(a) == InfoCachePath(b) ==> a == b
  {
    var i, m, f := InfoCachePath(a), ManifestCachePath(b), FeedbackCachePath(b);
    assert i[|i| - 1] == 'n' && m[|m| - 1] == 'l';
    assert f[|f| - 1] == 'n';
    assert i[|i| - 6] == 'o' && f[|f| - 6] == 'k';
    if InfoCachePath(a) == InfoCachePath(b) {
      assert a == InfoCachePath(a)[|PackageRoot|..|InfoCachePath(a)| - 10];
    }
  }

  // ---------------------------------------------------------------------
  // Install manifests

  /** One manifest line: a command character and a path. */
  datatype ManifestEntry = ManifestEntry(command: char, path: string)

  /** `std::views::split(view, '\n')`: the pieces between line feeds, with
      an empty piece after a final line feed. (Whether an empty text gives
      one empty piece or none does not change the parse: empty pieces are
      skipped.) */
  function Segments(v: string): (ls: seq<string>)
    ensures |ls| >= 1
    decreases |v|
  {
    var k := IndexOf(v, '\n');
    if k == |v| then [v] else [v[..k]] + Segments(v[k + 1..])
  }

  /** The entries of a sequence of lines: every line longer than three
      characters gives its first character and the text from index 3 on. */
  function EntriesOf(lines: seq<string>): (es: seq<ManifestEntry>)
    ensures |es| <= |lines|
  {
    if lines == [] then []
    else
      var l := lines[|lines| - 1];
      EntriesOf(lines[..|lines| - 1]) + (if |l| <= 3 then [] else [ManifestEntry(l[0], l[3..])])
  }

  function Manifest(view: string): seq<ManifestEntry> {
    EntriesOf(Segments(view))
  }

  /** `ParseManifest`: one entry per piece longer than three characters. */
  method ParseManifest(view: string) returns (es: seq<ManifestEntry>)
    ensures es == Manifest(view)
  {
    var lines := Segments(view);
    es := [];
    for i := 0 to |lines|
      invariant es == EntriesOf(lines[..i])
    {
      var line := lines[i];
      assert lines[..i + 1][..i] == lines[..i];
      if |line| > 3 {
        es := es + [ManifestEntry(line[0], line[3..])];
      }
    }
    assert lines[..|lines|] == lines;
  }

  lemma {:induction false} EntriesOfAppend(a: seq<string>, b: seq<string>)
    ensures EntriesOf(a + b) == EntriesOf(a) + EntriesOf(b)
    decreases |b|
  {
    if b == [] {
      assert a + b == a;
    } else {
      var n := |b| - 1;
      assert (a + b)[..|a + b| - 1] == a + b[..n];
      EntriesOfAppend(a, b[..n]);
    }
  }

  /** How the manifest writer lays a line out: the command, two separator
      characters the reader skips, then the path. */
  function ManifestLine(e: ManifestEntry): string {
    [e.command] + ": " + e.path
  }

  function Render(es: seq<ManifestEntry>): string {
    if es == [] then [] else ManifestLine(es[0]) + "\n" + Render(es[1..])
  }

  predicate Writable(e: ManifestEntry) {
    e.command != '\n' && e.path != [] && '\n' !in e.path
  }

  function Lines(es: seq<ManifestEntry>): (ls: seq<string>)
    ensures |ls| == |es|
  {
    if es == [] then [] else [ManifestLine(es[0])] + Lines(es[1..])
  }

  /** A line without a line feed, then a line feed, splits off first. */
  lemma SegmentsCons(l: string, r: string)
    requires '\n' !in l
    ensures Segments(l + "\n" + r) == [l] + Segments(r)
  {
    var v := l + "\n" + r;
    assert v == l + ("\n" + r);
    IndexOfAppend(l, "\n" + r, '\n');
    assert ("\n" + r)[0] == '\n';
    assert v[..|l|] == l && v[|l| + 1..] == r;
  }

  lemma {:induction false} SegmentsRender(es: seq<ManifestEntry>)
    requires forall k :: 0 <= k < |es| ==> Writable(es[k])
    ensures Segments(Render(es)) == Lines(es) + [""]
  {
    if es != [] {
      var l := ManifestLine(es[0]);
      assert l == [es[0].command] + ": " + es[0].path;
      assert Writable(es[0]);
      SegmentsCons(l, Render(es[1..]));
      SegmentsRender(es[1..]);
      assert Lines(es) + [""] == [l] + (Lines(es[1..]) + [""]);
    }
  }

  lemma {:induction false} EntriesOfLines(es: seq<ManifestEntry>)
    requires forall k :: 0 <= k < |es| ==> Writable(es[k])
    ensures EntriesOf(Lines(es)) == es
  {
    if es != [] {
      EntriesOfLines(es[1..]);
      EntriesOfAppend([ManifestLine(es[0])], Lines(es[1..]));
      var l := ManifestLine(es[0]);
      var none: seq<string> := [];
      assert [l][..0] == none;
      assert l[3..] == es[0].path;
      assert EntriesOf([l]) == [es[0]];
    }
  }

  /** Reading back what the writer laid out gives the same entries:
      commands that are not line feeds and non-empty paths without line
      feeds survive the round trip. */
  lemma ManifestRoundTrip(es: seq<ManifestEntry>)
    requires forall k :: 0 <= k < |es| ==> Writable(es[k])
    ensures Manifest(Render(es)) == es
  {
    SegmentsRender(es);
    EntriesOfAppend(Lines(es), [""]);
    assert EntriesOf([""]) == [];
    EntriesOfLines(es);
  }

  // ---------------------------------------------------------------------
  // Download counts with thousands separators

  /** Digits with a comma before every group of three counted from the right. */
  function Group(d: string): (g: string)
    decreases |d|
  {
    if |d| <= 3 then d else Group(d[..|d| - 3]) + "," + d[|d| - 3..]
  }

  /** The text with its commas removed. */
  function Uncomma(s: string): string {
    if s == [] then []
    else Uncomma(s[..|s| - 1]) + (if s[|s| - 1] == ',' then [] else [s[|s| - 1]])
  }

  lemma {:induction false} UncommaAppend(a: string, b: string)
    ensures Uncomma(a + b) == Uncomma(a) + Uncomma(b)
    decreases |b|
  {
    if b != [] {
      var n := |b| - 1;
      assert (a + b)[..|a + b| - 1] == a + b[..n];
      assert (a + b)[|a + b| - 1] == b[n];
      UncommaAppend(a, b[..n]);
    } else {
      assert a + b == a;
    }
  }

  lemma {:induction false} UncommaNone(s: string)
    requires ',' !in s
    ensures Uncomma(s) == s
  {
    if s != [] {
      assert s[|s| - 1] in s;
      UncommaNone(s[..|s| - 1]);
    }
  }

  /** Removing the separators gives the digits back. */
  lemma {:induction false} GroupUncomma(d: string)
    requires ',' !in d
    ensures Uncomma(Group(d)) == d
    decreases |d|
  {
    if |d| <= 3 {
      UncommaNone(d);
    } else {
      var p, t := d[..|d| - 3], d[|d| - 3..];
      GroupUncomma(p);
      UncommaAppend(Group(p) + ",", t);
      UncommaNone(t);
      assert p + t == d;
    }
  }

  /** Counting from the right (0 = last character), a character of the
      grouped text is a separator exactly at the positions 3, 7, 11, ... */
  lemma {:induction false} GroupShape(d: string, j: nat)
    requires ',' !in d && j < |Group(d)|
    ensures Group(d)[|Group(d)| - 1 - j] == ',' <==> j % 4 == 3
    decreases |d|
  {
    var g := Group(d);
    if |d| > 3 {
      var p, t := d[..|d| - 3], d[|d| - 3..];
      assert g == Group(p) + "," + t;
      if j < 3 {
        assert g[|g| - 1 - j] == t[2 - j];
        assert t[2 - j] in d;
      } else if j > 3 {
        assert g[|g| - 1 - j] == Group(p)[|Group(p)| - 1 - (j - 4)];
        GroupShape(p, j - 4);
      }
    } else {
      assert g[|g| - 1 - j] in d;
    }
  }

  function Pow10(b: nat): nat {
    if b == 0 then 1 else 10 * Pow10(b - 1)
  }

  /** `std::to_string(n)` has at most `b` digits exactly when `n < 10^b`. */
  lemma {:induction false} NatToStringLength(n: nat, b: nat)
    requires b >= 1
    ensures |NatToString(n)| <= b <==> n < Pow10(b)
    decreases n
  {
    if b >= 2 {
      assert Pow10(b) == 10 * Pow10(b - 1);
      if n >= 10 {
        NatToStringLength(n / 10, b - 1);
        assert n / 10 < Pow10(b - 1) <==> n < Pow10(b);
      } else {
        PowPositive(b - 1);
      }
    }
  }

  lemma {:induction false} PowPositive(b: nat)
    ensures Pow10(b) >= 1
  {
    if b > 0 {
      PowPositive(b - 1);
    }
  }

  lemma DigitsOf(value: nat)
    ensures ',' !in NatToString(value)
    ensures |NatToString(value)| >= 1
    ensures value < 0x1_0000_0000 ==> |NatToString(value)| <= 10
    ensures |NatToString(value)| <= 9 <==> value < 1_000_000_000
  {
    NatToStringDigits(value);
    assert Pow10(9) == 1_000_000_000 && Pow10(10) == 10_000_000_000;
    NatToStringLength(value, 9);
    NatToStringLength(value, 10);
  }

  /** `AppDlToStr` as written: the insertion offset grows by 3, then 4, then
      5, ... where 4 every time is needed, so the loop stops one separator
      short on ten-digit counts: they lose the separator after their first
      digit (1234567890 shows as "1234,567,890"). */
  method AppDlToStrAsWritten(value: nat) returns (str: string)
    requires value < 0x1_0000_0000
    ensures var d := NatToString(value);
      && Uncomma(str) == d
      && (value < 1_000_000_000 ==> str == Group(d))
      && (value >= 1_000_000_000 ==> |d| == 10 && str == d[..4] + "," + d[4..7] + "," + d[7..])
  {
    str := NatToString(value);
    ghost var d := str;
    DigitsOf(value);
    var inc := 3;
    var i := 3;
    ghost var k := 0;
    while i < |str|
      invariant 0 <= k <= 2
      invariant k == 0 ==> str == d && i == 3 && inc == 3
      invariant k == 1 ==> |d| > 3 && str == d[..|d| - 3] + "," + d[|d| - 3..] && i == 7 && inc == 4
      invariant k == 2 ==> |d| > 6 && str == d[..|d| - 6] + "," + d[|d| - 6..|d| - 3] + "," + d[|d| - 3..] && i == 12 && inc == 5
      decreases 2 - k
    {
      str := str[..|str| - i] + "," + str[|str| - i..];
      inc := inc + 1;
      i := i + inc;
      k := k + 1;
    }
    AsWrittenShape(d, str, k);
  }

  lemma UncommaJoin(p: string, t: string)
    requires ',' !in p && ',' !in t
    ensures Uncomma(p + "," + t) == p + t
  {
    UncommaAppend(p + ",", t);
    UncommaSeparator(p);
    UncommaNone(p);
    UncommaNone(t);
  }

  lemma UncommaJoin3(p: string, q: string, t: string)
    requires ',' !in p && ',' !in q && ',' !in t
    ensures Uncomma(p + "," + q + "," + t) == p + q + t
  {
    UncommaJoin(p, q);
    UncommaSeparator(p + "," + q);
    UncommaAppend(p + "," + q + ",", t);
    UncommaNone(t);
  }

  lemma UncommaSeparator(x: string)
    ensures Uncomma(x + ",") == Uncomma(x)
  {
    assert (x + ",")[..|x|] == x;
  }

  /** The output of the as-written loop after `k` insertions, for a count
      of at most ten digits. */
  lemma AsWrittenShape(d: string, str: string, k: nat)
    requires ',' !in d && 1 <= |d| <= 10
    requires k == 0 ==> str == d && |d| <= 3
    requires k == 1 ==> 3 < |d| <= 6 && str == d[..|d| - 3] + "," + d[|d| - 3..]
    requires k == 2 ==> 6 < |d| && str == d[..|d| - 6] + "," + d[|d| - 6..|d| - 3] + "," + d[|d| - 3..]
    requires k <= 2
    ensures Uncomma(str) == d
    ensures |d| <= 9 ==> str == Group(d)
    ensures |d| == 10 ==> str == d[..4] + "," + d[4..7] + "," + d[7..]
  {
    var n := |d|;
    if k == 0 {
      UncommaNone(d);
    } else if k == 1 {
      OneSeparator(d);
    } else {
      TwoSeparators(d);
    }
  }

  lemma OneSeparator(d: string)
    requires ',' !in d && 3 < |d| <= 6
    ensures var n := |d|; Uncomma(d[..n - 3] + "," + d[n - 3..]) == d
    ensures var n := |d|; Group(d) == d[..n - 3] + "," + d[n - 3..]
  {
    var n := |d|;
    var p, t := d[..n - 3], d[n - 3..];
    assert p + t == d;
    UncommaJoin(p, t);
  }

  lemma TwoSeparators(d: string)
    requires ',' !in d && 6 < |d| <= 10
    ensures var n := |d|; Uncomma(d[..n - 6] + "," + d[n - 6..n - 3] + "," + d[n - 3..]) == d
    ensures var n := |d|; n <= 9 ==> Group(d) == d[..n - 6] + "," + d[n - 6..n - 3] + "," + d[n - 3..]
  {
    var n := |d|;
    ThreeParts(d, n - 6, n - 3);
    UncommaJoin3(d[..n - 6], d[n - 6..n - 3], d[n - 3..]);
    if n <= 9 {
      GroupTwo(d);
    }
  }

  /** Three consecutive slices of a text without separators. */
  lemma ThreeParts(d: string, i: nat, j: nat)
    requires ',' !in d && i <= j <= |d|
    ensures d[..i] + d[i..j] + d[j..] == d
    ensures ',' !in d[..i] && ',' !in d[i..j] && ',' !in d[j..]
  {
    assert d[..i] + d[i..j] + d[j..] == d;
    assert forall c :: c in d[..i] || c in d[i..j] || c in d[j..] ==> c in d;
  }

  lemma GroupTwo(d: string)
    requires 6 < |d| <= 9
    ensures var n := |d|; Group(d) == d[..n - 6] + "," + d[n - 6..n - 3] + "," + d[n - 3..]
  {
    var n := |d|;
    var h := d[..n - 3];
    assert h[..|h| - 3] == d[..n - 6] && h[|h| - 3..] == d[n - 6..n - 3];
    assert Group(h) == d[..n - 6] + "," + d[n - 6..n - 3];
  }

  /** For every ten-digit count the as-written text differs from the
      grouped one: its first separator sits after four digits. */
  lemma AsWrittenTenDigits(d: string)
    requires ',' !in d && |d| == 10
    ensures Group(d) == d[..1] + "," + d[1..4] + "," + d[4..7] + "," + d[7..]
    ensures d[..4] + "," + d[4..7] + "," + d[7..] != Group(d)
  {
    var h := d[..7];
    var g := d[..4];
    assert g[..1] == d[..1] && g[1..] == d[1..4];
    assert h[..4] == g && h[4..] == d[4..7];
    assert Group(g) == d[..1] + "," + d[1..4];
    assert Group(h) == Group(g) + "," + d[4..7];
    var w := d[..4] + "," + d[4..7] + "," + d[7..];
    assert w[1] == d[1] && Group(d)[1] == ',';
    assert d[1] in d;
  }

  /** The example: 1234567890 is shown as "1234,567,890". */
  lemma AsWrittenExample()
    ensures NatToString(1234567890) == "1234567890"
  {
    assert NatToString(12) == "12";
    assert NatToString(123) == "123";
    assert NatToString(1234) == "1234";
    assert NatToString(12345) == "12345";
    assert NatToString(123456) == "123456";
    assert NatToString(1234567) == "1234567";
    assert NatToString(12345678) == "12345678";
    assert NatToString(123456789) == "123456789";
  }

  /** `AppDlToStr` with the offset growing by 4 every time: a separator
      before every group of three digits. */
  method AppDlToStr(value: nat) returns (str: string)
    ensures str == Group(NatToString(value))
  {
    str := NatToString(value);
    ghost var d := str;
    var i := 3;
    ghost var m := |d|;
    assert d[..m] == d;
    while i < |str|
      invariant 0 <= m <= |d| && m <= |str|
      invariant m == |str| - i + 3
      invariant str[..m] == d[..m]
      invariant Group(d) == Group(d[..m]) + str[m..]
      decreases |str| - i
    {
      CommaStep(d, str, m);
      str := str[..|str| - i] + "," + str[|str| - i..];
      i := i + 4;
      m := m - 3;
    }
    assert str == str[..m] + str[m..];
  }

  /** One step of `AppDlToStr`: a separator put before the last three
      digits not yet grouped keeps the grouping of the whole text. */
  lemma CommaStep(d: string, str: string, m: nat)
    requires 3 < m <= |d| && m <= |str| && str[..m] == d[..m]
    requires Group(d) == Group(d[..m]) + str[m..]
    ensures var t := str[..m - 3] + "," + str[m - 3..];
      t[..m - 3] == d[..m - 3] && Group(d) == Group(d[..m - 3]) + t[m - 3..]
  {
    CommaSplice(d, str, m);
    GroupPrefix(d, m);
    Regroup(Group(d[..m]), Group(d[..m - 3]), d[m - 3..m], str[m..]);
  }

  lemma Regroup(whole: string, init: string, last: string, rest: string)
    requires whole == init + "," + last
    ensures whole + rest == init + ("," + last + rest)
  {
  }

  /** The text of `CommaStep` around the new separator. */
  lemma CommaSplice(d: string, str: string, m: nat)
    requires 3 < m <= |d| && m <= |str| && str[..m] == d[..m]
    ensures var t := str[..m - 3] + "," + str[m - 3..];
      t[..m - 3] == d[..m - 3] && t[m - 3..] == "," + d[m - 3..m] + str[m..]
  {
    assert d[m - 3..m] == str[..m][m - 3..] == str[m - 3..m];
    assert str[m - 3..] == str[m - 3..m] + str[m..];
    assert d[..m - 3] == d[..m][..m - 3];
    assert str[..m - 3] == str[..m][..m - 3];
  }

  /** One more group split off a prefix of the digits. */
  lemma GroupPrefix(d: string, m: nat)
    requires 3 < m <= |d|
    ensures Group(d[..m]) == Group(d[..m - 3]) + "," + d[m - 3..m]
  {
    var p := d[..m];
    assert p[..m - 3] == d[..m - 3] && p[m - 3..] == d[m - 3..m];
  }

  // ---------------------------------------------------------------------
  // Case-insensitive search

  /** `std::search` from position `i` with the `toupper` comparison: the
      first position where `term` matches, or `|base|` when there is none. */
  function SearchFrom(base: string, term: string, i: nat): (k: nat)
    requires i <= |base|
    ensures i <= k <= |base|
    decreases |base| - i
  {
    if i + |term| > |base| then |base|
    else if MatchAt(base, term, i) then i
    else SearchFrom(base, term, i + 1)
  }

  /** `FindCaseInsensitive`: the search result is not the end of `base`. */
  predicate FindCaseInsensitive(base: string, term: string) {
    SearchFrom(base, term, 0) < |base|
  }

  lemma {:induction false} SearchFromSpec(base: string, term: string, i: nat)
    requires i <= |base|
    ensures var k := SearchFrom(base, term, i);
      && (k < |base| ==> k + |term| <= |base| && MatchAt(base, term, k))
      && forall j :: i <= j < k && j + |term| <= |base| ==> !MatchAt(base, term, j)
    decreases |base| - i
  {
    if i + |term| <= |base| && !MatchAt(base, term, i) {
      SearchFromSpec(base, term, i + 1);
    }
  }

  /** The search succeeds exactly when `term` occurs, up to ASCII case, at
      a position inside `base`; so an empty term matches every non-empty
      text and not the empty text. */
  lemma FindCaseInsensitiveSpec(base: string, term: string)
    ensures FindCaseInsensitive(base, term) <==>
      exists i :: 0 <= i < |base| && i + |term| <= |base| && MatchAt(base, term, i)
    ensures term == [] ==> (FindCaseInsensitive(base, term) <==> base != [])
  {
    SearchFromSpec(base, term, 0);
    var k := SearchFrom(base, term, 0);
    if term == [] && base != [] {
      assert MatchAt(base, term, 0);
    }
  }

  /** A text contains every piece of itself, unless both are empty. */
  lemma FindsInfix(a: string, t: string, b: string)
    requires a + t + b != []
    ensures FindCaseInsensitive(a + t + b, t)
  {
    var s := a + t + b;
    FindCaseInsensitiveSpec(s, t);
    if |a| < |s| {
      assert MatchAt(s, t, |a|) by {
        forall j | 0 <= j < |t| ensures UpperEq(s[|a| + j], t[j]) {
          assert s[|a| + j] == t[j];
        }
      }
    } else {
      assert t == [] && b == [];
      assert MatchAt(s, t, 0);
    }
  }

  /** Terms that differ only in ASCII case find the same texts. */
  lemma FindIgnoresCase(base: string, t: string, u: string)
    requires |t| == |u| && forall j :: 0 <= j < |t| ==> UpperEq(t[j], u[j])
    ensures FindCaseInsensitive(base, t) == FindCaseInsensitive(base, u)
  {
    FindCaseInsensitiveSpec(base, t);
    FindCaseInsensitiveSpec(base, u);
    forall i | 0 <= i < |base| && i + |t| <= |base|
      ensures MatchAt(base, t, i) == MatchAt(base, u, i)
    {
    }
  }

  // ---------------------------------------------------------------------
  // FNV-1a hash and the placeholder colours

  const FnvOffsetBasis: bv32 := 2166136261
  const FnvPrime: bv32 := 16777619

  /** The byte value of a character, as the `unsigned char` loop reads it. */
  function Byte(c: char): bv32 {
    (c as int % 256) as bv32
  }

  /** One round of the loop: `h ^= c; h *= 16777619u;`, the product taken
      modulo 2^32. */
  function FnvStep(h: bv32, c: char): bv32 {
    (h ^ Byte(c)) * FnvPrime
  }

  /** The hash of `s`, defined from its last character back. */
  function Fnv1a(s: string): bv32
    decreases |s|
  {
    if s == [] then FnvOffsetBasis else FnvStep(Fnv1a(s[..|s| - 1]), s[|s| - 1])
  }

  /** The rounds over `s` started from `h`. */
  function FnvFrom(h: bv32, s: string): bv32
    decreases |s|
  {
    if s == [] then h else FnvFrom(FnvStep(h, s[0]), s[1..])
  }

  /** `fnv1a32`. */
  method Fnv1a32(s: string) returns (h: bv32)
    ensures h == Fnv1a(s)
  {
    h := FnvOffsetBasis;
    for i := 0 to |s|
      invariant h == Fnv1a(s[..i])
    {
      FnvPrefix(s, i);
      h := FnvStep(h, s[i]);
    }
    assert s[..|s|] == s;
  }

  lemma FnvPrefix(s: string, i: nat)
    requires i < |s|
    ensures Fnv1a(s[..i + 1]) == FnvStep(Fnv1a(s[..i]), s[i])
  {
    assert s[..i + 1][..i] == s[..i];
  }

  /** Hashing a text in two parts: the hash of the first part is the state
      the rounds over the second part start from. */
  lemma {:induction false} Fnv1aAppend(a: string, b: string)
    ensures Fnv1a(a + b) == FnvFrom(Fnv1a(a), b)
    decreases |b|
  {
    if b != [] {
      var a2, b2 := a + [b[0]], b[1..];
      assert a + b == a2 + b2;
      assert a2[..|a2| - 1] == a;
      Fnv1aAppend(a2, b2);
    } else {
      assert a + b == a;
    }
  }

  /** The published FNV-1a 32-bit values of "" and "a". */
  lemma Fnv1aVectors()
    ensures Fnv1a("") == 0x811c9dc5
    ensures Fnv1a("a") == 0xe40c292c
  {
    assert "a"[..0] == "";
  }

  datatype Rgb = Rgb(r: int, g: int, b: int)

  function Clamp(c: int, lo: int, hi: int): (r: int)
    requires lo <= hi
    ensures lo <= r <= hi
    ensures lo <= c <= hi ==> r == c
  {
    if c < lo then lo else if c > hi then hi else c
  }

  /** One channel of `mk_col`: `bias` plus a byte of `x` reduced modulo
      `span`, clamped to 0..255. The byte is non-negative, so C's truncating
      `%` and Dafny's agree. */
  function Channel(x: bv32, sh: nat, bias: int, span: int): (c: int)
    requires sh <= 16 && span != 0
    ensures 0 <= c <= 255
    ensures 0 <= bias && 0 < span && bias + span <= 256 ==> bias <= c < bias + span
  {
    Clamp(bias + ((x >> sh) & 0xFF) as int % span, 0, 255)
  }

  /** `mk_col`: the channels from bytes 0, 1 and 2 of `v`. */
  function MkCol(v: bv32, bias: int, span: int): Rgb
    requires span != 0
  {
    Rgb(Channel(v, 0, bias, span), Channel(v, 8, bias, span), Channel(v, 16, bias, span))
  }

  predicate InRange(c: Rgb, lo: int, hi: int) {
    lo <= c.r < hi && lo <= c.g < hi && lo <= c.b < hi
  }

  /** The two colours of a cover placeholder, from the hash of the title id
      (of the title when there is no id): background, then top. */
  function CoverColours(title: string, titleId: string): (cs: (Rgb, Rgb))
    ensures InRange(cs.0, 40, 200) && InRange(cs.1, 120, 255)
  {
    var h := Fnv1a(if titleId == [] then title else titleId);
    (MkCol(h * 9176 + 0x45ab23, 40, 160), MkCol(h * 13331 + 0x89f1d1, 120, 135))
  }
}
