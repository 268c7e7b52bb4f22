/** The application core: the widget stack and its focus and pop flags, the
    touch-screen state machine, theme colours and theme inheritance, the
    emuMMC classification and the left/right tab settings. Widgets are
    owned by the stack alone (`std::unique_ptr`), so they are kept as
    values in a sequence field; what a derived widget does when it gains
    focus or updates is not part of this model. */
module AppCore {
  import opened Text
  import opened Wrappers

  // ---------------------------------------------------------------------
  // The widget stack

  /** The flags of a widget the application loop reads and writes. */
  datatype Widget = Widget(isMenu: bool, hidden: bool, focus: bool, pop: bool)

  /** At most the top widget has focus. */
  predicate FocusOnTop(ws: seq<Widget>) {
    forall i :: 0 <= i < |ws| - 1 ==> !ws[i].focus
  }

  /** The stack with the focus flag of its top set to `f`. */
  function WithTopFocus(ws: seq<Widget>, f: bool): (r: seq<Widget>)
    ensures |r| == |ws|
  {
    if ws == [] then [] else ws[..|ws| - 1] + [ws[|ws| - 1].(focus := f)]
  }

  /** `App::Push`: the old top loses focus, the new widget goes on top
      and gains it. */
  function Pushed(ws: seq<Widget>, w: Widget): seq<Widget> {
    WithTopFocus(ws, false) + [w.(focus := true)]
  }

  /** Pushing keeps the widgets below with their flags (focus aside), puts
      the new widget on top with focus, and leaves no other widget focused. */
  lemma PushedSpec(ws: seq<Widget>, w: Widget)
    ensures var r := Pushed(ws, w);
      && |r| == |ws| + 1 && r[|ws|] == w.(focus := true)
      && (forall i :: 0 <= i < |ws| - 1 ==> r[i] == ws[i])
      && (ws != [] ==> r[|ws| - 1] == ws[|ws| - 1].(focus := false))
      && (FocusOnTop(ws) ==> FocusOnTop(r)) && r[|r| - 1].focus
  {
    var r := Pushed(ws, w);
    if ws != [] {
      assert forall i :: 0 <= i < |ws| - 1 ==> r[i] == ws[..|ws| - 1][i];
    }
  }

  /** How many widgets at the top of the stack have their pop flag set. */
  function TrailingPops(ws: seq<Widget>): (k: nat)
    ensures k <= |ws|
  {
    if ws == [] || !ws[|ws| - 1].pop then 0 else 1 + TrailingPops(ws[..|ws| - 1])
  }

  /** The stack once `App::Update` has popped. */
  function AfterPops(ws: seq<Widget>): seq<Widget> {
    ws[..|ws| - TrailingPops(ws)]
  }

  /** Every popped widget asked to be popped, and the widget left on top
      (if any) did not. */
  lemma {:induction false} AfterPopsSpec(ws: seq<Widget>)
    ensures var r := AfterPops(ws);
      && r == ws[..|r|]
      && (forall i :: |r| <= i < |ws| ==> ws[i].pop)
      && (r != [] ==> !r[|r| - 1].pop)
  {
    if ws != [] && ws[|ws| - 1].pop {
      var init := ws[..|ws| - 1];
      AfterPopsSpec(init);
      assert AfterPops(ws) == AfterPops(init);
      assert forall i :: 0 <= i < |init| ==> init[i] == ws[i];
    }
  }

  /** The stack after `App::Update` when something is left: the new top
      gains focus, only if at least one widget was popped. */
  function Updated(ws: seq<Widget>): seq<Widget> {
    var r := AfterPops(ws);
    if |r| < |ws| then WithTopFocus(r, true) else r
  }

  /** Updating keeps focus on the top alone. */
  lemma UpdatedFocus(ws: seq<Widget>)
    requires FocusOnTop(ws)
    ensures FocusOnTop(Updated(ws))
    ensures |AfterPops(ws)| < |ws| && AfterPops(ws) != [] ==> Updated(ws)[|Updated(ws)| - 1].focus
  {
    var r := AfterPops(ws);
    AfterPopsSpec(ws);
    if |r| < |ws| && r != [] {
      var u := WithTopFocus(r, true);
      forall i | 0 <= i < |u| - 1 ensures !u[i].focus {
        assert u[i] == r[i] == ws[i];
      }
    } else if r != [] {
      assert r == ws;
    }
  }

  /** The index of the topmost widget satisfying `isMenu` (and not hidden,
      when `visible`), or -1. */
  function LastMenu(ws: seq<Widget>, visible: bool): (m: int)
    ensures -1 <= m < |ws|
    ensures m >= 0 ==> ws[m].isMenu && (visible ==> !ws[m].hidden)
    ensures forall j :: m < j < |ws| ==> !(ws[j].isMenu && (visible ==> !ws[j].hidden))
  {
    if ws == [] then -1
    else
      var w := ws[|ws| - 1];
      if w.isMenu && (visible ==> !w.hidden) then |ws| - 1 else LastMenu(ws[..|ws| - 1], visible)
  }

  /** `App::PopToMenu`: every widget above the topmost menu marked to pop;
      the menu and what is below it untouched. */
  function MarkedToMenu(ws: seq<Widget>): (r: seq<Widget>)
    ensures |r| == |ws|
  {
    var m := LastMenu(ws, false);
    seq(|ws|, j requires 0 <= j < |ws| => if j > m then ws[j].(pop := true) else ws[j])
  }

  /** After `PopToMenu` the next update brings the topmost menu back on
      top, unless the menu is itself marked; with no menu it empties the
      stack, which ends the application. */
  lemma PopToMenuThenUpdate(ws: seq<Widget>)
    ensures var m := LastMenu(ws, false);
      && (m >= 0 && !ws[m].pop ==> AfterPops(MarkedToMenu(ws)) == ws[..m + 1])
      && (m < 0 ==> AfterPops(MarkedToMenu(ws)) == [])
  {
    var m := LastMenu(ws, false);
    var r := MarkedToMenu(ws);
    AfterPopsSpec(r);
    var a := AfterPops(r);
    if m >= 0 && !ws[m].pop {
      assert !r[m].pop;
      assert |a| >= m + 1;
      assert a == ws[..m + 1];
    }
  }

  /** The indices in `lo..hi` of the widgets not hidden, in order. */
  function Visible(ws: seq<Widget>, lo: nat, hi: nat): (r: seq<nat>)
    requires lo <= hi <= |ws|
    decreases hi
  {
    if hi == lo then [] else Visible(ws, lo, hi - 1) + (if !ws[hi - 1].hidden then [hi - 1] else [])
  }

  lemma {:induction false} VisibleSpec(ws: seq<Widget>, lo: nat, hi: nat)
    requires lo <= hi <= |ws|
    ensures forall j :: j in Visible(ws, lo, hi) <==> lo <= j < hi && !ws[j].hidden
    ensures forall i, j :: 0 <= i < j < |Visible(ws, lo, hi)| ==> Visible(ws, lo, hi)[i] < Visible(ws, lo, hi)[j]
    decreases hi
  {
    if hi > lo {
      VisibleSpec(ws, lo, hi - 1);
      var v := Visible(ws, lo, hi - 1);
      assert forall i :: 0 <= i < |v| ==> v[i] in v;
    }
  }

  /** `App::Draw`: from the topmost visible menu up to the top, every
      widget not hidden, bottom first; nothing without a visible menu. */
  function Drawn(ws: seq<Widget>): seq<nat> {
    var m := LastMenu(ws, true);
    if m < 0 then [] else Visible(ws, m, |ws|)
  }

  /** What is drawn, in which order, and that the menu is drawn first. */
  lemma DrawnSpec(ws: seq<Widget>)
    ensures var m := LastMenu(ws, true); var d := Drawn(ws);
      && (forall j :: j in d <==> 0 <= m <= j < |ws| && !ws[j].hidden)
      && (forall i, k :: 0 <= i < k < |d| ==> d[i] < d[k])
      && (d != [] <==> m >= 0)
      && (d != [] ==> d[0] == m)
  {
    var m := LastMenu(ws, true);
    if m >= 0 {
      VisibleSpec(ws, m, |ws|);
      var d := Visible(ws, m, |ws|);
      assert m in d;
      assert d[0] in d;
      var p :| 0 <= p < |d| && d[p] == m;
    }
  }

  // ---------------------------------------------------------------------
  // Touch input

  datatype Point = Point(x: int, y: int)

  /** `TouchInfo`. */
  datatype Touch = Touch(initial: Point, cur: Point, isTouching: bool, isTap: bool,
                         isScroll: bool, isClicked: bool, isEnd: bool)

  function Abs(x: int): nat { if x < 0 then -x else x }

  /** A move of more than 20 on either axis. */
  predicate Moved(a: Point, b: Point) {
    Abs(a.x - b.x) > 20 || Abs(a.y - b.y) > 20
  }

  /** The touch state after one `App::Poll` that reads `count` contacts,
      the first at `p`. */
  function NextTouch(t: Touch, count: nat, p: Point): Touch {
    var t := t.(isClicked := false);
    if count == 1 && !t.isTouching then t.(initial := p, cur := p, isTouching := true, isTap := true)
    else if count >= 1 && t.isTouching then
      if t.isTap && Moved(t.initial, p) then t.(cur := p, isTap := false, isScroll := true) else t.(cur := p)
    else if t.isTouching then
      if t.isTap then t.(isTouching := false, isScroll := false, isClicked := true)
      else t.(isTouching := false, isScroll := false, isEnd := true)
    else t
  }

  /** A touch starts only with exactly one contact, as a tap at that
      contact. */
  lemma TouchStart(t: Touch, count: nat, p: Point)
    requires !t.isTouching
    ensures var n := NextTouch(t, count, p);
      && (n.isTouching <==> count == 1)
      && (count == 1 ==> n.isTap && n.initial == p && n.cur == p)
      && !n.isClicked
  {
  }

  /** A click is reported exactly on the poll that sees the contacts
      released while the touch was still a tap, and for that poll only. */
  lemma TouchClick(t: Touch, count: nat, p: Point)
    ensures NextTouch(t, count, p).isClicked <==> count == 0 && t.isTouching && t.isTap
    ensures t.isClicked && !t.isTouching ==> !NextTouch(t, count, p).isClicked
  {
  }

  /** While touching, a move of more than 20 from where the touch started
      turns the tap into a scroll, which ends when the contacts are released. */
  lemma TouchScroll(t: Touch, count: nat, p: Point)
    requires t.isTouching && count >= 1
    ensures var n := NextTouch(t, count, p);
      && n.isTouching && n.cur == p
      && (t.isTap && Moved(t.initial, p) ==> !n.isTap && n.isScroll)
      && (!t.isTap ==> !n.isTap && n.isScroll == t.isScroll)
  {
  }

  /** A scroll happens only while touching and never together with a tap;
      every poll keeps this. `isEnd` is never cleared. */
  predicate Coherent(t: Touch) {
    (!t.isTouching ==> !t.isScroll) && !(t.isTap && t.isScroll)
  }

  lemma NextTouchCoherent(t: Touch, count: nat, p: Point)
    requires Coherent(t)
    ensures Coherent(NextTouch(t, count, p))
    ensures t.isEnd ==> NextTouch(t, count, p).isEnd
  {
  }

  // ---------------------------------------------------------------------
  // Colours

  function HexValueOf(c: char): (v: nat)
    requires IsHexDigit(c)
    ensures v < 16
  {
    if IsDigit(c) then c as int - '0' as int
    else if 'a' <= c <= 'f' then c as int - 'a' as int + 10
    else c as int - 'A' as int + 10
  }

  predicate AllHex(s: string) {
    forall i :: 0 <= i < |s| ==> IsHexDigit(s[i])
  }

  /** The longest prefix of hex digits. */
  function HexRun(s: string): (r: string)
    ensures |r| <= |s| && r == s[..|r|] && AllHex(r)
    ensures |r| < |s| ==> !IsHexDigit(s[|r|])
  {
    if s != [] && IsHexDigit(s[0]) then [s[0]] + HexRun(s[1..]) else []
  }

  /** The value of a string of hex digits, read left to right as
      `strtoul` accumulates it. */
  function HexValue(s: string): nat
    requires AllHex(s)
  {
    if s == [] then 0
    else
      assert IsHexDigit(s[|s| - 1]);
      16 * HexValue(s[..|s| - 1]) + HexValueOf(s[|s| - 1])
  }

  function Pow16(n: nat): (p: nat)
    ensures p > 0
  {
    if n == 0 then 1 else 16 * Pow16(n - 1)
  }

  const ULongMax: nat := 0xFFFF_FFFF_FFFF_FFFF

  /** `(u32)strtoul(s, &end, 16)` on an LP64 target: white space, a sign
      and a `0x` prefix are skipped, hex digits are read, an overflow
      saturates at the largest `unsigned long`, a minus sign negates modulo
      2^64, then the value is cut to 32 bits. None when no digit is read
      (`end` stays at `s`). */
  function StrToU32(s: string): (r: Option<nat>)
    ensures r.Some? ==> r.value < 0x1_0000_0000
    ensures r.None? <==> HexRun(UnPrefixed(s)) == []
  {
    var t := LTrim(s);
    var neg := t != [] && t[0] == '-';
    var d := HexRun(UnPrefixed(s));
    if d == [] then None
    else
      var v := HexValue(d);
      var w := if v > ULongMax then ULongMax else if neg && v > 0 then ULongMax + 1 - v else v;
      Some(w % 0x1_0000_0000)
  }

  /** Where `strtoul` starts reading digits. */
  function UnPrefixed(s: string): string {
    var t := LTrim(s);
    var t := if t != [] && (t[0] == '-' || t[0] == '+') then t[1..] else t;
    if |t| >= 3 && t[0] == '0' && (t[1] == 'x' || t[1] == 'X') && IsHexDigit(t[2]) then t[2..] else t
  }

  /** Hex digits alone are read as their value. */
  lemma StrToU32Hex(s: string)
    requires s != [] && AllHex(s) && HexValue(s) <= ULongMax
    ensures StrToU32(s) == Some(HexValue(s) % 0x1_0000_0000)
  {
    assert LTrim(s) == s;
    assert UnPrefixed(s) == s;
    assert s[..|s|] == s;
    assert HexRun(s) == s;
    assert s[0] != '-';
  }

  datatype Rgba = Rgba(r: nat, g: nat, b: nat, a: nat)

  /** The four bytes of a 32-bit colour, high byte first. */
  function Channels(c: nat): Rgba {
    Rgba(c / 256 / 256 / 256 % 256, c / 256 / 256 % 256, c / 256 % 256, c % 256)
  }

  /** `App::LoadElementColour`: a `0x` prefix and at least one hex digit
      are needed; six characters or fewer after the prefix are `RRGGBB`
      with alpha forced to 0xFF, longer ones `RRGGBBAA`. */
  function LoadElementColour(value: string): (r: Option<Rgba>)
    ensures r.Some? ==> r.value.r < 256 && r.value.g < 256 && r.value.b < 256 && r.value.a < 256
    ensures r.Some? ==> |value| >= 3 && value[..2] == "0x"
  {
    if |value| < 2 || value[..2] != "0x" then None
    else
      var rest := value[2..];
      match StrToU32(rest)
      case None => None
      case Some(c) => Some(Channels(WithAlpha(|rest|, c)))
  }

  /** `n` digits worth `c` as `RRGGBBAA`: with six or fewer the value is
      shifted up a byte (within 32 bits) and alpha 0xFF is put below. */
  function WithAlpha(n: nat, c: nat): nat {
    if n <= 6 then (c * 256) % 0x1_0000_0000 + 0xFF else c
  }

  function HexDigitChar(v: nat): (c: char)
    requires v < 16
    ensures IsHexDigit(c) && HexValueOf(c) == v
  {
    if v < 10 then ('0' as int + v) as char else ('a' as int + v - 10) as char
  }

  /** A byte as two hex digits. */
  function Hex2(v: nat): (s: string)
    requires v < 256
    ensures |s| == 2 && AllHex(s)
  {
    [HexDigitChar(v / 16), HexDigitChar(v % 16)]
  }

  lemma HexSnoc(s: string, c: char)
    requires AllHex(s) && IsHexDigit(c)
    ensures AllHex(s + [c]) && HexValue(s + [c]) == 16 * HexValue(s) + HexValueOf(c)
  {
    assert (s + [c])[..|s|] == s;
  }

  lemma Shift(x: nat, p: nat, y: nat, h: nat)
    ensures 16 * (x * p + y) + h == x * (16 * p) + (16 * y + h)
  {
  }

  /** Reading `a + b` is reading `a`, shifting it by the digits of `b`,
      and adding `b`. */
  lemma {:induction false} HexValueAppend(a: string, b: string)
    requires AllHex(a) && AllHex(b)
    ensures AllHex(a + b) && HexValue(a + b) == HexValue(a) * Pow16(|b|) + HexValue(b)
    decreases |b|
  {
    if b == [] {
      assert a + b == a;
    } else {
      var n := |b| - 1;
      var c, init := b[n], b[..n];
      assert IsHexDigit(c);
      assert b == init + [c];
      assert a + b == (a + init) + [c];
      HexValueAppend(a, init);
      HexSnoc(a + init, c);
      HexSnoc(init, c);
      Shift(HexValue(a), Pow16(n), HexValue(init), HexValueOf(c));
    }
  }

  lemma Hex2Value(v: nat)
    requires v < 256
    ensures HexValue(Hex2(v)) == v
  {
    var s := Hex2(v);
    HexSnoc([s[0]], s[1]);
    HexSnoc([], s[0]);
    assert [s[0]] + [s[1]] == s;
    assert [] + [s[0]] == [s[0]];
  }

  /** `RRGGBB` as hex: the value 0xRRGGBB. */
  lemma HexColour(r: nat, g: nat, b: nat)
    requires r < 256 && g < 256 && b < 256
    ensures AllHex(Hex2(r) + Hex2(g) + Hex2(b))
    ensures HexValue(Hex2(r) + Hex2(g) + Hex2(b)) == (r * 256 + g) * 256 + b < 0x100_0000
  {
    HexValueAppend(Hex2(r), Hex2(g));
    HexValueAppend(Hex2(r) + Hex2(g), Hex2(b));
    Hex2Value(r);
    Hex2Value(g);
    Hex2Value(b);
    assert Pow16(2) == 256;
    ByteShift(r, g, 256);
    ByteShift(r * 256 + g, b, 0x1_0000);
  }

  /** `RRGGBBAA` as hex: the value 0xRRGGBBAA. */
  lemma HexColourAlpha(r: nat, g: nat, b: nat, a: nat)
    requires r < 256 && g < 256 && b < 256 && a < 256
    ensures AllHex(Hex2(r) + Hex2(g) + Hex2(b) + Hex2(a))
    ensures HexValue(Hex2(r) + Hex2(g) + Hex2(b) + Hex2(a)) == ((r * 256 + g) * 256 + b) * 256 + a < 0x1_0000_0000
  {
    HexColour(r, g, b);
    HexValueAppend(Hex2(r) + Hex2(g) + Hex2(b), Hex2(a));
    Hex2Value(a);
    assert Pow16(2) == 256;
    ByteShift((r * 256 + g) * 256 + b, a, 0x100_0000);
  }

  lemma ByteShift(x: nat, y: nat, n: nat)
    requires x < n && y < 256
    ensures x * 256 + y < n * 256
  {
    assert x * 256 <= (n - 1) * 256;
  }

  /** The channels of `0xRRGGBBAA` are its bytes. */
  lemma ChannelsOf(c: nat, r: nat, g: nat, b: nat, a: nat)
    requires r < 256 && g < 256 && b < 256 && a < 256
    requires c == ((r * 256 + g) * 256 + b) * 256 + a
    ensures Channels(c) == Rgba(r, g, b, a)
  {
    var x := (r * 256 + g) * 256 + b;
    assert (x * 256 + a) / 256 == x && (x * 256 + a) % 256 == a;
    var y := r * 256 + g;
    assert x / 256 == y && x % 256 == b;
    assert y / 256 == r && y % 256 == g;
  }
  /** `strtoul` reads the hex digits after `0x` as their value. */
  lemma ReadsDigits(digits: string, c: nat)
    requires digits != [] && AllHex(digits) && HexValue(digits) == c && c < 0x1_0000_0000
    ensures var v := "0x" + digits; |v| >= 2 && v[..2] == "0x" && StrToU32(v[2..]) == Some(c)
  {
    var v := "0x" + digits;
    assert v[..2] == "0x" && v[2..] == digits;
    StrToU32Hex(digits);
    ModSmall(c, 0x1_0000_0000);
  }

  /** More than six digits worth `c`: the colour `c` as it is. */
  lemma LongColour(digits: string, c: nat)
    requires |digits| > 6 && AllHex(digits) && HexValue(digits) == c && c < 0x1_0000_0000
    ensures LoadElementColour("0x" + digits) == Some(Channels(c))
  {
    ReadsDigits(digits, c);
  }

  /** Six digits or fewer worth `c`: the colour `c` with alpha 0xFF. */
  lemma ShortColour(digits: string, c: nat)
    requires digits != [] && |digits| <= 6 && AllHex(digits) && HexValue(digits) == c && c < 0x100_0000
    ensures LoadElementColour("0x" + digits) == Some(Channels(c * 256 + 0xFF))
  {
    ReadsDigits(digits, c);
    ByteShift(c, 0, 0x100_0000);
    ModSmall(c * 256, 0x1_0000_0000);
    assert WithAlpha(|digits|, c) == c * 256 + 0xFF;
  }

  lemma ModSmall(c: nat, n: nat)
    requires c < n
    ensures c % n == c
  {
  }

  /** A six-digit colour reads back as its channels with alpha 0xFF. */
  lemma ColourRoundTrip(r: nat, g: nat, b: nat)
    requires r < 256 && g < 256 && b < 256
    ensures LoadElementColour("0x" + (Hex2(r) + Hex2(g) + Hex2(b))) == Some(Rgba(r, g, b, 0xFF))
  {
    HexColour(r, g, b);
    var x := (r * 256 + g) * 256 + b;
    ShortColour(Hex2(r) + Hex2(g) + Hex2(b), x);
    ChannelsOf(x * 256 + 0xFF, r, g, b, 0xFF);
  }

  /** An eight-digit colour reads back as its channels, alpha included. */
  lemma AlphaRoundTrip(r: nat, g: nat, b: nat, a: nat)
    requires r < 256 && g < 256 && b < 256 && a < 256
    ensures LoadElementColour("0x" + Hex2(r) + Hex2(g) + Hex2(b) + Hex2(a)) == Some(Rgba(r, g, b, a))
  {
    var digits := Hex2(r) + Hex2(g) + Hex2(b) + Hex2(a);
    assert "0x" + Hex2(r) + Hex2(g) + Hex2(b) + Hex2(a) == "0x" + digits;
    HexColourAlpha(r, g, b, a);
    LongColour(digits, ((r * 256 + g) * 256 + b) * 256 + a);
    ChannelsOf(((r * 256 + g) * 256 + b) * 256 + a, r, g, b, a);
  }

  /** Six digits or fewer after the prefix always give an opaque colour. */
  lemma AlphaForced(value: string)
    requires |value| <= 8 && LoadElementColour(value).Some?
    ensures LoadElementColour(value).value.a == 0xFF
  {
    AlphaByte(StrToU32(value[2..]).value);
  }

  lemma AlphaByte(c: nat)
    ensures WithAlpha(6, c) % 256 == 0xFF
  {
    var y := (c * 256) % 0x1_0000_0000;
    assert y % 256 == 0 by {
      assert c * 256 == (c / 0x100_0000) * 0x1_0000_0000 + (c % 0x100_0000) * 256;
    }
  }

  /** No colour without the prefix or without a hex digit after it. */
  lemma ColourRejects(value: string)
    ensures |value| < 2 || value[..2] != "0x" ==> LoadElementColour(value).None?
    ensures |value| >= 2 && value[..2] == "0x" && HexRun(UnPrefixed(value[2..])) == [] ==> LoadElementColour(value).None?
  {
  }

  /** What a theme element can be. */
  datatype ElementType = NoType | ColourType | TextureType
  datatype Element = NoElement | ColourElement(colour: Rgba) | TextureElement

  /** `App::LoadElement`: values of one character or less are nothing;
      colours are tried first when the type allows them, then an image
      (`imageLoads` says whether the value names an image that loads). */
  function LoadElement(value: string, kind: ElementType, imageLoads: bool): (e: Element)
    ensures |value| <= 1 ==> e == NoElement
    ensures kind == ColourType ==> !e.TextureElement?
    ensures kind == TextureType ==> !e.ColourElement?
    ensures e.ColourElement? ==> LoadElementColour(value) == Some(e.colour)
    ensures kind != TextureType && LoadElementColour(value).Some? && |value| > 1 ==> e.ColourElement?
  {
    if |value| <= 1 then NoElement
    else if kind != TextureType && LoadElementColour(value).Some? then ColourElement(LoadElementColour(value).value)
    else if kind != ColourType && imageLoads then TextureElement
    else NoElement
  }

  // ---------------------------------------------------------------------
  // Themes

  /** One key of an INI file, in file order. */
  datatype IniEntry = IniEntry(section: string, key: string, value: string)

  datatype ThemeMeta = ThemeMeta(name: string, author: string, version: string, inherit: string, iniPath: string)

  const EmptyMeta := ThemeMeta("", "", "", "", "")
  const BaseTheme := "romfs:/themes/base_black_theme.ini"
  const InheritMax := 5

  /** The entries `ini_browse` hands to the meta callback before it
      returns 0 on the first entry outside `[meta]`. */
  function MetaPrefix(es: seq<IniEntry>): (r: seq<IniEntry>)
    ensures |r| <= |es| && r == es[..|r|]
    ensures forall i :: 0 <= i < |r| ==> r[i].section == "meta"
    ensures |r| < |es| ==> es[|r|].section != "meta"
  {
    if es != [] && es[0].section == "meta" then [es[0]] + MetaPrefix(es[1..]) else []
  }

  function MetaOf(es: seq<IniEntry>): (m: ThemeMeta)
    ensures m.iniPath == []
  {
    if es == [] then EmptyMeta
    else
      var m, e := MetaOf(es[..|es| - 1]), es[|es| - 1];
      if e.key == "name" then m.(name := e.value)
      else if e.key == "author" then m.(author := e.value)
      else if e.key == "version" then m.(version := e.value)
      else if e.key == "inherit" then m.(inherit := e.value)
      else m
  }

  /** `LoadThemeMeta` on the theme files `files`: whether it succeeds and
      the meta it leaves behind (filled in as far as the file went, with
      the path only on success). */
  function LoadThemeMeta(path: string, files: map<string, seq<IniEntry>>): (r: (bool, ThemeMeta))
    ensures r.0 ==> path in files && r.1.name != [] && r.1.author != [] && r.1.version != [] && r.1.iniPath == path
    ensures !r.0 ==> r.1.iniPath == []
  {
    if path !in files then (false, EmptyMeta)
    else
      var m := MetaOf(MetaPrefix(files[path]));
      if m.name == [] || m.author == [] || m.version == [] then (false, m)
      else (true, m.(iniPath := path))
  }

  /** The `[theme]` keys of an INI file laid over `data`, later keys
      overriding earlier ones; only the theme's element names are kept. */
  function ApplyTheme(data: map<string, string>, es: seq<IniEntry>, labels: set<string>): map<string, string> {
    if es == [] then data
    else
      var d, e := ApplyTheme(data, es[..|es| - 1], labels), es[|es| - 1];
      if e.section == "theme" && e.key in labels then d[e.key := e.value] else d
  }

  /** The last `[theme]` value of `key` in the file, if any. */
  function ThemeValue(es: seq<IniEntry>, key: string): Option<string> {
    if es == [] then None
    else
      var e := es[|es| - 1];
      if e.section == "theme" && e.key == key then Some(e.value) else ThemeValue(es[..|es| - 1], key)
  }

  lemma {:induction false} ApplyThemeValue(data: map<string, string>, es: seq<IniEntry>, labels: set<string>, key: string)
    requires key in labels
    ensures var d := ApplyTheme(data, es, labels);
      && (ThemeValue(es, key).Some? ==> key in d && d[key] == ThemeValue(es, key).value)
      && (ThemeValue(es, key).None? ==> (key in d <==> key in data) && (key in data ==> d[key] == data[key]))
  {
    if es != [] {
      ApplyThemeValue(data, es[..|es| - 1], labels, key);
    }
  }

  /** The meta the loader uses at `level`: an empty top-level `inherit`
      means the base black theme. */
  function Defaulted(meta: ThemeMeta, level: nat): ThemeMeta {
    if meta.inherit == [] && level == 0 then meta.(inherit := BaseTheme) else meta
  }

  /** Whether the loader follows `inherit`: below the depth limit, not
      empty, not `none` in any case, not the theme itself. */
  predicate Follows(meta: ThemeMeta, level: nat) {
    level < InheritMax && meta.inherit != [] && !IsNone(meta.inherit) && meta.inherit != meta.iniPath
  }

  /** `strcasecmp(s, "none") == 0`, with the length compared first. */
  predicate IsNone(s: string) {
    |s| == 4 && CaseEq(s, "none")
  }

  lemma IsNoneCaseEq(s: string)
    ensures IsNone(s) <==> CaseEq(s, "none")
  {
    if CaseEq(s, "none") {
      assert |LowerStr(s)| == |LowerStr("none")|;
    }
  }

  /** The meta of the parent theme as the loader takes it. */
  function ParentMeta(meta: ThemeMeta, files: map<string, seq<IniEntry>>): (p: ThemeMeta)
    ensures p.iniPath == meta.inherit
  {
    var r := LoadThemeMeta(meta.inherit, files);
    if r.0 then r.1 else r.1.(iniPath := meta.inherit)
  }

  /** The INI files the loader reads, the farthest parent first (`romfs`:
      whether `romfsInit` succeeds). */
  function Chain(meta: ThemeMeta, level: nat, files: map<string, seq<IniEntry>>, romfs: bool): (c: seq<string>)
    requires level <= InheritMax
    ensures |c| <= InheritMax + 1 - level
    ensures romfs ==> c != [] && c[|c| - 1] == Defaulted(meta, level).iniPath
    ensures !romfs ==> c == []
    decreases InheritMax - level
  {
    var m := Defaulted(meta, level);
    var parents := if Follows(m, level) && romfs then Chain(ParentMeta(m, files), level + 1, files, romfs) else [];
    parents + (if romfs then [m.iniPath] else [])
  }

  /** `LoadThemeInternal`: the parent chain loaded first, then the
      theme's own `[theme]` keys. */
  function LoadThemeInternal(meta: ThemeMeta, data: map<string, string>, level: nat,
                             files: map<string, seq<IniEntry>>, romfs: bool, labels: set<string>): map<string, string>
    requires level <= InheritMax
    decreases InheritMax - level
  {
    var m := Defaulted(meta, level);
    var data := if Follows(m, level) && romfs then LoadThemeInternal(ParentMeta(m, files), data, level + 1, files, romfs, labels) else data;
    if romfs && m.iniPath in files then ApplyTheme(data, files[m.iniPath], labels) else data
  }

  /** The files of `chain` (those that open) applied in order. */
  function ApplyChain(data: map<string, string>, chain: seq<string>, files: map<string, seq<IniEntry>>, labels: set<string>): map<string, string> {
    if chain == [] then data
    else
      var d, p := ApplyChain(data, chain[..|chain| - 1], files, labels), chain[|chain| - 1];
      if p in files then ApplyTheme(d, files[p], labels) else d
  }

  lemma ChainStep(meta: ThemeMeta, level: nat, files: map<string, seq<IniEntry>>)
    requires level <= InheritMax
    ensures var m := Defaulted(meta, level);
      Chain(meta, level, files, true)
        == (if Follows(m, level) then Chain(ParentMeta(m, files), level + 1, files, true) else []) + [m.iniPath]
  {
  }

  lemma LoadStep(meta: ThemeMeta, data: map<string, string>, level: nat,
                 files: map<string, seq<IniEntry>>, labels: set<string>)
    requires level <= InheritMax
    ensures var m := Defaulted(meta, level);
      var inherited := if Follows(m, level) then LoadThemeInternal(ParentMeta(m, files), data, level + 1, files, true, labels) else data;
      LoadThemeInternal(meta, data, level, files, true, labels)
        == if m.iniPath in files then ApplyTheme(inherited, files[m.iniPath], labels) else inherited
  {
  }

  lemma ApplyChainSnoc(data: map<string, string>, parents: seq<string>, p: string,
                       files: map<string, seq<IniEntry>>, labels: set<string>)
    ensures ApplyChain(data, parents + [p], files, labels)
      == if p in files then ApplyTheme(ApplyChain(data, parents, files, labels), files[p], labels)
         else ApplyChain(data, parents, files, labels)
  {
    assert (parents + [p])[..|parents|] == parents;
  }

  /** One level of `LoadIsChain` when the parent is followed. */
  lemma ChainFollowed(meta: ThemeMeta, data: map<string, string>, level: nat,
                      files: map<string, seq<IniEntry>>, labels: set<string>)
    requires level < InheritMax && Follows(Defaulted(meta, level), level)
    requires var pm := ParentMeta(Defaulted(meta, level), files);
      LoadThemeInternal(pm, data, level + 1, files, true, labels) == ApplyChain(data, Chain(pm, level + 1, files, true), files, labels)
    ensures LoadThemeInternal(meta, data, level, files, true, labels) == ApplyChain(data, Chain(meta, level, files, true), files, labels)
  {
    var m := Defaulted(meta, level);
    var pm := ParentMeta(m, files);
    ChainStep(meta, level, files);
    LoadStep(meta, data, level, files, labels);
    ApplyChainSnoc(data, Chain(pm, level + 1, files, true), m.iniPath, files, labels);
  }

  /** One level of `LoadIsChain` when the parent is not followed. */
  lemma ChainStopped(meta: ThemeMeta, data: map<string, string>, level: nat,
                     files: map<string, seq<IniEntry>>, labels: set<string>)
    requires level <= InheritMax && !Follows(Defaulted(meta, level), level)
    ensures LoadThemeInternal(meta, data, level, files, true, labels) == ApplyChain(data, Chain(meta, level, files, true), files, labels)
  {
    var m := Defaulted(meta, level);
    ChainStep(meta, level, files);
    LoadStep(meta, data, level, files, labels);
    ApplyChainSnoc(data, [], m.iniPath, files, labels);
  }

  /** Loading a theme is applying its chain of at most six files in
      order, parents first. */
  lemma {:induction false} LoadIsChain(meta: ThemeMeta, data: map<string, string>, level: nat,
                                       files: map<string, seq<IniEntry>>, romfs: bool, labels: set<string>)
    requires level <= InheritMax
    ensures LoadThemeInternal(meta, data, level, files, romfs, labels) == ApplyChain(data, Chain(meta, level, files, romfs), files, labels)
    decreases InheritMax - level
  {
    if !romfs {
      assert Chain(meta, level, files, false) == [];
    } else if Follows(Defaulted(meta, level), level) {
      LoadIsChain(ParentMeta(Defaulted(meta, level), files), data, level + 1, files, true, labels);
      ChainFollowed(meta, data, level, files, labels);
    } else {
      ChainStopped(meta, data, level, files, labels);
    }
  }

  /** The theme's own keys override everything it inherits. */
  lemma ChildOverrides(meta: ThemeMeta, data: map<string, string>, files: map<string, seq<IniEntry>>,
                       labels: set<string>, key: string)
    requires key in labels && meta.iniPath in files && ThemeValue(files[meta.iniPath], key).Some?
    ensures var d := LoadThemeInternal(meta, data, 0, files, true, labels);
      key in d && d[key] == ThemeValue(files[meta.iniPath], key).value
  {
    var m := Defaulted(meta, 0);
    var inherited := if Follows(m, 0) then LoadThemeInternal(ParentMeta(m, files), data, 1, files, true, labels) else data;
    ApplyThemeValue(inherited, files[meta.iniPath], labels, key);
  }

  /** A theme inheriting from itself or from `none` loads its own file
      alone. */
  lemma InheritStops(meta: ThemeMeta, files: map<string, seq<IniEntry>>)
    requires meta.inherit != [] && (CaseEq(meta.inherit, "none") || meta.inherit == meta.iniPath)
    ensures Chain(meta, 0, files, true) == [meta.iniPath]
  {
    IsNoneCaseEq(meta.inherit);
    assert Defaulted(meta, 0) == meta;
  }

  /** A top-level theme without `inherit` loads the base black theme
      right before its own file. */
  lemma {:induction false} InheritsBase(meta: ThemeMeta, files: map<string, seq<IniEntry>>)
    requires meta.inherit == [] && meta.iniPath != BaseTheme
    ensures var c := Chain(meta, 0, files, true);
      |c| >= 2 && c[|c| - 2] == BaseTheme && c[|c| - 1] == meta.iniPath
  {
    BaseFollowed(meta);
    ParentBeforeChild(meta, 0, files);
  }

  /** A followed parent's file is read right before the theme's own. */
  lemma {:induction false} ParentBeforeChild(meta: ThemeMeta, level: nat, files: map<string, seq<IniEntry>>)
    requires level < InheritMax && Follows(Defaulted(meta, level), level)
    ensures var c := Chain(meta, level, files, true);
      |c| >= 2 && c[|c| - 2] == Defaulted(meta, level).inherit && c[|c| - 1] == meta.iniPath
  {
    ChainStep(meta, level, files);
    var pm := ParentMeta(Defaulted(meta, level), files);
    assert Defaulted(pm, level + 1) == pm;
  }

  lemma BaseFollowed(meta: ThemeMeta)
    requires meta.inherit == [] && meta.iniPath != BaseTheme
    ensures Defaulted(meta, 0).inherit == BaseTheme && Follows(Defaulted(meta, 0), 0)
  {
  }

  /** The theme's elements: each name's value loaded with its type; a
      name the files never set is empty, hence no element. */
  function LoadedElements(data: map<string, string>, entries: seq<(string, ElementType)>, images: set<string>): (r: seq<Element>)
    ensures |r| == |entries|
    ensures forall i :: 0 <= i < |entries| && entries[i].0 !in data ==> r[i] == NoElement
  {
    seq(|entries|, i requires 0 <= i < |entries| =>
      var v := if entries[i].0 in data then data[entries[i].0] else "";
      LoadElement(v, entries[i].1, v in images))
  }

  /** `THEME_ENTRIES`: each element's INI name and the kinds of value it
      accepts. */
  const ThemeEntries: seq<(string, ElementType)> := [
    ("background", NoType), ("grid", NoType),
    ("text", ColourType), ("text_info", ColourType), ("text_selected", ColourType),
    ("selected_background", ColourType), ("error", ColourType), ("popup", ColourType),
    ("focus", ColourType), ("line", ColourType), ("line_separator", ColourType),
    ("sidebar", ColourType), ("scrollbar", ColourType), ("scrollbar_background", ColourType),
    ("progressbar", ColourType), ("progressbar_background", ColourType),
    ("highlight_1", ColourType), ("highlight_2", ColourType), ("icon_colour", ColourType),
    ("icon_audio", TextureType), ("icon_video", TextureType), ("icon_image", TextureType),
    ("icon_file", TextureType), ("icon_folder", TextureType), ("icon_zip", TextureType),
    ("icon_nro", TextureType)]

  function ThemeLabels(): set<string> {
    set i | 0 <= i < |ThemeEntries| :: ThemeEntries[i].0
  }

  /** `App::LoadTheme`: the inherited theme data loaded from an empty
      start, then every element loaded from its value; without romfs no
      element loads. `images` are the values that name an image that
      loads. */
  function LoadTheme(meta: ThemeMeta, files: map<string, seq<IniEntry>>, romfs: bool, images: set<string>): (r: seq<Element>)
    ensures |r| == |ThemeEntries|
    ensures !romfs ==> forall i :: 0 <= i < |r| ==> r[i] == NoElement
    ensures forall i :: 0 <= i < |r| && ThemeEntries[i].1 == ColourType ==> !r[i].TextureElement?
    ensures forall i :: 0 <= i < |r| && ThemeEntries[i].1 == TextureType ==> !r[i].ColourElement?
  {
    if !romfs then seq(|ThemeEntries|, _ => NoElement)
    else LoadedElements(LoadThemeInternal(meta, map[], 0, files, true, ThemeLabels()), ThemeEntries, images)
  }

  // ---------------------------------------------------------------------
  // emuMMC

  /** The emuMMC paths read from the configuration: empty when unset. */
  datatype EmummcPaths = EmummcPaths(fileBased: string, nintendo: string)

  predicate IsEmummc(p: EmummcPaths) { p.fileBased != [] || p.nintendo != [] }
  predicate IsPartitionBased(p: EmummcPaths) { p.fileBased == [] && p.nintendo != [] }
  predicate IsFileBased(p: EmummcPaths) { p.fileBased != [] && p.nintendo != [] }

  /** `GetInstallEnable`: the emuMMC setting on an emuMMC, else the
      sysMMC one. */
  function InstallEnabled(p: EmummcPaths, sysmmc: bool, emummc: bool): (r: bool)
    ensures IsEmummc(p) ==> r == emummc
    ensures !IsEmummc(p) ==> r == sysmmc
  {
    if IsEmummc(p) then emummc else sysmmc
  }

  /** The two layouts exclude each other and together are exactly the
      configurations with a Nintendo folder; a file path without one counts
      as an emuMMC of neither layout. */
  lemma EmummcKinds(p: EmummcPaths)
    ensures !(IsPartitionBased(p) && IsFileBased(p))
    ensures IsPartitionBased(p) || IsFileBased(p) <==> p.nintendo != []
    ensures IsEmummc(p) <==> IsPartitionBased(p) || IsFileBased(p) || p.fileBased != []
    ensures p.fileBased != [] && p.nintendo == [] ==> IsEmummc(p) && !IsPartitionBased(p) && !IsFileBased(p)
  {
  }

  // ---------------------------------------------------------------------
  // Left and right tabs

  /** Choosing `e` for one side (`mine`) when the other side holds
      `other`: the new pair (mine, other). */
  function ChooseSide(mine: string, other: string, e: string): (r: (string, string))
    ensures r.0 == e
  {
    if mine == e then (mine, other)
    else if other == e then (e, mine)
    else (e, other)
  }

  /** The two tabs stay different, and choosing the other tab's menu swaps
      the two. */
  lemma ChooseSideDistinct(mine: string, other: string, e: string)
    requires mine != other
    ensures ChooseSide(mine, other, e).0 != ChooseSide(mine, other, e).1
    ensures other == e ==> ChooseSide(mine, other, e) == (other, mine)
    ensures {ChooseSide(mine, other, e).0, ChooseSide(mine, other, e).1} == {e, if other == e then mine else other}
  {
  }

  // ---------------------------------------------------------------------
  // The application object

  class App {
    var widgets: seq<Widget>
    var quit: bool
    var touch: Touch
    /** Whether the last poll read the pad. */
    var padRead: bool
    var leftMenu: string
    var rightMenu: string

    constructor (left: string, right: string)
      ensures widgets == [] && !quit && leftMenu == left && rightMenu == right
      ensures !touch.isTouching && !touch.isTap && !touch.isScroll && !touch.isClicked && !touch.isEnd
    {
      widgets := [];
      quit := false;
      touch := Touch(Point(0, 0), Point(0, 0), false, false, false, false, false);
      padRead := false;
      leftMenu := left;
      rightMenu := right;
    }

    /** `App::Push`. */
    method Push(w: Widget)
      modifies this`widgets
      ensures widgets == Pushed(old(widgets), w)
    {
      if widgets != [] {
        var n := |widgets| - 1;
        widgets := widgets[n := widgets[n].(focus := false)];
        assert widgets == WithTopFocus(old(widgets), false);
      }
      widgets := widgets + [w.(focus := true)];
    }

    /** `App::Update` after the top widget's own update: pop the trailing
        widgets that asked for it, end the application when none is left,
        and give the new top focus if anything was popped. */
    method Update()
      requires widgets != []
      modifies this`widgets, this`quit
      ensures AfterPops(old(widgets)) == [] ==> quit && widgets == []
      ensures AfterPops(old(widgets)) != [] ==> quit == old(quit) && widgets == Updated(old(widgets))
    {
      ghost var ws := widgets;
      var popped := false;
      while widgets != [] && widgets[|widgets| - 1].pop
        invariant |widgets| <= |ws| && widgets == ws[..|widgets|]
        invariant TrailingPops(ws) == TrailingPops(widgets) + (|ws| - |widgets|)
        invariant popped <==> |widgets| < |ws|
        invariant quit == old(quit)
        decreases |widgets|
      {
        assert widgets[..|widgets| - 1] == ws[..|widgets| - 1];
        widgets := widgets[..|widgets| - 1];
        popped := true;
      }
      assert widgets == AfterPops(ws);
      if widgets == [] {
        quit := true;
        assert AfterPops(old(widgets)) == [];
        return;
      }
      ghost var r := widgets;
      assert popped <==> |r| < |ws|;
      if popped {
        var n := |widgets| - 1;
        widgets := widgets[n := widgets[n].(focus := true)];
        assert widgets == WithTopFocus(r, true);
      }
      assert widgets == Updated(ws);
    }

    /** `App::PopToMenu`: from the top down, mark every widget to pop up
        to the first menu. */
    method PopToMenu()
      modifies this`widgets
      ensures widgets == MarkedToMenu(old(widgets))
    {
      ghost var ws := widgets;
      var i := |widgets|;
      while i > 0 && !widgets[i - 1].isMenu
        invariant 0 <= i <= |widgets| == |ws|
        invariant forall j :: 0 <= j < i ==> widgets[j] == ws[j]
        invariant forall j :: i <= j < |ws| ==> widgets[j] == ws[j].(pop := true) && !ws[j].isMenu
        decreases i
      {
        widgets := widgets[i - 1 := widgets[i - 1].(pop := true)];
        i := i - 1;
      }
      LastMenuAt(ws, i);
    }

    /** The widgets `App::Draw` draws, by index, in drawing order. */
    method DrawOrder() returns (drawn: seq<nat>)
      ensures drawn == Drawn(widgets)
    {
      var m := -1;
      var i := |widgets|;
      while i > 0
        invariant 0 <= i <= |widgets|
        invariant forall j :: i <= j < |widgets| ==> !(widgets[j].isMenu && !widgets[j].hidden)
        decreases i
      {
        if !widgets[i - 1].hidden && widgets[i - 1].isMenu {
          m := i - 1;
          break;
        }
        i := i - 1;
      }
      LastVisibleMenuAt(widgets, m);
      drawn := [];
      if m >= 0 {
        for j := m to |widgets|
          invariant drawn == Visible(widgets, m, j)
        {
          if !widgets[j].hidden {
            drawn := drawn + [j];
          }
        }
      }
    }

    /** `App::Poll` on the touch screen: `count` contacts, the first at
        `p`; the pad is read only when neither touching nor clicked. */
    method Poll(count: nat, p: Point)
      modifies this`touch, this`padRead
      ensures touch == NextTouch(old(touch), count, p)
      ensures padRead == (!touch.isTouching && !touch.isClicked)
    {
      touch := touch.(isClicked := false);
      if count == 1 && !touch.isTouching {
        touch := touch.(initial := p, cur := p);
        touch := touch.(isTouching := true, isTap := true);
      } else if count >= 1 && touch.isTouching {
        touch := touch.(cur := p);
        if touch.isTap && (Abs(touch.initial.x - touch.cur.x) > 20 || Abs(touch.initial.y - touch.cur.y) > 20) {
          touch := touch.(isTap := false, isScroll := true);
        }
      } else if touch.isTouching {
        touch := touch.(isTouching := false, isScroll := false);
        if touch.isTap {
          touch := touch.(isClicked := true);
        } else {
          touch := touch.(isEnd := true);
        }
      }
      padRead := !touch.isTouching && !touch.isClicked;
    }

    /** The restart prompt the tab settings push. */
    static const RestartPrompt := Widget(false, false, false, false)

    /** "Set left-side menu": a different choice is stored, the right tab
        takes the old left one if it held the choice, and a restart prompt
        is pushed. */
    method SetLeftMenu(e: string)
      modifies this`leftMenu, this`rightMenu, this`widgets
      ensures (leftMenu, rightMenu) == ChooseSide(old(leftMenu), old(rightMenu), e)
      ensures widgets == if old(leftMenu) == e then old(widgets) else Pushed(old(widgets), RestartPrompt)
    {
      if leftMenu != e {
        if rightMenu == e {
          rightMenu := leftMenu;
        }
        leftMenu := e;
        Push(RestartPrompt);
      }
    }

    /** "Set right-side menu", the same with the sides exchanged. */
    method SetRightMenu(e: string)
      modifies this`leftMenu, this`rightMenu, this`widgets
      ensures (rightMenu, leftMenu) == ChooseSide(old(rightMenu), old(leftMenu), e)
      ensures widgets == if old(rightMenu) == e then old(widgets) else Pushed(old(widgets), RestartPrompt)
    {
      if rightMenu != e {
        if leftMenu == e {
          leftMenu := rightMenu;
        }
        rightMenu := e;
        Push(RestartPrompt);
      }
    }
  }

  /** The exit state of `PopToMenu`'s loop is the topmost menu. */
  lemma LastMenuAt(ws: seq<Widget>, i: nat)
    requires i <= |ws| && (i > 0 ==> ws[i - 1].isMenu)
    requires forall j :: i <= j < |ws| ==> !ws[j].isMenu
    ensures LastMenu(ws, false) == i - 1
  {
  }

  lemma LastVisibleMenuAt(ws: seq<Widget>, m: int)
    requires -1 <= m < |ws| && (m >= 0 ==> ws[m].isMenu && !ws[m].hidden)
    requires forall j :: m < j < |ws| ==> !(ws[j].isMenu && !ws[j].hidden)
    ensures LastMenu(ws, true) == m
  {
  }
}
