/** The device-activation helpers built on the INI reader and writer: the
    hex encoding of the device id and the boolean settings. The configuration
    file is passed as its content (`None`: the read failed). */
module DeviceAuth {
  import opened Text
  import opened Wrappers
  import opened DeviceAuthIni

  type Byte = x: int | 0 <= x < 256

  const INI_SEC_AUTH: string := "auth"
  const INI_KEY_ACTIV: string := "activated"
  const INI_KEY_TOKEN: string := "token"
  const INI_KEY_DEV_ID: string := "device_id"

  const HEX_DIGITS: string := "0123456789ABCDEF"

  /** An upper-case hex digit. */
  predicate IsUpperHex(c: char) { '0' <= c <= '9' || 'A' <= c <= 'F' }

  /** The value of an upper-case hex digit. */
  function HexValue(c: char): nat {
    if '0' <= c <= '9' then c as int - '0' as int
    else if 'A' <= c <= 'F' then c as int - 'A' as int + 10
    else 0
  }

  /** `k[d]` of the digit table: the digit whose value is `d`. */
  function HexDigit(d: nat): (c: char)
    requires d < 16
    ensures IsUpperHex(c) && HexValue(c) == d
  {
    HEX_DIGITS[d]
  }

  /** Two digits per byte, the high nibble (`p[i] >> 4`) first, then the low
      nibble (`p[i] & 0xF`). */
  function HexUpper(p: seq<Byte>): (s: string)
    ensures |s| == 2 * |p|
    ensures forall k :: 0 <= k < |s| ==> IsUpperHex(s[k])
  {
    seq(2 * |p|, k requires 0 <= k < 2 * |p| =>
      if k % 2 == 0 then HexDigit(p[k / 2] / 16) else HexDigit(p[k / 2] % 16))
  }

  /** `BytesToHexUpper`: the string is sized first and every pair of
      characters is written in place. */
  method BytesToHexUpper(p: seq<Byte>) returns (s: string)
    ensures s == HexUpper(p)
  {
    ghost var target := HexUpper(p);
    s := seq(2 * |p|, _ => '\0');
    var i := 0;
    while i < |p|
      invariant 0 <= i <= |p| && |s| == 2 * |p|
      invariant forall k :: 0 <= k < 2 * i ==> s[k] == target[k]
    {
      s := s[2 * i := HEX_DIGITS[p[i] / 16]];
      s := s[2 * i + 1 := HEX_DIGITS[p[i] % 16]];
      i := i + 1;
    }
  }

  /** Reading the digits back in pairs. */
  function HexDecode(s: string): (p: seq<Byte>)
    requires |s| % 2 == 0
    ensures |p| == |s| / 2
  {
    seq(|s| / 2, i requires 0 <= i < |s| / 2 =>
      var v := 16 * HexValue(s[2 * i]) + HexValue(s[2 * i + 1]);
      if v < 256 then v else 0)
  }

  /** One byte's two digits give the byte back. */
  lemma HexPair(b: Byte)
    ensures 16 * HexValue(HexDigit(b / 16)) + HexValue(HexDigit(b % 16)) == b
  {
  }

  lemma HexUpperAt(p: seq<Byte>, i: nat)
    requires i < |p|
    ensures HexUpper(p)[2 * i] == HexDigit(p[i] / 16)
    ensures HexUpper(p)[2 * i + 1] == HexDigit(p[i] % 16)
  {
    assert (2 * i) / 2 == i && (2 * i) % 2 == 0;
    assert (2 * i + 1) / 2 == i && (2 * i + 1) % 2 == 1;
  }

  /** The encoding loses nothing: decoding gives the bytes back. */
  lemma HexRoundTrip(p: seq<Byte>)
    ensures HexDecode(HexUpper(p)) == p
  {
    var s := HexUpper(p);
    var d := HexDecode(s);
    forall i | 0 <= i < |p| ensures d[i] == p[i] {
      HexUpperAt(p, i);
      HexPair(p[i]);
    }
  }

  // ---------------------------------------------------------------------
  // Boolean settings

  /** `IniGetBool`: the setting read into an 8-byte buffer, with `"1"` or
      `"0"` as the default, is true when it is `1` or, in any case, `true`. */
  function IniGetBool(section: Option<string>, key: Option<string>, def: bool, file: Option<string>): bool {
    var buf := Gets(section, key, Some(if def then "1" else "0"), 8, file);
    buf == "1" || CaseEq(buf, "true")
  }

  /** `IniPutBool`: the value is stored as `1` or `0`. */
  function IniPutBool(section: Option<string>, key: Option<string>, v: bool,
                      file: Option<string>, writeOk: bool): PutResult
  {
    Puts(section, key, Some(if v then "1" else "0"), file, writeOk)
  }

  /** The 8-byte buffer never changes the answer: the setting is true exactly
      when the text `ini_gets` chose is `1` or case-insensitively `true`. */
  lemma IniGetBoolMeaning(section: Option<string>, key: Option<string>, def: bool, file: Option<string>)
    ensures var c := Chosen(section, key, Some(if def then "1" else "0"), file);
      IniGetBool(section, key, def, file) <==> (c == "1" || CaseEq(c, "true"))
  {
    var c := Chosen(section, key, Some(if def then "1" else "0"), file);
    var buf := Gets(section, key, Some(if def then "1" else "0"), 8, file);
    if |c| > 7 {
      assert |buf| == 7;
      assert |LowerStr(buf)| == 7 && |LowerStr(c)| == |c| && |LowerStr("true")| == 4;
    }
  }

  /** A failed read gives the default. */
  lemma IniGetBoolReadError(section: Option<string>, key: Option<string>, def: bool)
    ensures IniGetBool(section, key, def, None) == def
  {
    var buf := Gets(section, key, Some(if def then "1" else "0"), 8, None);
    assert buf == (if def then "1" else "0");
    if !def {
      assert LowerStr("0")[0] == '0';
    }
  }


  /** Round trip: a stored boolean reads back as itself. */
  lemma IniPutBoolThenGet(section: string, key: string, v: bool, content: string, def: bool)
    requires PlainSection(section) && PlainKey(key)
    ensures var p := IniPutBool(Some(section), Some(key), v, Some(content), true);
      p.rc == 1 && p.written.Some? && IniGetBool(Some(section), Some(key), def, p.written) == v
  {
    var t := if v then "1" else "0";
    PutsThenGetsExact(section, key, t, content, Some(if def then "1" else "0"), 8);
    if !v {
      assert LowerStr("0")[0] == '0';
    }
  }

  // ---------------------------------------------------------------------
  // The device id

  /** What `GetOrCreateDeviceId` returns, and the text it wrote, if any. */
  datatype IdResult = IdResult(id: string, written: Option<string>)

  /** `GetOrCreateDeviceId`: the stored id when there is one (read into an
      80-byte buffer); otherwise the hex encoding of the random bytes `rnd`,
      which is then stored. */
  function GetOrCreateDeviceId(file: Option<string>, rnd: seq<Byte>, writeOk: bool): (r: IdResult)
    requires |rnd| == 16
    ensures var stored := Gets(Some(INI_SEC_AUTH), Some(INI_KEY_DEV_ID), Some([]), 80, file);
      && (stored != [] ==> r == IdResult(stored, None))
      && (stored == [] ==> r.id == HexUpper(rnd) && |r.id| == 32 && (file.Some? <==> r.written.Some?))
  {
    var buf := Gets(Some(INI_SEC_AUTH), Some(INI_KEY_DEV_ID), Some([]), 80, file);
    if buf != [] then IdResult(buf, None)
    else
      var id := HexUpper(rnd);
      IdResult(id, Puts(Some(INI_SEC_AUTH), Some(INI_KEY_DEV_ID), Some(id), file, writeOk).written)
  }


  /** The id reads back as itself: no white space, no line feed. */
  lemma HexUpperPlain(p: seq<Byte>)
    requires p != []
    ensures var s := HexUpper(p); '\n' !in s && Unpadded(s)
  {
    var s := HexUpper(p);
    assert IsUpperHex(s[0]) && IsUpperHex(s[|s| - 1]);
  }

  /** A created id, once written, is what the next read finds. */
  lemma CreatedIdReadsBack(content: string, id: string)
    requires |id| == 32 && '\n' !in id && Unpadded(id)
    ensures var w := Puts(Some(INI_SEC_AUTH), Some(INI_KEY_DEV_ID), Some(id), Some(content), true).written;
      Gets(Some(INI_SEC_AUTH), Some(INI_KEY_DEV_ID), Some([]), 80, w) == id
  {
    PutsThenGetsExact(INI_SEC_AUTH, INI_KEY_DEV_ID, id, content, Some([]), 80);
  }

  /** Once created and written, the id is found by the next call, which
      writes nothing. */
  lemma DeviceIdStable(file: Option<string>, rnd: seq<Byte>, rnd2: seq<Byte>)
    requires |rnd| == 16 && |rnd2| == 16
    ensures var r := GetOrCreateDeviceId(file, rnd, true);
      r.written.Some? ==> GetOrCreateDeviceId(r.written, rnd2, true) == IdResult(r.id, None)
  {
    var r := GetOrCreateDeviceId(file, rnd, true);
    if r.written.Some? {
      HexUpperPlain(rnd);
      CreatedIdReadsBack(file.value, HexUpper(rnd));
    }
  }
}
