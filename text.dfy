/** Character and string helpers shared by every component: the C library's
    `isspace`, `tolower`/`toupper`, `strcasecmp`, `std::to_string` and `atoi`,
    each restricted to the "C" locale. A `char` stands for one byte of a C string. */
module Text {

  /** `isspace` in the "C" locale: space, \t, \n, \v, \f and \r. */
  predicate IsSpace(c: char) {
    c == ' ' || c == '\t' || c == '\n' || c == '\U{0B}' || c == '\U{0C}' || c == '\r'
  }

  predicate IsDigit(c: char) { '0' <= c <= '9' }

  predicate IsHexDigit(c: char) { IsDigit(c) || 'a' <= c <= 'f' || 'A' <= c <= 'F' }

  /** `tolower` in the "C" locale. */
  function Lower(c: char): (r: char)
    ensures 'A' <= c <= 'Z' ==> r as int == c as int + 32
    ensures !('A' <= c <= 'Z') ==> r == c
  {
    if 'A' <= c <= 'Z' then (c as int + 32) as char else c
  }

  /** `toupper` in the "C" locale. */
  function Upper(c: char): (r: char)
    ensures 'a' <= c <= 'z' ==> r as int == c as int - 32
    ensures !('a' <= c <= 'z') ==> r == c
  {
    if 'a' <= c <= 'z' then (c as int - 32) as char else c
  }

  function LowerStr(s: string): (r: string)
    ensures |r| == |s|
  {
    if s == [] then [] else [Lower(s[0])] + LowerStr(s[1..])
  }

  lemma {:induction false} LowerStrAt(s: string, i: nat)
    requires i < |s|
    ensures LowerStr(s)[i] == Lower(s[i])
  {
    if i > 0 {
      LowerStrAt(s[1..], i - 1);
    }
  }

  /** Two characters are equal once both are folded with `toupper`
      (the predicate `FindCaseInsensitive` passes to `std::search`). */
  predicate UpperEq(a: char, b: char) { Upper(a) == Upper(b) }

  /** The sign of a three-way comparison. */
  datatype Ord = Less | Equal | Greater {
    function Flip(): Ord {
      match this
      case Less => Greater
      case Equal => Equal
      case Greater => Less
    }
  }

  /** Byte-wise lexicographic comparison, as `strcmp` does on two strings
      without embedded NULs: a proper prefix compares less. */
  function LexCmp(a: string, b: string): Ord {
    if a == [] then (if b == [] then Equal else Less)
    else if b == [] then Greater
    else if a[0] < b[0] then Less
    else if a[0] > b[0] then Greater
    else LexCmp(a[1..], b[1..])
  }

  /** The sign of `strcasecmp(a, b)`: `strcmp` on the lower-cased strings. */
  function CaseCmp(a: string, b: string): Ord {
    LexCmp(LowerStr(a), LowerStr(b))
  }

  /** `strcasecmp(a, b) == 0`. */
  predicate CaseEq(a: string, b: string) { LowerStr(a) == LowerStr(b) }

  lemma {:induction false} LexCmpEqual(a: string, b: string)
    ensures LexCmp(a, b) == Equal <==> a == b
  {
    if a != [] && b != [] && a[0] == b[0] {
      LexCmpEqual(a[1..], b[1..]);
      assert a == [a[0]] + a[1..] && b == [b[0]] + b[1..];
    }
  }

  lemma {:induction false} LexCmpFlip(a: string, b: string)
    ensures LexCmp(b, a) == LexCmp(a, b).Flip()
  {
    if a != [] && b != [] && a[0] == b[0] {
      LexCmpFlip(a[1..], b[1..]);
    }
  }

  lemma {:induction false} LexCmpTrans(a: string, b: string, c: string)
    requires LexCmp(a, b) == Less && LexCmp(b, c) == Less
    ensures LexCmp(a, c) == Less
  {
    if a != [] && b != [] && c != [] && a[0] == b[0] && b[0] == c[0] {
      LexCmpTrans(a[1..], b[1..], c[1..]);
    }
  }

  lemma CaseCmpEqual(a: string, b: string)
    ensures CaseCmp(a, b) == Equal <==> CaseEq(a, b)
  {
    LexCmpEqual(LowerStr(a), LowerStr(b));
  }

  lemma CaseCmpFlip(a: string, b: string)
    ensures CaseCmp(b, a) == CaseCmp(a, b).Flip()
  {
    LexCmpFlip(LowerStr(a), LowerStr(b));
  }

  lemma CaseCmpTrans(a: string, b: string, c: string)
    requires CaseCmp(a, b) == Less && CaseCmp(b, c) == Less
    ensures CaseCmp(a, c) == Less
  {
    LexCmpTrans(LowerStr(a), LowerStr(b), LowerStr(c));
  }

  // ---------------------------------------------------------------------
  // White space and searching

  /** The text without its leading white space. */
  function LTrim(s: string): (t: string)
    ensures |t| <= |s|
    ensures t == [] || !IsSpace(t[0])
  {
    if s != [] && IsSpace(s[0]) then LTrim(s[1..]) else s
  }

  /** What `LTrim` keeps is a suffix. */
  lemma {:induction false} LTrimSuffix(s: string)
    ensures LTrim(s) == s[|s| - |LTrim(s)|..]
  {
    if s != [] && IsSpace(s[0]) {
      LTrimSuffix(s[1..]);
    }
  }

  /** The text without its trailing white space. */
  function RTrim(s: string): (t: string)
    ensures |t| <= |s|
    ensures t == [] || !IsSpace(t[|t| - 1])
  {
    if s != [] && IsSpace(s[|s| - 1]) then RTrim(s[..|s| - 1]) else s
  }

  /** What `RTrim` keeps is a prefix. */
  lemma {:induction false} RTrimPrefix(s: string)
    ensures RTrim(s) == s[..|RTrim(s)|]
  {
    if s != [] && IsSpace(s[|s| - 1]) {
      RTrimPrefix(s[..|s| - 1]);
    }
  }

  /** `LTrim` removes exactly the leading white space. */
  lemma {:induction false} LTrimSpec(s: string)
    ensures forall i :: 0 <= i < |s| - |LTrim(s)| ==> IsSpace(s[i])
  {
    if s != [] && IsSpace(s[0]) {
      LTrimSpec(s[1..]);
    }
  }

  /** `RTrim` removes exactly the trailing white space. */
  lemma {:induction false} RTrimSpec(s: string)
    ensures forall i :: |RTrim(s)| <= i < |s| ==> IsSpace(s[i])
  {
    if s != [] && IsSpace(s[|s| - 1]) {
      RTrimSpec(s[..|s| - 1]);
    }
  }

  /** Both ends trimmed, the trailing end after the leading one. */
  function Trim(s: string): string {
    RTrim(LTrim(s))
  }

  /** `Trim` keeps a middle part of the text, and what it drops at either end
      is white space. */
  lemma TrimSpec(s: string)
    ensures var t, a := Trim(s), |s| - |LTrim(s)|;
      && a + |t| <= |s| && t == s[a..a + |t|]
      && (forall i :: 0 <= i < a ==> IsSpace(s[i]))
      && (forall i :: a + |t| <= i < |s| ==> IsSpace(s[i]))
  {
    var l := LTrim(s);
    var a := |s| - |l|;
    var t := RTrim(l);
    LTrimSpec(s);
    RTrimSpec(l);
    LTrimSuffix(s);
    RTrimPrefix(l);
    TrimSlice(s, l, t);
    forall i | a + |t| <= i < |s| ensures IsSpace(s[i]) {
      assert s[i] == l[i - a];
    }
  }

  lemma TrimSlice(s: string, l: string, t: string)
    requires |l| <= |s| && l == s[|s| - |l|..]
    requires |t| <= |l| && t == l[..|t|]
    ensures t == s[|s| - |l|..|s| - |l| + |t|]
  {
  }

  /** No white space at either end. */
  predicate Unpadded(s: string) {
    s == [] || (!IsSpace(s[0]) && !IsSpace(s[|s| - 1]))
  }

  /** What `Trim` keeps has no white space at either end. */
  lemma TrimEnds(s: string)
    ensures Unpadded(Trim(s))
  {
    var l := LTrim(s);
    var t := RTrim(l);
    if t != [] {
      RTrimPrefix(l);
      assert t[0] == l[0];
    }
  }

  /** Trimming twice is trimming once. */
  lemma TrimIdempotent(s: string)
    ensures Trim(Trim(s)) == Trim(s)
  {
    TrimEnds(s);
    TrimNoSpace(Trim(s));
  }

  /** A text with no white space at either end is its own trim. */
  lemma TrimNoSpace(s: string)
    requires Unpadded(s)
    ensures Trim(s) == s
  {
  }

  /** Adding white space at the end changes the left trim only by that
      character, and only when something is left. */
  lemma {:induction false} LTrimSnoc(p: string, c: char)
    requires IsSpace(c)
    ensures LTrim(p + [c]) == if LTrim(p) == [] then [] else LTrim(p) + [c]
  {
    if p == [] {
      assert (p + [c])[1..] == [];
    } else if IsSpace(p[0]) {
      assert (p + [c])[1..] == p[1..] + [c];
      LTrimSnoc(p[1..], c);
    }
  }

  /** A trailing white-space character does not change the trim. */
  lemma TrimSnocSpace(p: string, c: char)
    requires IsSpace(c)
    ensures Trim(p + [c]) == Trim(p)
  {
    LTrimSnoc(p, c);
    var l := LTrim(p);
    if l != [] {
      assert (l + [c])[..|l + [c]| - 1] == l;
    }
  }

  /** A character that is not white space survives the right trim. */
  lemma RTrimKeeps(s: string, j: nat)
    requires j < |s| && !IsSpace(s[j])
    ensures j < |RTrim(s)|
  {
    RTrimSpec(s);
  }

  /** The position of the first `c` in `s`, or `|s|` when there is none
      (`std::string::find`, with `npos` read as `|s|`). */
  function IndexOf(s: string, c: char): (k: nat)
    ensures k <= |s|
    ensures k < |s| ==> s[k] == c
  {
    if s == [] then 0 else if s[0] == c then 0 else 1 + IndexOf(s[1..], c)
  }

  /** `IndexOf` finds the first occurrence. */
  lemma {:induction false} IndexOfFirst(s: string, c: char)
    ensures forall j :: 0 <= j < IndexOf(s, c) ==> s[j] != c
  {
    if s != [] && s[0] != c {
      IndexOfFirst(s[1..], c);
    }
  }

  /** The position of the first `c` at or after `start`, or `|s|` when there
      is none (`std::string::find(c, start)`, with `npos` read as `|s|`). */
  function FindFrom(s: string, start: nat, c: char): (k: nat)
    requires start <= |s|
    ensures start <= k <= |s|
    ensures k < |s| ==> s[k] == c
    decreases |s| - start
  {
    if start == |s| then start else if s[start] == c then start else FindFrom(s, start + 1, c)
  }

  /** `FindFrom` finds the first occurrence at or after `start`. */
  lemma {:induction false} FindFromFirst(s: string, start: nat, c: char)
    requires start <= |s|
    ensures forall j :: start <= j < FindFrom(s, start, c) ==> s[j] != c
    decreases |s| - start
  {
    if start < |s| && s[start] != c {
      FindFromFirst(s, start + 1, c);
    }
  }

  /** When `s[start..end]` holds no `c` and `end` holds one (or is the end of
      the text), `FindFrom` stops at `end`. */
  lemma {:induction false} FindFromAt(s: string, start: nat, end: nat, c: char)
    requires start <= end <= |s|
    requires forall j :: start <= j < end ==> s[j] != c
    requires end < |s| ==> s[end] == c
    ensures FindFrom(s, start, c) == end
    decreases end - start
  {
    if start < end {
      FindFromAt(s, start + 1, end, c);
    }
  }

  /** Searching past a part that does not hold the character. */
  lemma {:induction false} IndexOfAppend(a: string, b: string, c: char)
    requires c !in a
    ensures IndexOf(a + b, c) == |a| + IndexOf(b, c)
  {
    if a != [] {
      assert (a + b)[1..] == a[1..] + b;
      IndexOfAppend(a[1..], b, c);
    } else {
      assert a + b == b;
    }
  }

  /** What follows the first `c` does not matter to `IndexOf`. */
  lemma {:induction false} IndexOfPrefix(p: string, q: string, c: char)
    requires IndexOf(p, c) < |p|
    ensures IndexOf(p + q, c) == IndexOf(p, c)
  {
    if p[0] != c {
      assert (p + q)[1..] == p[1..] + q;
      IndexOfPrefix(p[1..], q, c);
    }
  }

  /** `IndexOf` from its defining facts. */
  lemma {:induction false} IndexOfAt(s: string, k: nat, c: char)
    requires k < |s| && s[k] == c
    requires forall j :: 0 <= j < k ==> s[j] != c
    ensures IndexOf(s, c) == k
  {
    if k > 0 {
      IndexOfAt(s[1..], k - 1, c);
    }
  }

  /** A character not in the text is not found. */
  lemma IndexOfAbsent(s: string, c: char)
    requires c !in s
    ensures IndexOf(s, c) == |s|
  {
  }

  // ---------------------------------------------------------------------
  // Decimal text

  function DigitChar(d: nat): (c: char)
    requires d < 10
    ensures IsDigit(c) && c as int - '0' as int == d
  {
    (d + '0' as int) as char
  }

  /** `std::to_string` of a non-negative integer: its decimal digits,
      most significant first, with no leading zero. */
  function NatToString(n: nat): (s: string)
    decreases n
  {
    if n < 10 then [DigitChar(n)] else NatToString(n / 10) + [DigitChar(n % 10)]
  }

  /** The value of a string of decimal digits. */
  function DecimalValue(s: string): nat
    requires forall i :: 0 <= i < |s| ==> IsDigit(s[i])
  {
    if s == [] then 0
    else
      var d := s[|s| - 1] as int - '0' as int;
      assert IsDigit(s[|s| - 1]);
      10 * DecimalValue(s[..|s| - 1]) + d
  }

  lemma {:induction false} NatToStringDigits(n: nat)
    ensures var s := NatToString(n);
      && 1 <= |s|
      && (forall i :: 0 <= i < |s| ==> IsDigit(s[i]))
      && (n > 0 ==> s[0] != '0')
      && DecimalValue(s) == n
    decreases n
  {
    if n >= 10 {
      NatToStringDigits(n / 10);
      var s := NatToString(n);
      assert s[..|s| - 1] == NatToString(n / 10);
    }
  }

  /** Different numbers have different decimal text. */
  lemma NatToStringInjective(a: nat, b: nat)
    requires NatToString(a) == NatToString(b)
    ensures a == b
  {
    NatToStringDigits(a);
    NatToStringDigits(b);
  }

  /** `atoi`: skip leading white space, read an optional sign, then the
      longest run of decimal digits; 0 when there is none. Overflow (undefined
      behaviour in C) is not modelled: the value is unbounded. */
  function Atoi(s: string): int {
    var t := LTrim(s);
    if t != [] && t[0] == '-' then -(DigitsValue(t[1..]) as int)
    else if t != [] && t[0] == '+' then DigitsValue(t[1..])
    else DigitsValue(t)
  }

  /** The longest prefix made of decimal digits. */
  function DigitRun(s: string): (r: string)
    ensures |r| <= |s| && r == s[..|r|]
    ensures forall i :: 0 <= i < |r| ==> IsDigit(r[i])
    ensures |r| < |s| ==> !IsDigit(s[|r|])
  {
    if s != [] && IsDigit(s[0]) then [s[0]] + DigitRun(s[1..]) else []
  }

  function DigitsValue(s: string): nat {
    DecimalValue(DigitRun(s))
  }

  /** Text from offset `k` on, or the empty text when `k` is past the end
      (C pointer arithmetic past the terminator is undefined; it is read as
      an empty string here). */
  function From(s: string, k: nat): (r: string)
    ensures k <= |s| ==> r == s[k..]
    ensures k > |s| ==> r == []
  {
    if k <= |s| then s[k..] else []
  }

  /** `atoi` of a `std::to_string` result gives the number back. */
  lemma AtoiNatToString(n: nat)
    ensures Atoi(NatToString(n)) == n
  {
    NatToStringDigits(n);
    var s := NatToString(n);
    assert IsDigit(s[0]);
    assert !IsSpace(s[0]) && s[0] != '-' && s[0] != '+';
    assert LTrim(s) == s;
    DigitRunAll(s);
    assert DigitsValue(s) == n;
  }

  lemma {:induction false} DigitRunAll(s: string)
    requires forall i :: 0 <= i < |s| ==> IsDigit(s[i])
    ensures DigitRun(s) == s
  {
    if s != [] {
      DigitRunAll(s[1..]);
    }
  }

  /** Case-insensitive ASCII search: does `term` occur in `base` at `i`? */
  predicate MatchAt(base: string, term: string, i: nat)
    requires i + |term| <= |base|
  {
    forall j :: 0 <= j < |term| ==> UpperEq(base[i + j], term[j])
  }

  // ---------------------------------------------------------------------
  // Formatting into a fixed buffer

  /** `snprintf(out, size, "%s", s)` into a buffer of `size` bytes: the
      longest prefix of `s` that leaves room for the terminating NUL. */
  function Truncate(s: string, size: nat): (r: string)
    requires size >= 1
    ensures |r| < size && |r| <= |s| && r == s[..|r|]
    ensures |s| < size ==> r == s
    ensures |s| >= size ==> |r| == size - 1
  {
    if |s| < size then s else s[..size - 1]
  }
}
