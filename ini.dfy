/** The small INI reader and writer of the device-activation code: text made
    of `key=value` lines grouped under `[section]` headers. The file is the
    text itself: reading gives `Some(content)` (a missing file reads as the
    empty text) or `None` for a read error, and writing is reported by a flag
    that stands for the outcome of the write. */
module DeviceAuthIni {
  import opened Text
  import opened Wrappers

  // ---------------------------------------------------------------------
  // Lines

  /** One line with a single trailing carriage return dropped. */
  function DropCR(line: string): string {
    if line != [] && line[|line| - 1] == '\r' then line[..|line| - 1] else line
  }

  /** The lines of `c` from offset `start` on: the text cut at every line
      feed, each piece without one trailing `\r`. A final line feed gives a
      final empty line. */
  function LinesFrom(c: string, start: nat): (ls: seq<string>)
    requires start <= |c|
    ensures |ls| >= 1
    decreases |c| - start
  {
    var end := FindFrom(c, start, '\n');
    if end == |c| then [DropCR(c[start..end])] else [DropCR(c[start..end])] + LinesFrom(c, end + 1)
  }

  function Lines(c: string): (ls: seq<string>)
    ensures |ls| >= 1
  {
    LinesFrom(c, 0)
  }

  /** The lines put back together with a line feed between two lines. */
  function Join(ls: seq<string>): string {
    if ls == [] then []
    else if |ls| == 1 then ls[0]
    else ls[0] + "\n" + Join(ls[1..])
  }

  /** Splitting the content into lines, as the reading loop does. */
  method SplitLines(content: string) returns (lines: seq<string>)
    ensures lines == Lines(content)
  {
    ghost var target := Lines(content);
    lines := [];
    var start := 0;
    while start <= |content|
      invariant 0 <= start <= |content| + 1
      invariant start <= |content| ==> lines + LinesFrom(content, start) == target
      invariant start == |content| + 1 ==> lines == target
      decreases |content| + 1 - start
    {
      var end := FindFrom(content, start, '\n');
      var line := content[start..end];
      if line != [] && line[|line| - 1] == '\r' {
        line := line[..|line| - 1];
      }
      assert line == DropCR(content[start..end]);
      LinesFromStep(content, start, end, content[start..end]);
      ghost var before := lines;
      lines := lines + [line];
      if end < |content| {
        assert before + ([line] + LinesFrom(content, end + 1)) == lines + LinesFrom(content, end + 1);
      }
      start := end + 1;
    }
  }

  /** Joining the lines, as the writing loop does. */
  method JoinLines(lines: seq<string>) returns (out: string)
    ensures out == Join(lines)
  {
    ghost var target := Join(lines);
    out := [];
    var i := 0;
    while i < |lines|
      invariant 0 <= i <= |lines|
      invariant out + Join(lines[i..]) == target
    {
      assert lines[i..][1..] == lines[i + 1..];
      out := out + lines[i];
      if i + 1 != |lines| {
        out := out + "\n";
      }
      i := i + 1;
    }
    assert lines[i..] == [];
  }

  /** No carriage return right before a line feed or at the very end. */
  predicate CleanText(c: string) {
    forall i :: 0 <= i < |c| && c[i] == '\r' ==> i + 1 < |c| && c[i + 1] != '\n'
  }

  /** A line that survives joining and splitting: no line feed, and no
      carriage return at its end. */
  predicate CleanLine(l: string) {
    '\n' !in l && (l == [] || l[|l| - 1] != '\r')
  }

  /** A line cut out of clean text is clean. */
  lemma PieceClean(c: string, start: nat)
    requires CleanText(c) && start <= |c|
    ensures CleanLine(c[start..FindFrom(c, start, '\n')])
  {
    var end := FindFrom(c, start, '\n');
    FindFromFirst(c, start, '\n');
    var piece := c[start..end];
    forall k | 0 <= k < |piece| ensures piece[k] != '\n' {
      assert piece[k] == c[start + k];
    }
    if piece != [] {
      assert piece[|piece| - 1] == c[end - 1];
    }
  }

  /** The lines of clean text are clean. */
  lemma {:induction false} LinesFromClean(c: string, start: nat)
    requires CleanText(c) && start <= |c|
    ensures forall i :: 0 <= i < |LinesFrom(c, start)| ==> CleanLine(LinesFrom(c, start)[i])
    decreases |c| - start
  {
    var end := FindFrom(c, start, '\n');
    var piece := c[start..end];
    PieceClean(c, start);
    assert DropCR(piece) == piece;
    if end < |c| {
      LinesFromClean(c, end + 1);
    }
  }

  /** Splitting clean text and joining the lines gives the text back. */
  lemma {:induction false} JoinOfLinesFrom(c: string, start: nat)
    requires CleanText(c) && start <= |c|
    ensures Join(LinesFrom(c, start)) == c[start..]
    decreases |c| - start
  {
    var end := FindFrom(c, start, '\n');
    if end < |c| {
      JoinOfLinesFrom(c, end + 1);
    }
    PieceClean(c, start);
    JoinOfLinesStep(c, start, end, c[start..end]);
  }

  /** One line of the round trip: the text up to the first line feed is the
      first line, and what follows the line feed is joined from the rest. */
  lemma JoinOfLinesStep(c: string, start: nat, end: nat, piece: string)
    requires start <= end <= |c| && FindFrom(c, start, '\n') == end
    requires piece == c[start..end] && CleanLine(piece)
    ensures end == |c| ==> Join(LinesFrom(c, start)) == c[start..]
    ensures end < |c| && Join(LinesFrom(c, end + 1)) == c[end + 1..] ==> Join(LinesFrom(c, start)) == c[start..]
  {
    assert DropCR(piece) == piece;
    LinesFromStep(c, start, end, piece);
    if end < |c| {
      JoinCons(piece, LinesFrom(c, end + 1));
      SliceAtFeed(c, start, end);
    }
  }

  lemma JoinCons(l: string, rest: seq<string>)
    requires rest != []
    ensures Join([l] + rest) == l + "\n" + Join(rest)
  {
    assert ([l] + rest)[1..] == rest;
  }

  lemma SliceAtFeed(c: string, start: nat, end: nat)
    requires start <= end < |c| && c[end] == '\n'
    ensures c[start..] == c[start..end] + "\n" + c[end + 1..]
  {
  }

  lemma JoinOfLines(c: string)
    requires CleanText(c)
    ensures Join(Lines(c)) == c
    ensures forall i :: 0 <= i < |Lines(c)| ==> CleanLine(Lines(c)[i])
  {
    JoinOfLinesFrom(c, 0);
    LinesFromClean(c, 0);
  }

  /** Every line with one trailing carriage return dropped. */
  function DropCRs(ls: seq<string>): (r: seq<string>)
    ensures |r| == |ls|
  {
    if ls == [] then [] else [DropCR(ls[0])] + DropCRs(ls[1..])
  }

  lemma {:induction false} DropCRsAt(ls: seq<string>, i: nat)
    requires i < |ls|
    ensures DropCRs(ls)[i] == DropCR(ls[i])
  {
    if i > 0 {
      DropCRsAt(ls[1..], i - 1);
    }
  }

  /** No line of any text holds a line feed. */
  lemma {:induction false} LinesNoFeed(c: string, start: nat)
    requires start <= |c|
    ensures forall i :: 0 <= i < |LinesFrom(c, start)| ==> '\n' !in LinesFrom(c, start)[i]
    decreases |c| - start
  {
    var end := FindFrom(c, start, '\n');
    var piece := c[start..end];
    FindFromFirst(c, start, '\n');
    forall k | 0 <= k < |piece| ensures piece[k] != '\n' {
      assert piece[k] == c[start + k];
    }
    assert '\n' !in DropCR(piece);
    if end < |c| {
      LinesNoFeed(c, end + 1);
    }
  }

  /** Joining lines without line feeds behind any text and splitting from
      there gives the lines back, each without one trailing `\r`. */
  lemma {:induction false} LinesOfJoinFrom(pre: string, ls: seq<string>)
    requires |ls| >= 1
    requires forall i :: 0 <= i < |ls| ==> '\n' !in ls[i]
    ensures LinesFrom(pre + Join(ls), |pre|) == DropCRs(ls)
    decreases |ls|
  {
    LinesOfJoinHead(pre, ls);
    if |ls| > 1 {
      var pre' := pre + ls[0] + "\n";
      JoinTail(pre, ls);
      LinesOfJoinFrom(pre', ls[1..]);
    }
  }

  /** The first line read back, and where the rest starts. */
  lemma LinesOfJoinHead(pre: string, ls: seq<string>)
    requires |ls| >= 1 && '\n' !in ls[0]
    ensures var c, next := pre + Join(ls), |pre| + |ls[0]| + 1;
      && (|ls| == 1 ==> LinesFrom(c, |pre|) == [DropCR(ls[0])])
      && (|ls| > 1 ==> next <= |c| && LinesFrom(c, |pre|) == [DropCR(ls[0])] + LinesFrom(c, next))
  {
    JoinHead(pre, ls);
    LinesFromStep(pre + Join(ls), |pre|, |pre| + |ls[0]|, ls[0]);
  }

  /** One step of the splitting: the line up to the line feed at `end`, then
      the lines after it, or the last line when there is no line feed. */
  lemma LinesFromStep(c: string, start: nat, end: nat, first: string)
    requires start <= end <= |c| && FindFrom(c, start, '\n') == end && c[start..end] == first
    ensures end == |c| ==> LinesFrom(c, start) == [DropCR(first)]
    ensures end < |c| ==> LinesFrom(c, start) == [DropCR(first)] + LinesFrom(c, end + 1)
  {
  }

  lemma JoinTail(pre: string, ls: seq<string>)
    requires |ls| > 1
    ensures pre + Join(ls) == (pre + ls[0] + "\n") + Join(ls[1..])
  {
  }

  /** Where the first line sits in the joined text, and where the search
      for its line feed stops. */
  lemma JoinHead(pre: string, ls: seq<string>)
    requires |ls| >= 1 && '\n' !in ls[0]
    ensures var c, end := pre + Join(ls), |pre| + |ls[0]|;
      && end <= |c| && c[|pre|..end] == ls[0]
      && FindFrom(c, |pre|, '\n') == end
      && (|ls| == 1 ==> end == |c|)
      && (|ls| > 1 ==> end < |c|)
  {
    var c, end := pre + Join(ls), |pre| + |ls[0]|;
    assert c[|pre|..end] == ls[0];
    forall j | |pre| <= j < end ensures c[j] != '\n' {
      assert c[j] == ls[0][j - |pre|];
    }
    if |ls| > 1 {
      assert c[end] == '\n';
    }
    FindFromAt(c, |pre|, end, '\n');
  }

  /** Splitting joined lines gives them back, up to one trailing `\r`
      each; clean lines come back unchanged. */
  lemma LinesOfJoin(ls: seq<string>)
    requires |ls| >= 1
    requires forall i :: 0 <= i < |ls| ==> '\n' !in ls[i]
    ensures Lines(Join(ls)) == DropCRs(ls)
    ensures (forall i :: 0 <= i < |ls| ==> CleanLine(ls[i])) ==> Lines(Join(ls)) == ls
  {
    LinesOfJoinFrom([], ls);
    assert [] + Join(ls) == Join(ls);
    if forall i :: 0 <= i < |ls| ==> CleanLine(ls[i]) {
      forall i | 0 <= i < |ls| ensures DropCRs(ls)[i] == ls[i] {
        DropCRsAt(ls, i);
      }
    }
  }

  // ---------------------------------------------------------------------
  // Finding a key

  /** What the key search sees in one line, after trimming it. */
  datatype LineKind =
    | Blank                   // empty, or a `;` or `#` comment
    | Header(name: string)    // `[name]`, the name trimmed
    | Pair(key: string)       // text before the first `=`, trimmed on the right
    | Plain                   // anything else

  function Classify(line: string): LineKind {
    KindOf(Trim(line))
  }

  /** The kind of a trimmed line. */
  function KindOf(ln: string): LineKind {
    if ln == [] || ln[0] == ';' || ln[0] == '#' then Blank
    else if ln[0] == '[' && ln[|ln| - 1] == ']' then Header(Trim(ln[1..|ln| - 1]))
    else
      var pos := IndexOf(ln, '=');
      if pos < |ln| then Pair(RTrim(ln[..pos])) else Plain
  }

  /** The three outputs of the search: the key line (or -1), the header line
      of the section (or -1) and the end of the section. */
  datatype KeyLine = KeyLine(line: int, secStart: int, secEnd: int)

  /** Every line classified. */
  function Kinds(lines: seq<string>): (ks: seq<LineKind>)
    ensures |ks| == |lines|
  {
    if lines == [] then [] else [Classify(lines[0])] + Kinds(lines[1..])
  }

  lemma {:induction false} KindsAt(lines: seq<string>, i: nat)
    requires i < |lines|
    ensures Kinds(lines)[i] == Classify(lines[i])
  {
    if i > 0 {
      KindsAt(lines[1..], i - 1);
    }
  }

  /** The search from line `i` on, in state `inSec`/`start`/`end`. */
  function ScanFrom(ks: seq<LineKind>, section: string, key: string,
                    i: nat, inSec: bool, start: int, end: int): (r: KeyLine)
    requires i <= |ks| && 0 <= end <= |ks|
    ensures r.line == -1 || i <= r.line < |ks|
    ensures 0 <= r.secEnd <= |ks|
    decreases |ks| - i
  {
    if i == |ks| then KeyLine(-1, start, end)
    else match ks[i]
      case Header(n) =>
        if CaseEq(n, section) then ScanFrom(ks, section, key, i + 1, true, i, |ks|)
        else if inSec then KeyLine(-1, start, i)
        else ScanFrom(ks, section, key, i + 1, false, start, end)
      case Pair(k) =>
        if inSec && CaseEq(k, key) then KeyLine(i, start, end)
        else ScanFrom(ks, section, key, i + 1, inSec, start, end)
      case _ => ScanFrom(ks, section, key, i + 1, inSec, start, end)
  }

  function FindKey(lines: seq<string>, section: string, key: string): (r: KeyLine)
    ensures r.line == -1 || 0 <= r.line < |lines|
    ensures 0 <= r.secEnd <= |lines|
  {
    ScanFrom(Kinds(lines), section, key, 0, false, -1, |lines|)
  }

  /** The search loop over the lines. Each line is trimmed and classified
      by `Classify`, which depends on that line alone, so the lines are
      classified up front and the loop reads the classification. */
  method FindKeyLine(lines: seq<string>, section: string, key: string)
    returns (line: int, sectionStart: int, sectionEnd: int)
    ensures KeyLine(line, sectionStart, sectionEnd) == FindKey(lines, section, key)
  {
    var ks := Kinds(lines);
    ghost var target := FindKey(lines, section, key);
    sectionStart, sectionEnd := -1, |lines|;
    var inSec := false;
    var i := 0;
    while i < |lines|
      invariant 0 <= i <= |lines| && 0 <= sectionEnd <= |lines|
      invariant ScanFrom(ks, section, key, i, inSec, sectionStart, sectionEnd) == target
    {
      var kind := ks[i];
      match kind {
        case Header(sec) =>
          if CaseEq(sec, section) {
            inSec, sectionStart, sectionEnd := true, i, |lines|;
          } else if inSec {
            sectionEnd := i;
            return -1, sectionStart, sectionEnd;
          } else {
            inSec := false;
          }
        case Pair(k) =>
          if inSec && CaseEq(k, key) {
            return i, sectionStart, sectionEnd;
          }
        case _ =>
      }
      i := i + 1;
    }
    line := -1;
  }

  // What the search finds, stated without the loop.

  predicate Matching(ks: seq<LineKind>, section: string, i: nat)
    requires i < |ks|
  {
    ks[i].Header? && CaseEq(ks[i].name, section)
  }

  predicate OtherHeader(ks: seq<LineKind>, section: string, i: nat)
    requires i < |ks|
  {
    ks[i].Header? && !CaseEq(ks[i].name, section)
  }

  predicate KeyAt(ks: seq<LineKind>, key: string, i: nat)
    requires i < |ks|
  {
    ks[i].Pair? && CaseEq(ks[i].key, key)
  }

  /** The first header of the section from line `from` on, or `|ks|` when
      there is none. */
  function FirstHeader(ks: seq<LineKind>, section: string, from: nat): (h: nat)
    requires from <= |ks|
    ensures from <= h <= |ks|
    ensures h < |ks| ==> Matching(ks, section, h)
    ensures forall m :: from <= m < h ==> !Matching(ks, section, m)
    decreases |ks| - from
  {
    if from == |ks| then from
    else if Matching(ks, section, from) then from
    else FirstHeader(ks, section, from + 1)
  }

  /** Line `j` lies in the first run of the section: after its first header
      and before any header of another section. */
  predicate InSection(ks: seq<LineKind>, section: string, j: nat)
    requires j < |ks|
  {
    var h := FirstHeader(ks, section, 0);
    h < j && forall m :: h < m < j ==> !OtherHeader(ks, section, m)
  }

  /** The state of the search loop before line `i`. */
  predicate ScanState(ks: seq<LineKind>, section: string, key: string,
                      i: nat, inSec: bool, start: int, end: int)
    requires i <= |ks|
  {
    && (!inSec ==> start == -1 && end == |ks| && forall m :: 0 <= m < i ==> !Matching(ks, section, m))
    && (inSec ==>
          && 0 <= start < i && Matching(ks, section, start) && end == |ks|
          && FirstHeader(ks, section, 0) < i
          && (forall m :: FirstHeader(ks, section, 0) < m < i ==> !OtherHeader(ks, section, m)))
    && (forall j :: 0 <= j < i && InSection(ks, section, j) ==> !KeyAt(ks, key, j))
  }

  /** What the search may return: `line` is the first line of the section's
      first run that holds the key, or -1 when none does; `secStart` is -1
      exactly when no header names the section; when the key is missing,
      `secEnd` is the next header of another section, or the line count. */
  predicate SearchResult(ks: seq<LineKind>, section: string, key: string, r: KeyLine) {
    && (r.line >= 0 ==> r.line < |ks| && InSection(ks, section, r.line) && KeyAt(ks, key, r.line)
                        && forall j :: 0 <= j < r.line && InSection(ks, section, j) ==> !KeyAt(ks, key, j))
    && (r.line < 0 ==> forall j :: 0 <= j < |ks| && InSection(ks, section, j) ==> !KeyAt(ks, key, j))
    && (r.secStart == -1 <==> forall m :: 0 <= m < |ks| ==> !Matching(ks, section, m))
    && (r.secStart >= 0 ==> r.secStart < |ks| && Matching(ks, section, r.secStart))
    && (r.line < 0 && r.secStart >= 0 ==>
          && FirstHeader(ks, section, 0) < r.secEnd <= |ks|
          && (forall m :: FirstHeader(ks, section, 0) < m < r.secEnd ==> !OtherHeader(ks, section, m))
          && (r.secEnd < |ks| ==> OtherHeader(ks, section, r.secEnd)))
  }

  lemma {:induction false} ScanMeaning(ks: seq<LineKind>, section: string, key: string,
                                       i: nat, inSec: bool, start: int, end: int)
    requires i <= |ks| && 0 <= end <= |ks|
    requires ScanState(ks, section, key, i, inSec, start, end)
    ensures SearchResult(ks, section, key, ScanFrom(ks, section, key, i, inSec, start, end))
    decreases |ks| - i
  {
    if i == |ks| {
      ScanDone(ks, section, key, inSec, start, end);
    } else {
      var kind := ks[i];
      if kind.Header? && CaseEq(kind.name, section) {
        ScanEnter(ks, section, key, i, inSec, start, end);
        ScanMeaning(ks, section, key, i + 1, true, i, |ks|);
      } else if kind.Header? && inSec {
        ScanLeave(ks, section, key, i, start, end);
      } else if kind.Pair? && inSec && CaseEq(kind.key, key) {
        ScanHit(ks, section, key, i, start, end);
      } else {
        ScanSkip(ks, section, key, i, inSec, start, end);
        ScanMeaning(ks, section, key, i + 1, inSec, start, end);
      }
    }
  }

  /** At the end of the lines the state is the result. */
  lemma ScanDone(ks: seq<LineKind>, section: string, key: string, inSec: bool, start: int, end: int)
    requires ScanState(ks, section, key, |ks|, inSec, start, end)
    ensures SearchResult(ks, section, key, KeyLine(-1, start, end))
  {
    if !inSec {
      assert FirstHeader(ks, section, 0) == |ks|;
    }
  }

  /** A header of the section (re)starts it. */
  lemma ScanEnter(ks: seq<LineKind>, section: string, key: string,
                  i: nat, inSec: bool, start: int, end: int)
    requires i < |ks| && ScanState(ks, section, key, i, inSec, start, end)
    requires Matching(ks, section, i)
    ensures ScanState(ks, section, key, i + 1, true, i, |ks|)
  {
    if !inSec {
      assert FirstHeader(ks, section, 0) == i;
    }
  }

  /** A header of another section ends the section: the key is missing. */
  lemma ScanLeave(ks: seq<LineKind>, section: string, key: string, i: nat, start: int, end: int)
    requires i < |ks| && ScanState(ks, section, key, i, true, start, end)
    requires OtherHeader(ks, section, i)
    ensures SearchResult(ks, section, key, KeyLine(-1, start, i))
  {
    var h := FirstHeader(ks, section, 0);
    forall j | i < j < |ks| ensures !InSection(ks, section, j) {
      assert h < i < j && OtherHeader(ks, section, i);
    }
  }

  /** The key inside the section is the result. */
  lemma ScanHit(ks: seq<LineKind>, section: string, key: string, i: nat, start: int, end: int)
    requires i < |ks| && ScanState(ks, section, key, i, true, start, end)
    requires KeyAt(ks, key, i)
    ensures SearchResult(ks, section, key, KeyLine(i, start, end))
  {
  }

  /** Any other line leaves the state as it is. */
  lemma ScanSkip(ks: seq<LineKind>, section: string, key: string,
                 i: nat, inSec: bool, start: int, end: int)
    requires i < |ks| && ScanState(ks, section, key, i, inSec, start, end)
    requires !Matching(ks, section, i)
    requires !(inSec && OtherHeader(ks, section, i)) && !(inSec && KeyAt(ks, key, i))
    ensures ScanState(ks, section, key, i + 1, inSec, start, end)
  {
    if !inSec {
      assert FirstHeader(ks, section, 0) >= i;
    }
  }

  /** The search finds what `SearchResult` describes. */
  lemma FindKeyMeaning(lines: seq<string>, section: string, key: string)
    ensures SearchResult(Kinds(lines), section, key, FindKey(lines, section, key))
  {
    ScanMeaning(Kinds(lines), section, key, 0, false, -1, |lines|);
  }

  // ---------------------------------------------------------------------
  // Reading and writing one key

  function OrEmpty(s: Option<string>): string {
    if s.Some? then s.value else []
  }

  /** The value of a key line: the text after its first `=`, trimmed. */
  function ValueOf(line: string): string {
    var pos := IndexOf(line, '=');
    if pos == |line| then [] else Trim(line[pos + 1..])
  }

  /** The value stored for the key, if the key is found. */
  function Stored(section: string, key: string, content: string): Option<string> {
    var lines := Lines(content);
    var f := FindKey(lines, section, key);
    if f.line >= 0 then Some(ValueOf(lines[f.line])) else None
  }

  /** The text `ini_gets` copies from: the stored value, or the default
      when the read failed or the key is missing. A null section or key is
      read as the empty text, and so is a null default. */
  function Chosen(section: Option<string>, key: Option<string>, def: Option<string>,
                  file: Option<string>): string {
    if file.Some? && Stored(OrEmpty(section), OrEmpty(key), file.value).Some?
    then Stored(OrEmpty(section), OrEmpty(key), file.value).value
    else OrEmpty(def)
  }

  /** What `ini_gets` copies into `out`; its result is the length of that text. */
  function Gets(section: Option<string>, key: Option<string>, def: Option<string>,
                outsz: nat, file: Option<string>): (r: string)
    requires outsz >= 1
    ensures var chosen := Chosen(section, key, def, file);
      && |r| <= outsz - 1 && |r| <= |chosen| && r == chosen[..|r|]
      && (|chosen| < outsz ==> r == chosen)
  {
    Truncate(Chosen(section, key, def, file), outsz)
  }

  /** `ini_gets` over the file content `file` (`None`: the read failed). */
  method IniGets(section: Option<string>, key: Option<string>, def: Option<string>,
                 outsz: nat, file: Option<string>) returns (out: string, n: int)
    requires outsz >= 1
    ensures out == Gets(section, key, def, outsz, file) && n == |out|
  {
    if file.None? {
      out := Truncate(OrEmpty(def), outsz);
      return out, |out|;
    }
    var lines := SplitLines(file.value);
    var keyLine, secBegin, secEnd := FindKeyLine(lines, OrEmpty(section), OrEmpty(key));
    ghost var stored := Stored(OrEmpty(section), OrEmpty(key), file.value);
    var value;
    if keyLine >= 0 {
      var ln := lines[keyLine];
      var pos := IndexOf(ln, '=');
      value := if pos == |ln| then [] else Trim(ln[pos + 1..]);
      assert stored == Some(value);
    } else {
      value := OrEmpty(def);
      assert stored == None;
    }
    assert value == Chosen(section, key, def, file);
    out := Truncate(value, outsz);
    n := |out|;
  }

  /** The outcome of `ini_puts`: its return value and the file's text
      afterwards, `None` when it left the file alone. `write_all_text` deletes
      the file before it writes it again, so a failed write leaves no file,
      which a later read sees as empty text. */
  datatype PutResult = PutResult(rc: int, written: Option<string>)

  /** The lines after storing `newline` as the search result `f` directs:
      over the key line, at the end of the section, or in a new section at
      the end of the file (after a blank line unless the last line is blank).
      Every other line is kept, in order. */
  function Edit(lines: seq<string>, f: KeyLine, section: string, newline: string): (r: seq<string>)
    requires |lines| >= 1 && (f.line == -1 || 0 <= f.line < |lines|) && 0 <= f.secEnd <= |lines|
    ensures f.line >= 0 ==>
      |r| == |lines| && r[f.line] == newline && forall i :: 0 <= i < |lines| && i != f.line ==> r[i] == lines[i]
    ensures f.line < 0 && f.secStart >= 0 ==>
      && |r| == |lines| + 1 && r[f.secEnd] == newline
      && (forall i :: 0 <= i < f.secEnd ==> r[i] == lines[i])
      && (forall i :: f.secEnd <= i < |lines| ==> r[i + 1] == lines[i])
    ensures f.line < 0 && f.secStart < 0 ==>
      && |r| == |lines| + (if Trim(lines[|lines| - 1]) == [] then 2 else 3)
      && r[..|lines|] == lines
      && r[|r| - 2..] == ["[" + section + "]", newline]
      && (|r| == |lines| + 3 ==> r[|lines|] == [])
  {
    if f.line >= 0 then lines[f.line := newline]
    else if f.secStart >= 0 then lines[..f.secEnd] + [newline] + lines[f.secEnd..]
    else
      var padded := if Trim(lines[|lines| - 1]) != [] then lines + [[]] else lines;
      padded + ["[" + section + "]", newline]
  }

  /** The edit step of `ini_puts` on the split lines, as the source performs it. */
  method ApplyEdit(lines: seq<string>, keyLine: int, secBegin: int, secEnd: int,
                   section: string, newline: string) returns (r: seq<string>)
    requires |lines| >= 1 && (keyLine == -1 || 0 <= keyLine < |lines|) && 0 <= secEnd <= |lines|
    ensures r == Edit(lines, KeyLine(keyLine, secBegin, secEnd), section, newline)
  {
    r := lines;
    if keyLine >= 0 {
      r := r[keyLine := newline];
    } else if secBegin >= 0 {
      r := r[..secEnd] + [newline] + r[secEnd..];
    } else {
      if Trim(r[|r| - 1]) != [] {
        r := r + [[]];
      }
      r := r + ["[" + section + "]"];
      r := r + [newline];
    }
  }

  /** What `ini_puts` does with the file content `file` (`None`: the read
      failed) when the write succeeds exactly if `writeOk`; a failed write
      has already deleted the file. */
  function Puts(section: Option<string>, key: Option<string>, value: Option<string>,
                file: Option<string>, writeOk: bool): (r: PutResult)
    ensures (section.None? || section.value == [] || key.None? || key.value == [] || value.None?)
            ==> r == PutResult(0, None)
    ensures file.None? ==> r.written.None? && r.rc == 0
    ensures r.written.Some? ==> r.rc == (if writeOk then 1 else 0)
    ensures r.written.Some? && !writeOk ==> r.written == Some([])
  {
    if section.None? || section.value == [] || key.None? || key.value == [] || value.None? then PutResult(0, None)
    else if file.None? then PutResult(0, None)
    else
      var lines := Lines(file.value);
      var f := FindKey(lines, section.value, key.value);
      var newline := key.value + "=" + value.value;
      if writeOk then PutResult(1, Some(Join(Edit(lines, f, section.value, newline))))
      else PutResult(0, Some([]))
  }

  /** `ini_puts`, editing the line list in place as the source does. */
  method IniPuts(section: Option<string>, key: Option<string>, value: Option<string>,
                 file: Option<string>, writeOk: bool) returns (rc: int, written: Option<string>)
    ensures PutResult(rc, written) == Puts(section, key, value, file, writeOk)
  {
    if section.None? || section.value == [] || key.None? || key.value == [] || value.None? {
      return 0, None;
    }
    if file.None? {
      return 0, None;
    }
    var lines := SplitLines(file.value);
    var keyLine, secBegin, secEnd := FindKeyLine(lines, section.value, key.value);
    lines := ApplyEdit(lines, keyLine, secBegin, secEnd, section.value, key.value + "=" + value.value);
    var out := JoinLines(lines);
    if !writeOk {
      return 0, Some([]);
    }
    return 1, Some(out);
  }

  // ---------------------------------------------------------------------
  // Reading back what was written

  /** A key `ini_puts` can write so that the search finds it again: not
      empty, no `=` or line feed, no white space at either end, and not
      starting like a comment or a header. */
  predicate PlainKey(k: string) {
    && k != [] && '=' !in k && '\n' !in k && Unpadded(k)
    && k[0] != ';' && k[0] != '#' && k[0] != '['
  }

  /** A section name that reads back as itself: not empty, no line feed, no
      white space at either end. */
  predicate PlainSection(s: string) {
    s != [] && '\n' !in s && Unpadded(s)
  }

  /** A dropped trailing `\r` is white space to the classifier. */
  lemma ClassifyDropCR(l: string)
    ensures Classify(DropCR(l)) == Classify(l)
  {
    if DropCR(l) != l {
      assert l == DropCR(l) + ['\r'];
      TrimSnocSpace(DropCR(l), '\r');
    }
  }

  /** ... and to the value reader. */
  lemma ValueOfDropCR(l: string)
    ensures ValueOf(DropCR(l)) == ValueOf(l)
  {
    var p := DropCR(l);
    if p != l {
      assert l == p + ['\r'];
      ValueOfSnocCR(p);
    }
  }

  lemma ValueOfSnocCR(p: string)
    ensures ValueOf(p + ['\r']) == ValueOf(p)
  {
    var l := p + ['\r'];
    var pos := IndexOf(p, '=');
    if pos < |p| {
      IndexOfPrefix(p, ['\r'], '=');
      assert l[pos + 1..] == p[pos + 1..] + ['\r'];
      TrimSnocSpace(p[pos + 1..], '\r');
      assert ValueOf(l) == Trim(p[pos + 1..]);
      assert ValueOf(p) == Trim(p[pos + 1..]);
    } else {
      IndexOfFirst(p, '=');
      IndexOfAppend(p, ['\r'], '=');
      assert IndexOf(['\r'], '=') == 1;
      assert ValueOf(l) == [];
      assert ValueOf(p) == [];
    }
  }

  /** A trimmed line that starts with the key and then `=`. */
  lemma KeyLinePrefix(key: string, l: string, ln: string)
    requires PlainKey(key)
    requires |key| < |ln| <= |l| && ln == l[..|ln|] && l[..|key|] == key && l[|key|] == '='
    ensures KindOf(ln) == Pair(key)
  {
    assert ln[..|key|] == key;
    assert ln[0] == key[0];
    forall j | 0 <= j < |key| ensures ln[j] != '=' {
      assert ln[j] == key[j];
    }
    IndexOfAt(ln, |key|, '=');
    assert LTrim(key) == key && RTrim(key) == key;
  }

  /** The line `ini_puts` writes is a pair line for exactly its key... */
  lemma ClassifyKeyLine(key: string, value: string)
    requires PlainKey(key)
    ensures Classify(key + "=" + value) == Pair(key)
  {
    var l := key + "=" + value;
    assert l[0] == key[0] && l[|key|] == '=' && l[..|key|] == key;
    assert LTrim(l) == l;
    RTrimKeeps(l, |key|);
    RTrimPrefix(l);
    KeyLinePrefix(key, l, Trim(l));
  }

  /** ... whose value is the trimmed text written. */
  lemma ValueOfKeyLine(key: string, value: string)
    requires '=' !in key
    ensures ValueOf(key + "=" + value) == Trim(value)
  {
    var l := key + "=" + value;
    forall j | 0 <= j < |key| ensures l[j] != '=' {
      assert l[j] == key[j];
    }
    IndexOfAt(l, |key|, '=');
    assert l[|key| + 1..] == value;
  }

  /** The header `ini_puts` writes names its section. */
  lemma ClassifyHeaderLine(section: string)
    requires PlainSection(section)
    ensures Classify("[" + section + "]") == Header(section)
  {
    var l := "[" + section + "]";
    BracketedKind(l, section);
    TrimNoSpace(l);
    TrimNoSpace(section);
  }

  lemma BracketedKind(l: string, section: string)
    requires l == "[" + section + "]"
    ensures Unpadded(l) && KindOf(l) == Header(Trim(section))
  {
    assert l[0] == '[' && l[|l| - 1] == ']';
    assert l[1..|l| - 1] == section;
  }

  /** The lines of the edited file have no line feed when neither the old
      lines, the section nor the new line have one. */
  lemma EditNoFeed(lines: seq<string>, f: KeyLine, section: string, newline: string)
    requires |lines| >= 1 && (f.line == -1 || 0 <= f.line < |lines|) && 0 <= f.secEnd <= |lines|
    requires forall i :: 0 <= i < |lines| ==> '\n' !in lines[i]
    requires '\n' !in section && '\n' !in newline
    ensures var e := Edit(lines, f, section, newline);
      forall i :: 0 <= i < |e| ==> '\n' !in e[i]
  {
    var e := Edit(lines, f, section, newline);
    if f.line < 0 && f.secStart < 0 {
      forall i | 0 <= i < |e| ensures '\n' !in e[i] {
        if i < |lines| {
          assert e[i] == e[..|lines|][i];
        } else if i >= |e| - 2 {
          assert e[i] == e[|e| - 2..][i - (|e| - 2)];
        }
      }
    } else if f.line < 0 {
      forall i | 0 <= i < |e| ensures '\n' !in e[i] {
        if i > f.secEnd {
          assert e[i] == lines[i - 1];
        }
      }
    }
  }

  /** Dropping one trailing `\r` from every line changes no kind. */
  lemma {:induction false} KindsDropCRs(e: seq<string>)
    ensures Kinds(DropCRs(e)) == Kinds(e)
  {
    if e != [] {
      var d := DropCRs(e);
      assert d[1..] == DropCRs(e[1..]);
      ClassifyDropCR(e[0]);
      KindsDropCRs(e[1..]);
    }
  }

  /** Reading the written text back classifies every line as written. */
  lemma KindsReadBack(e: seq<string>)
    requires |e| >= 1 && forall i :: 0 <= i < |e| ==> '\n' !in e[i]
    ensures Kinds(Lines(Join(e))) == Kinds(e)
  {
    LinesOfJoin(e);
    KindsDropCRs(e);
  }

  /** Two classifications that agree on every header, every header of the
      section and every line of the key are searched alike. */
  predicate SameShape(ks: seq<LineKind>, ks2: seq<LineKind>, section: string, key: string) {
    && |ks| == |ks2|
    && forall m :: 0 <= m < |ks| ==>
         && ks[m].Header? == ks2[m].Header?
         && (Matching(ks, section, m) <==> Matching(ks2, section, m))
         && (KeyAt(ks, key, m) <==> KeyAt(ks2, key, m))
  }

  lemma {:induction false} ScanSameShape(ks: seq<LineKind>, ks2: seq<LineKind>, section: string, key: string,
                                         i: nat, inSec: bool, start: int, end: int)
    requires SameShape(ks, ks2, section, key)
    requires i <= |ks| && 0 <= end <= |ks|
    ensures ScanFrom(ks, section, key, i, inSec, start, end) == ScanFrom(ks2, section, key, i, inSec, start, end)
    decreases |ks| - i
  {
    if i < |ks| {
      assert Matching(ks, section, i) == Matching(ks2, section, i);
      assert KeyAt(ks, key, i) == KeyAt(ks2, key, i);
      if ks[i].Header? && CaseEq(ks[i].name, section) {
        ScanSameShape(ks, ks2, section, key, i + 1, true, i, |ks|);
      } else if ks[i].Header? {
        if !inSec {
          ScanSameShape(ks, ks2, section, key, i + 1, false, start, end);
        }
      } else {
        ScanSameShape(ks, ks2, section, key, i + 1, inSec, start, end);
      }
    }
  }

  /** The first header of the section, recognised from its defining facts. */
  lemma {:induction false} FirstHeaderIs(ks: seq<LineKind>, section: string, from: nat, h: nat)
    requires from <= h <= |ks|
    requires h < |ks| ==> Matching(ks, section, h)
    requires forall m :: from <= m < h ==> !Matching(ks, section, m)
    ensures FirstHeader(ks, section, from) == h
    decreases h - from
  {
    if from < h {
      FirstHeaderIs(ks, section, from + 1, h);
    }
  }

  /** A search result is pinned down by the first key line of the section. */
  lemma LineDetermined(ks: seq<LineKind>, section: string, key: string, r: KeyLine, j: nat)
    requires SearchResult(ks, section, key, r)
    requires j < |ks| && InSection(ks, section, j) && KeyAt(ks, key, j)
    requires forall m :: 0 <= m < j && InSection(ks, section, m) ==> !KeyAt(ks, key, m)
    ensures r.line == j
  {
  }

  /** A line the search returns holds the key. */
  lemma FoundIsKey(ks: seq<LineKind>, section: string, key: string)
    ensures var r := ScanFrom(ks, section, key, 0, false, -1, |ks|);
      r.line >= 0 ==> r.line < |ks| && KeyAt(ks, key, r.line)
  {
    ScanMeaning(ks, section, key, 0, false, -1, |ks|);
  }

  /** The header line the search reports is the one it started with or
      a line it passed. */
  lemma {:induction false} ScanStart(ks: seq<LineKind>, section: string, key: string,
                                     i: nat, inSec: bool, start: int, end: int)
    requires i <= |ks| && 0 <= end <= |ks|
    ensures var r := ScanFrom(ks, section, key, i, inSec, start, end);
      r.secStart == start || i <= r.secStart < |ks|
    decreases |ks| - i
  {
    if i < |ks| {
      ScanStart(ks, section, key, i + 1, true, i, |ks|);
      ScanStart(ks, section, key, i + 1, inSec, start, end);
    }
  }

  /** When the search reports no header line, no header names the section. */
  lemma NoHeaderFound(ks: seq<LineKind>, section: string, key: string)
    ensures ScanFrom(ks, section, key, 0, false, -1, |ks|).secStart < 0 ==>
      forall m :: 0 <= m < |ks| ==> !Matching(ks, section, m)
  {
    ScanMeaning(ks, section, key, 0, false, -1, |ks|);
    ScanStart(ks, section, key, 0, false, -1, |ks|);
  }

  /** The search finds the first line of the section's first run that
      holds the key. */
  lemma ScanFindsFirst(ks: seq<LineKind>, section: string, key: string, j: nat)
    requires j < |ks| && InSection(ks, section, j) && KeyAt(ks, key, j)
    requires forall m :: 0 <= m < j && InSection(ks, section, m) ==> !KeyAt(ks, key, m)
    ensures ScanFrom(ks, section, key, 0, false, -1, |ks|).line == j
  {
    ScanMeaning(ks, section, key, 0, false, -1, |ks|);
    LineDetermined(ks, section, key, ScanFrom(ks, section, key, 0, false, -1, |ks|), j);
  }

  /** Inserting a key line at the end of the section's first run, when the
      section holds no such key, makes that line the one found. */
  lemma FindsInserted(ks: seq<LineKind>, ks2: seq<LineKind>, section: string, key: string, n: nat)
    requires FirstHeader(ks, section, 0) < n <= |ks|
    requires forall m :: FirstHeader(ks, section, 0) < m < n ==> !OtherHeader(ks, section, m)
    requires forall j :: 0 <= j < |ks| && InSection(ks, section, j) ==> !KeyAt(ks, key, j)
    requires |ks2| == |ks| + 1 && forall m :: 0 <= m < n ==> ks2[m] == ks[m]
    requires KeyAt(ks2, key, n)
    ensures ScanFrom(ks2, section, key, 0, false, -1, |ks2|).line == n
  {
    var h := FirstHeader(ks, section, 0);
    forall m | 0 <= m <= h ensures Matching(ks2, section, m) == Matching(ks, section, m) {
      assert ks2[m] == ks[m];
    }
    FirstHeaderIs(ks2, section, 0, h);
    forall m | h < m < n ensures !OtherHeader(ks2, section, m) {
      assert ks2[m] == ks[m];
      assert !OtherHeader(ks, section, m);
    }
    assert InSection(ks2, section, n);
    forall m | 0 <= m < n && InSection(ks2, section, m) ensures !KeyAt(ks2, key, m) {
      assert InSection(ks, section, m);
    }
    ScanFindsFirst(ks2, section, key, n);
  }

  /** A key line right after the first header of the section is the one
      found. */
  lemma FindsAppended(ks2: seq<LineKind>, section: string, key: string)
    requires |ks2| >= 2
    requires forall m :: 0 <= m < |ks2| - 2 ==> !Matching(ks2, section, m)
    requires Matching(ks2, section, |ks2| - 2) && KeyAt(ks2, key, |ks2| - 1)
    ensures ScanFrom(ks2, section, key, 0, false, -1, |ks2|).line == |ks2| - 1
  {
    FirstHeaderIs(ks2, section, 0, |ks2| - 2);
    ScanFindsFirst(ks2, section, key, |ks2| - 1);
  }

  lemma EditFindsReplaced(lines: seq<string>, section: string, key: string, newline: string)
    requires |lines| >= 1
    requires KeyAt([Classify(newline)], key, 0)
    requires FindKey(lines, section, key).line >= 0
    ensures var e := Edit(lines, FindKey(lines, section, key), section, newline);
      FindKey(e, section, key) == FindKey(lines, section, key)
  {
    var f := FindKey(lines, section, key);
    var e := Edit(lines, f, section, newline);
    var ks, ks2 := Kinds(lines), Kinds(e);
    FoundIsKey(ks, section, key);
    forall m | 0 <= m < |ks| ensures ks2[m] == (if m == f.line then Classify(newline) else ks[m]) {
      KindsAt(lines, m);
      KindsAt(e, m);
    }
    assert SameShape(ks, ks2, section, key);
    ScanSameShape(ks, ks2, section, key, 0, false, -1, |lines|);
  }

  lemma EditFindsInserted(lines: seq<string>, section: string, key: string, newline: string)
    requires |lines| >= 1
    requires KeyAt([Classify(newline)], key, 0)
    requires FindKey(lines, section, key).line < 0 && FindKey(lines, section, key).secStart >= 0
    ensures var f := FindKey(lines, section, key);
      FindKey(Edit(lines, f, section, newline), section, key).line == f.secEnd
  {
    var f := FindKey(lines, section, key);
    var e := Edit(lines, f, section, newline);
    var ks, ks2 := Kinds(lines), Kinds(e);
    forall m | 0 <= m < f.secEnd ensures ks2[m] == ks[m] {
      KindsAt(lines, m);
      KindsAt(e, m);
    }
    KindsAt(e, f.secEnd);
    FindKeyMeaning(lines, section, key);
    FindsInserted(ks, ks2, section, key, f.secEnd);
  }

  lemma EditFindsAppended(lines: seq<string>, section: string, key: string, newline: string)
    requires |lines| >= 1
    requires KeyAt([Classify(newline)], key, 0)
    requires Matching([Classify("[" + section + "]")], section, 0)
    requires FindKey(lines, section, key).line < 0 && FindKey(lines, section, key).secStart < 0
    ensures var e := Edit(lines, FindKey(lines, section, key), section, newline);
      FindKey(e, section, key).line == |e| - 1
  {
    var f := FindKey(lines, section, key);
    var e := Edit(lines, f, section, newline);
    var ks := Kinds(lines);
    NoHeaderFound(ks, section, key);
    assert |e| == |lines| + 2 || (|e| == |lines| + 3 && e[|lines|] == []);
    forall m | 0 <= m < |lines| ensures e[m] == lines[m] {
      assert e[m] == e[..|lines|][m];
    }
    assert e[|e| - 2] == e[|e| - 2..][0] && e[|e| - 1] == e[|e| - 2..][1];
    AppendedKinds(lines, e, section, "[" + section + "]", newline);
    FindsAppended(Kinds(e), section, key);
  }

  /** The kinds of the lines after a new section is appended. */
  lemma AppendedKinds(lines: seq<string>, e: seq<string>, section: string, header: string, newline: string)
    requires forall m :: 0 <= m < |lines| ==> !Matching(Kinds(lines), section, m)
    requires |e| == |lines| + 2 || (|e| == |lines| + 3 && e[|lines|] == [])
    requires forall m :: 0 <= m < |lines| ==> e[m] == lines[m]
    requires e[|e| - 2] == header && e[|e| - 1] == newline
    ensures var ks2 := Kinds(e);
      && (forall m :: 0 <= m < |e| - 2 ==> !Matching(ks2, section, m))
      && ks2[|e| - 2] == Classify(header) && ks2[|e| - 1] == Classify(newline)
  {
    var ks, ks2 := Kinds(lines), Kinds(e);
    var n := |e| - 2;
    forall m | 0 <= m < n ensures !Matching(ks2, section, m) {
      KindsAt(e, m);
      if m < |lines| {
        KindsAt(lines, m);
        assert !Matching(ks, section, m);
      } else {
        assert m == |lines|;
        assert Trim([]) == [];
      }
    }
    KindsAt(e, n);
    KindsAt(e, n + 1);
  }

  /** After the edit the search finds the written line: in place of the old
      key line (every line keeps its kind), at the end of the section (the
      lines before it are unchanged), or in the new section at the end (no
      header named the section before). */
  lemma EditFindsKey(lines: seq<string>, section: string, key: string, newline: string)
    requires |lines| >= 1
    requires KeyAt([Classify(newline)], key, 0)
    requires Matching([Classify("[" + section + "]")], section, 0)
    ensures var e := Edit(lines, FindKey(lines, section, key), section, newline);
      var r := FindKey(e, section, key);
      0 <= r.line < |e| && e[r.line] == newline
  {
    var f := FindKey(lines, section, key);
    if f.line >= 0 {
      EditFindsReplaced(lines, section, key, newline);
    } else if f.secStart >= 0 {
      EditFindsInserted(lines, section, key, newline);
    } else {
      EditFindsAppended(lines, section, key, newline);
    }
  }

  /** Reading back the edited lines finds the written line's value. */
  lemma ReadBackWritten(lines: seq<string>, section: string, key: string, newline: string)
    requires |lines| >= 1 && forall i :: 0 <= i < |lines| ==> '\n' !in lines[i]
    requires '\n' !in section && '\n' !in newline
    requires KeyAt([Classify(newline)], key, 0)
    requires Matching([Classify("[" + section + "]")], section, 0)
    ensures Stored(section, key, Join(Edit(lines, FindKey(lines, section, key), section, newline)))
            == Some(ValueOf(newline))
  {
    var f := FindKey(lines, section, key);
    var e := Edit(lines, f, section, newline);
    EditFindsKey(lines, section, key, newline);
    EditNoFeed(lines, f, section, newline);
    KindsReadBack(e);
    var back := Lines(Join(e));
    var r := FindKey(e, section, key);
    assert FindKey(back, section, key) == r;
    LinesOfJoin(e);
    DropCRsAt(e, r.line);
    ValueOfDropCR(newline);
  }

  /** The text `ini_puts` writes stores the trimmed value for the key. */
  lemma WrittenValue(section: string, key: string, value: string, content: string)
    requires PlainSection(section) && PlainKey(key) && '\n' !in value
    ensures var lines := Lines(content);
      Stored(section, key, Join(Edit(lines, FindKey(lines, section, key), section, key + "=" + value)))
      == Some(Trim(value))
  {
    var newline := key + "=" + value;
    ClassifyKeyLine(key, value);
    ClassifyHeaderLine(section);
    ValueOfKeyLine(key, value);
    LinesNoFeed(content, 0);
    assert '\n' !in newline;
    ReadBackWritten(Lines(content), section, key, newline);
  }

  /** Round trip: after `ini_puts(section, key, value)` succeeds, `ini_gets`
      on the written file reads the trimmed value (cut to the buffer). */
  lemma PutsThenGets(section: string, key: string, value: string, content: string,
                     def: Option<string>, outsz: nat)
    requires PlainSection(section) && PlainKey(key) && '\n' !in value && outsz >= 1
    ensures var p := Puts(Some(section), Some(key), Some(value), Some(content), true);
      && p.rc == 1 && p.written.Some?
      && Gets(Some(section), Some(key), def, outsz, p.written) == Truncate(Trim(value), outsz)
  {
    var lines := Lines(content);
    var w := Join(Edit(lines, FindKey(lines, section, key), section, key + "=" + value));
    assert Puts(Some(section), Some(key), Some(value), Some(content), true) == PutResult(1, Some(w));
    WrittenValue(section, key, value, content);
    assert OrEmpty(Some(section)) == section && OrEmpty(Some(key)) == key;
    assert Chosen(Some(section), Some(key), def, Some(w)) == Trim(value);
  }

  /** A value without surrounding white space that fits the buffer reads
      back exactly. */
  lemma PutsThenGetsExact(section: string, key: string, value: string, content: string,
                          def: Option<string>, outsz: nat)
    requires PlainSection(section) && PlainKey(key) && '\n' !in value
    requires Unpadded(value) && |value| < outsz
    ensures var p := Puts(Some(section), Some(key), Some(value), Some(content), true);
      p.written.Some? && Gets(Some(section), Some(key), def, outsz, p.written) == value
  {
    TrimNoSpace(value);
    PutsThenGets(section, key, value, content, def, outsz);
  }

  /** A put whose write fails loses the whole configuration: the file was
      deleted first, so every later read of any section and key finds
      nothing and gives its default. */
  lemma FailedPutLosesAll(section: string, key: string, value: string, content: string,
                          sec2: Option<string>, key2: Option<string>, def: Option<string>)
    requires section != [] && key != []
    ensures var p := Puts(Some(section), Some(key), Some(value), Some(content), false);
      && p.rc == 0 && p.written == Some([])
      && Chosen(sec2, key2, def, p.written) == OrEmpty(def)
  {
    var lines := Lines([]);
    assert lines == [[]];
    assert Classify([]) == Blank;
    assert Kinds(lines) == [Blank];
  }
}
