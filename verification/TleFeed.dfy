/** The three-line satellite feed: the loop that finds name/line 1/line 2 triplets and
    resynchronises after junk, and the outcome a poll reports. */
module TleFeed {
  import opened Prelude

  datatype Sat = Sat(noradId: int, name: string, line1: string, line2: string)

  predicate StartsWith(line: string, c: char) {
    line != [] && line[0] == c
  }

  // ---------------------------------------------------------------- the catalog number

  predicate IsSpace(c: char) {
    c == ' ' || '\t' <= c <= '\r'
  }

  function TrimStart(s: string): string {
    if s != [] && IsSpace(s[0]) then TrimStart(s[1..]) else s
  }

  function TrimEnd(s: string): string {
    if s != [] && IsSpace(s[|s| - 1]) then TrimEnd(s[..|s| - 1]) else s
  }

  function Digits(s: string): Option<int> {
    if s == [] then Some(0)
    else match Digits(s[..|s| - 1])
      case Some(n) => if '0' <= s[|s| - 1] <= '9' then Some(10 * n + (s[|s| - 1] - '0') as int) else None
      case None => None
  }

  /** i32 parsing. The field has five characters, so no value can overflow. */
  function ParseI32(s: string): Option<int> {
    var digits := if StartsWith(s, '+') || StartsWith(s, '-') then s[1..] else s;
    if digits == [] then None
    else match Digits(digits)
      case Some(n) => Some(if s[0] == '-' then -n else n)
      case None => None
  }

  function CatalogNumber(line1: string): Option<int>
    requires |line1| >= 7
  {
    ParseI32(TrimEnd(TrimStart(line1[2..7])))
  }

  function Digit(d: int): char
    requires 0 <= d <= 9
  {
    '0' + d as char
  }

  /** A catalog number as the format writes it: five digits, zero padded. */
  function FiveDigits(n: nat): string
    requires n < 100000
  {
    [Digit(n / 10000), Digit(n / 1000 % 10), Digit(n / 100 % 10), Digit(n / 10 % 10), Digit(n % 10)]
  }

  lemma DigitsAppend(s: string, d: int, n: int)
    requires Digits(s) == Some(n) && 0 <= d <= 9
    ensures Digits(s + [Digit(d)]) == Some(10 * n + d)
  {
  }

  lemma FiveDigitsRead(n: nat)
    requires n < 100000
    ensures Digits(FiveDigits(n)) == Some(n)
  {
    ReadFive(n / 10000, n / 1000 % 10, n / 100 % 10, n / 10 % 10, n % 10);
    hide Digits, Digit;
    DecimalSteps(n);
  }

  lemma DecimalSteps(n: nat)
    ensures n == 10 * (n / 10) + n % 10
    ensures n / 10 == 10 * (n / 100) + n / 10 % 10
    ensures n / 100 == 10 * (n / 1000) + n / 100 % 10
    ensures n / 1000 == 10 * (n / 10000) + n / 1000 % 10
  {
  }

  lemma ReadFive(a: int, b: int, c: int, d: int, e: int)
    requires 0 <= a <= 9 && 0 <= b <= 9 && 0 <= c <= 9 && 0 <= d <= 9 && 0 <= e <= 9
    ensures Digits([Digit(a), Digit(b), Digit(c), Digit(d), Digit(e)]) ==
        Some(10 * (10 * (10 * (10 * a + b) + c) + d) + e)
  {
    DigitsAppend([], a, 0);
    hide Digits;
    var s1 := [] + [Digit(a)];
    DigitsAppend(s1, b, a);
    var s2 := s1 + [Digit(b)];
    DigitsAppend(s2, c, 10 * a + b);
    var s3 := s2 + [Digit(c)];
    DigitsAppend(s3, d, 10 * (10 * a + b) + c);
    var s4 := s3 + [Digit(d)];
    DigitsAppend(s4, e, 10 * (10 * (10 * a + b) + c) + d);
    assert s4 + [Digit(e)] == [Digit(a), Digit(b), Digit(c), Digit(d), Digit(e)];
  }

  /** Reading the number back from its columns, whatever stands around them. */
  lemma CatalogNumberReadsBack(n: nat, before: string, after: string)
    requires n < 100000 && |before| == 2
    ensures CatalogNumber(before + FiveDigits(n) + after) == Some(n)
  {
    var s := FiveDigits(n);
    assert (before + s + after)[2..7] == s;
    assert TrimStart(s) == s && TrimEnd(s) == s;
    FiveDigitsRead(n);
  }

  function Blanks(n: nat): string {
    seq(n, _ => ' ')
  }

  lemma {:induction false} TrimBlanks(n: nat, s: string)
    requires s != [] && !IsSpace(s[0])
    ensures TrimStart(Blanks(n) + s) == s
  {
    if n > 0 {
      assert (Blanks(n) + s)[1..] == Blanks(n - 1) + s;
      TrimBlanks(n - 1, s);
    } else {
      assert Blanks(0) + s == s;
    }
  }

  lemma {:induction false} LeadingZero(s: string)
    ensures Digits(['0'] + s) == Digits(s)
  {
    if s != [] {
      assert (['0'] + s)[..|s|] == ['0'] + s[..|s| - 1];
      LeadingZero(s[..|s| - 1]);
    } else {
      assert (['0'] + s)[..0] == [];
    }
  }

  lemma {:induction false} DropZeros(s: string, n: nat)
    requires n <= |s| && forall i | 0 <= i < n :: s[i] == '0'
    ensures Digits(s[n..]) == Digits(s)
  {
    if n > 0 {
      DropZeros(s, n - 1);
      assert s[n - 1..] == ['0'] + s[n..];
      LeadingZero(s[n..]);
    }
  }

  /** It reads back too where leading zeros, up to four of them, are written as blanks. */
  lemma {:induction false} BlankPaddedNumberReadsBack(n: nat, zeros: nat, before: string, after: string)
    requires n < 100000 && |before| == 2 && zeros <= 4
    requires forall i | 0 <= i < zeros :: FiveDigits(n)[i] == '0'
    ensures CatalogNumber(before + Blanks(zeros) + FiveDigits(n)[zeros..] + after) == Some(n)
  {
    hide Digits, FiveDigits, TrimStart, TrimEnd;
    FiveAreDigits(n);
    var s := FiveDigits(n)[zeros..];
    var line := before + Blanks(zeros) + s + after;
    assert line[2..7] == Blanks(zeros) + s;
    assert s[0] in FiveDigits(n) && s[|s| - 1] in FiveDigits(n);
    TrimBlanks(zeros, s);
    NothingToTrim(s);
    DropZeros(FiveDigits(n), zeros);
    FiveDigitsRead(n);
  }

  lemma FiveAreDigits(n: nat)
    requires n < 100000
    ensures |FiveDigits(n)| == 5 && forall c | c in FiveDigits(n) :: '0' <= c <= '9'
  {
  }

  lemma NothingToTrim(s: string)
    requires s != [] && !IsSpace(s[|s| - 1])
    ensures TrimEnd(s) == s
  {
  }

  lemma {:induction false} NotDigits(s: string, i: nat)
    requires i < |s| && !('0' <= s[i] <= '9')
    ensures Digits(s).None?
  {
    if i < |s| - 1 { NotDigits(s[..|s| - 1], i); }
  }

  /** A field with anything but a digit, a sign or a blank in it is no number: the letters
      some catalogs put in the first column are refused. */
  lemma {:induction false} OddFieldIsRefused(line1: string, i: nat)
    requires |line1| >= 7 && 2 <= i < 7 && !('0' <= line1[i] <= '9') && !IsSpace(line1[i]) && line1[i] !in {'+', '-'}
    ensures CatalogNumber(line1).None?
  {
    var field := line1[2..7];
    var j := TrimStartKeeps(field, i - 2);
    var k := TrimEndKeeps(TrimStart(field), j);
    var s := TrimEnd(TrimStart(field));
    if StartsWith(s, '+') || StartsWith(s, '-') { NotDigits(s[1..], k - 1); } else { NotDigits(s, k); }
  }

  lemma {:induction false} TrimStartKeeps(s: string, i: nat) returns (j: nat)
    requires i < |s| && !IsSpace(s[i])
    ensures j < |TrimStart(s)| && TrimStart(s)[j] == s[i]
  {
    j := i;
    if IsSpace(s[0]) { j := TrimStartKeeps(s[1..], i - 1); }
  }

  lemma {:induction false} TrimEndKeeps(s: string, i: nat) returns (j: nat)
    requires i < |s| && !IsSpace(s[i])
    ensures j < |TrimEnd(s)| && TrimEnd(s)[j] == s[i]
  {
    j := i;
    if IsSpace(s[|s| - 1]) { j := TrimEndKeeps(s[..|s| - 1], i); }
  }

  // ---------------------------------------------------------------- the loop

  predicate IsTripletAt(lines: seq<string>, i: nat) {
    i + 2 < |lines| && StartsWith(lines[i + 1], '1') && StartsWith(lines[i + 2], '2')
  }

  /** The satellites of a list of trimmed, nonempty lines; None where slicing a first line
      shorter than seven characters panics. */
  function Scan(lines: seq<string>): Option<seq<Sat>> {
    if |lines| < 3 then Some([])
    else if !IsTripletAt(lines, 0) then Scan(lines[1..])
    else if |lines[1]| < 7 then None
    else match Scan(lines[3..])
      case None => None
      case Some(rest) =>
        match CatalogNumber(lines[1])
        case Some(id) => Some([Sat(id, lines[0], lines[1], lines[2])] + rest)
        case None => Some(rest)
  }

  function Prepend(sats: seq<Sat>, rest: Option<seq<Sat>>): Option<seq<Sat>> {
    match rest
    case None => None
    case Some(more) => Some(sats + more)
  }

  method ParseTriplets(lines: seq<string>) returns (result: Option<seq<Sat>>)
    ensures result == Scan(lines)
  {
    var sats: seq<Sat> := [];
    var i := 0;
    assert lines[0..] == lines;
    assert Scan(lines).Some? ==> [] + Scan(lines).value == Scan(lines).value;
    while i + 2 < |lines|
      invariant 0 <= i <= |lines|
      invariant Scan(lines) == Prepend(sats, Scan(lines[i..]))
      decreases |lines| - i
    {
      ghost var rest := lines[i..];
      var name := lines[i];
      var line1 := lines[i + 1];
      var line2 := lines[i + 2];
      if !StartsWith(line1, '1') || !StartsWith(line2, '2') {
        assert rest[1..] == lines[i + 1..];
        i := i + 1;
        continue;
      }
      if |line1| < 7 {
        return None;
      }
      assert rest[3..] == lines[i + 3..];
      var id := CatalogNumber(line1);
      if id.Some? {
        ghost var next := Sat(id.value, name, line1, line2);
        ghost var tail := Scan(lines[i + 3..]);
        assert tail.Some? ==> sats + ([next] + tail.value) == (sats + [next]) + tail.value;
        sats := sats + [Sat(id.value, name, line1, line2)];
      }
      i := i + 3;
    }
    assert sats + [] == sats;
    return Some(sats);
  }

  // ---------------------------------------------------------------- recovery

  datatype Item = Junk(line: string) | Triplet(name: string, line1: string, line2: string)

  /** Neither junk nor a name looks like a first line; a triplet's own lines are what they
      should be. Nothing is asked of where items stand. */
  predicate IsItem(it: Item) {
    match it
    case Junk(line) => !StartsWith(line, '1')
    case Triplet(name, line1, line2) =>
      && !StartsWith(name, '1')
      && StartsWith(line1, '1') && |line1| >= 7 && CatalogNumber(line1).Some?
      && StartsWith(line2, '2')
  }

  function LinesOf(items: seq<Item>): seq<string> {
    if items == [] then []
    else (match items[0]
          case Junk(line) => [line]
          case Triplet(name, line1, line2) => [name, line1, line2]) + LinesOf(items[1..])
  }

  function SatsOf(items: seq<Item>): seq<Sat>
    requires forall i | 0 <= i < |items| :: IsItem(items[i])
  {
    if items == [] then []
    else
      assert IsItem(items[0]);
      match items[0]
      case Junk(_) => SatsOf(items[1..])
      case Triplet(name, line1, line2) => [Sat(CatalogNumber(line1).value, name, line1, line2)] + SatsOf(items[1..])
  }

  /** Writing triplets with any junk between them and scanning the lines gives back exactly
      the triplets, in order. */
  lemma {:induction false} ScanRecoversTriplets(items: seq<Item>)
    requires forall i | 0 <= i < |items| :: IsItem(items[i])
    ensures Scan(LinesOf(items)) == Some(SatsOf(items))
  {
    if items != [] {
      assert IsItem(items[0]);
      var lines, rest := LinesOf(items), LinesOf(items[1..]);
      ScanRecoversTriplets(items[1..]);
      if items[0].Junk? {
        assert lines[1..] == rest;
        NoFirstLineLeads(items[1..]);
        if |rest| >= 2 { assert lines[1] == rest[0]; }
        if |lines| < 3 { ShortScan(rest); }
      } else {
        assert lines[3..] == rest;
      }
    }
  }

  lemma NoFirstLineLeads(items: seq<Item>)
    requires forall i | 0 <= i < |items| :: IsItem(items[i])
    ensures LinesOf(items) != [] ==> !StartsWith(LinesOf(items)[0], '1')
  {
  }

  lemma ShortScan(lines: seq<string>)
    requires |lines| < 3
    ensures Scan(lines) == Some([])
  {
  }

  /** Resynchronising after any text at all: from a line that looks like neither a first nor
      a second line on, the rest is read as if nothing had stood before it. */
  lemma {:induction false} ScanResumes(pre: seq<string>, rest: seq<string>)
    requires rest != [] ==> !StartsWith(rest[0], '1') && !StartsWith(rest[0], '2')
    ensures Scan(pre + rest) == match Scan(pre) case Some(sats) => Prepend(sats, Scan(rest)) case None => None
    decreases |pre|
  {
    var all := pre + rest;
    if pre == [] {
      assert all == rest;
      assert Scan(rest).Some? ==> [] + Scan(rest).value == Scan(rest).value;
    } else if |pre| >= 3 && IsTripletAt(pre, 0) {
      assert all[3..] == pre[3..] + rest;
      ScanResumes(pre[3..], rest);
      if |pre[1]| >= 7 && Scan(pre[3..]).Some? && Scan(rest).Some? && CatalogNumber(pre[1]).Some? {
        var sat := Sat(CatalogNumber(pre[1]).value, pre[0], pre[1], pre[2]);
        assert [sat] + (Scan(pre[3..]).value + Scan(rest).value) == ([sat] + Scan(pre[3..]).value) + Scan(rest).value;
      }
    } else {
      assert all[1..] == pre[1..] + rest;
      ScanResumes(pre[1..], rest);
      if |pre| < 3 { ShortScan(pre[1..]); }
      if |all| < 3 { ShortScan(all[1..]); }
    }
  }

  /** Slicing is safe whenever every line that looks like a first line has seven characters. */
  lemma {:induction false} LongLinesNeverPanic(lines: seq<string>)
    requires forall l | l in lines && StartsWith(l, '1') :: |l| >= 7
    ensures Scan(lines).Some?
    decreases |lines|
  {
    if |lines| >= 3 {
      if IsTripletAt(lines, 0) { LongLinesNeverPanic(lines[3..]); } else { LongLinesNeverPanic(lines[1..]); }
    }
  }

  /** Each satellite used up three lines of its own. */
  lemma {:induction false} ThreeLinesEach(lines: seq<string>)
    requires Scan(lines).Some?
    ensures 3 * |Scan(lines).value| <= |lines|
    decreases |lines|
  {
    if |lines| >= 3 {
      if IsTripletAt(lines, 0) { ThreeLinesEach(lines[3..]); } else { ThreeLinesEach(lines[1..]); }
    }
  }

  /** Every satellite returned is one of the windows of the input, with its own number. */
  lemma {:induction false} SatsAreWindows(lines: seq<string>, s: Sat)
    requires Scan(lines).Some? && s in Scan(lines).value
    ensures exists i: nat | IsTripletAt(lines, i) ::
              s.name == lines[i] && s.line1 == lines[i + 1] && s.line2 == lines[i + 2]
              && |s.line1| >= 7 && CatalogNumber(s.line1) == Some(s.noradId)
    decreases |lines|
  {
    if IsTripletAt(lines, 0) {
      if !(CatalogNumber(lines[1]).Some? && s == Sat(CatalogNumber(lines[1]).value, lines[0], lines[1], lines[2])) {
        SatsAreWindows(lines[3..], s);
        var i: nat :| IsTripletAt(lines[3..], i) && s.name == lines[3..][i] && s.line1 == lines[3..][i + 1]
          && s.line2 == lines[3..][i + 2];
        assert IsTripletAt(lines, i + 3);
      }
    } else {
      SatsAreWindows(lines[1..], s);
      var i: nat :| IsTripletAt(lines[1..], i) && s.name == lines[1..][i] && s.line1 == lines[1..][i + 1]
        && s.line2 == lines[1..][i + 2];
      assert IsTripletAt(lines, i + 1);
    }
  }

  // ---------------------------------------------------------------- the outcome

  datatype PollOutcome = NoChange | EmptyPayload | Parsed(received: nat, kept: nat)
  datatype Level = Info | Warn | Error

  /** For feeds parsed entry by entry. */
  function Lossy(received: nat, kept: nat): PollOutcome {
    if received == 0 then EmptyPayload else Parsed(received, kept)
  }

  function LogLevel(outcome: PollOutcome): Level {
    match outcome
    case NoChange => Info
    case EmptyPayload => Warn
    case Parsed(_, kept) => if kept == 0 then Error else if kept < outcome.received then Warn else Info
  }

  function Outcome(lines: seq<string>, sats: seq<Sat>): PollOutcome {
    Lossy(|lines| / 3, |sats|)
  }

  /** Rows are never reported as an empty payload or a total failure, the count kept never
      exceeds the count received, and a payload is an error exactly when it held at least
      one satellite's worth of lines and none survived. */
  lemma {:induction false} OutcomeTellsTheTruth(lines: seq<string>)
    requires Scan(lines).Some?
    ensures var sats := Scan(lines).value; var outcome := Outcome(lines, sats);
            && (sats != [] ==> outcome == Parsed(|lines| / 3, |sats|) && 0 < |sats| <= |lines| / 3)
            && (outcome == EmptyPayload <==> |lines| < 3)
            && (LogLevel(outcome) == Error <==> |lines| >= 3 && sats == [])
            && (LogLevel(outcome) == Info <==> |lines| >= 3 && |sats| == |lines| / 3)
  {
    ThreeLinesEach(lines);
  }
}
