/** UTF-8 well-formedness (Table 3-7 of the Unicode Standard), twice: as a list of
    well-formed scalar values, and as the byte-by-byte recogniser the proofs run. */
module Utf8 {
  type Byte = b: int | 0 <= b < 256
  type Bytes = seq<Byte>

  predicate InRange(b: Byte, lo: int, hi: int) {
    lo <= b <= hi
  }

  predicate IsTail(b: Byte) {
    InRange(b, 0x80, 0xBF)
  }

  /** Length of the well-formed scalar value at the front of `s`, 0 when there is none. */
  function ScalarLength(s: Bytes): (n: nat)
    ensures n <= |s| && n <= 4
  {
    if |s| >= 1 && s[0] < 0x80 then 1
    else if |s| >= 2 && InRange(s[0], 0xC2, 0xDF) && IsTail(s[1]) then 2
    else if |s| >= 3 && IsTail(s[2])
            && ( || (s[0] == 0xE0 && InRange(s[1], 0xA0, 0xBF))
                 || (InRange(s[0], 0xE1, 0xEC) && IsTail(s[1]))
                 || (s[0] == 0xED && InRange(s[1], 0x80, 0x9F))
                 || (InRange(s[0], 0xEE, 0xEF) && IsTail(s[1]))) then 3
    else if |s| >= 4 && IsTail(s[2]) && IsTail(s[3])
            && ( || (s[0] == 0xF0 && InRange(s[1], 0x90, 0xBF))
                 || (InRange(s[0], 0xF1, 0xF3) && IsTail(s[1]))
                 || (s[0] == 0xF4 && InRange(s[1], 0x80, 0x8F))) then 4
    else 0
  }

  predicate WellFormed(s: Bytes)
    decreases |s|
  {
    s == [] || (ScalarLength(s) > 0 && WellFormed(s[ScalarLength(s)..]))
  }

  /** Where the recogniser stands: between scalar values, expecting a second byte in a
      narrowed range, expecting plain tail bytes, or past an error. */
  datatype Utf8State = Boundary | Narrow(lo: int, hi: int, more: nat) | Tails(left: nat) | Invalid

  function After(left: nat): Utf8State {
    if left == 0 then Boundary else Tails(left)
  }

  function Step(q: Utf8State, b: Byte): Utf8State {
    match q
    case Invalid => Invalid
    case Tails(n) => if IsTail(b) && n > 0 then After(n - 1) else Invalid
    case Narrow(lo, hi, n) => if InRange(b, lo, hi) && IsTail(b) then After(n) else Invalid
    case Boundary =>
      if b < 0x80 then Boundary
      else if InRange(b, 0xC2, 0xDF) then Tails(1)
      else if b == 0xE0 then Narrow(0xA0, 0xBF, 1)
      else if b == 0xED then Narrow(0x80, 0x9F, 1)
      else if InRange(b, 0xE1, 0xEF) then Tails(2)
      else if b == 0xF0 then Narrow(0x90, 0xBF, 2)
      else if b == 0xF4 then Narrow(0x80, 0x8F, 2)
      else if InRange(b, 0xF1, 0xF3) then Tails(3)
      else Invalid
  }

  function Run(q: Utf8State, s: Bytes): Utf8State
    decreases |s|
  {
    if s == [] then q else Run(Step(q, s[0]), s[1..])
  }

  lemma {:induction false} RunAppend(q: Utf8State, s: Bytes, t: Bytes)
    ensures Run(q, s + t) == Run(Run(q, s), t)
    decreases |s|
  {
    if s == [] {
      assert s + t == t;
    } else {
      assert (s + t)[1..] == s[1..] + t;
      RunAppend(Step(q, s[0]), s[1..], t);
    }
  }

  lemma {:induction false} InvalidIsFinal(s: Bytes)
    ensures Run(Invalid, s) == Invalid
  {
    if s != [] { InvalidIsFinal(s[1..]); }
  }

  /** ASCII is one byte a scalar: it keeps a boundary and is an error anywhere else. */
  lemma {:induction false} AsciiRun(q: Utf8State, s: Bytes)
    requires s != [] && forall i | 0 <= i < |s| :: s[i] < 0x80
    ensures Run(q, s) == if q == Boundary then Boundary else Invalid
    decreases |s|
  {
    var r := Step(q, s[0]);
    if |s| > 1 {
      AsciiRun(r, s[1..]);
    } else {
      assert Run(q, s) == Run(r, []) == r;
    }
  }

  /** The recogniser accepts exactly the concatenations of well-formed scalar values. */
  lemma {:induction false} RecogniserIsExact(s: Bytes)
    ensures WellFormed(s) <==> Run(Boundary, s) == Boundary
    decreases |s|
  {
    if s != [] {
      var n := ScalarLength(s);
      if n > 0 {
        RecogniserIsExact(s[n..]);
        ScalarRun(s[..n]);
        RunAppend(Boundary, s[..n], s[n..]);
        assert s == s[..n] + s[n..];
      } else {
        NoScalarRun(s);
      }
    }
  }

  lemma ScalarRun(s: Bytes)
    requires s != [] && ScalarLength(s) == |s|
    ensures Run(Boundary, s) == Boundary
  {
    var q1 := Step(Boundary, s[0]);
    if |s| >= 2 { assert s[1..][0] == s[1]; }
    if |s| >= 3 { assert s[1..][1..][0] == s[2]; }
    if |s| >= 4 { assert s[1..][1..][1..][0] == s[3]; }
    assert Run(Boundary, s) == Run(q1, s[1..]);
    if |s| >= 2 {
      var q2 := Step(q1, s[1]);
      assert Run(q1, s[1..]) == Run(q2, s[1..][1..]);
      if |s| >= 3 {
        var q3 := Step(q2, s[2]);
        assert Run(q2, s[1..][1..]) == Run(q3, s[1..][1..][1..]);
        if |s| >= 4 {
          assert Run(q3, s[1..][1..][1..]) == Run(Step(q3, s[3]), s[1..][1..][1..][1..]);
        }
      }
    }
  }

  lemma NoScalarRun(s: Bytes)
    requires s != [] && ScalarLength(s) == 0
    ensures Run(Boundary, s) != Boundary
  {
    var q1 := Step(Boundary, s[0]);
    var t1 := s[1..];
    assert Run(Boundary, s) == Run(q1, t1);
    InvalidIsFinal(t1);
    if t1 != [] && q1 != Invalid {
      var q2 := Step(q1, t1[0]);
      var t2 := t1[1..];
      assert Run(q1, t1) == Run(q2, t2);
      InvalidIsFinal(t2);
      if t2 != [] && q2 != Invalid {
        var q3 := Step(q2, t2[0]);
        var t3 := t2[1..];
        assert Run(q2, t2) == Run(q3, t3);
        InvalidIsFinal(t3);
        if t3 != [] && q3 != Invalid {
          assert Run(q3, t3) == Run(Step(q3, t3[0]), t3[1..]);
          InvalidIsFinal(t3[1..]);
        }
      }
    }
  }
}
