/** The scanner that replaces the bare number words NaN, Infinity and -Infinity by null
    in a feed's text before it is parsed as JSON.

    The scanner works on bytes and has two states, inside and outside a string. The
    reference meaning is lexical: `Lex` splits the text into pieces without losing a byte,
    and the scanner's output is the text of the same pieces with every literal nulled. */
module JsonLiterals {
  import opened Utf8

  const QUOTE: Byte := 0x22
  const BACKSLASH: Byte := 0x5C
  const NAN: Bytes := [0x4E, 0x61, 0x4E]
  const INFINITY: Bytes := [0x49, 0x6E, 0x66, 0x69, 0x6E, 0x69, 0x74, 0x79]
  const NEG_INFINITY: Bytes := [0x2D, 0x49, 0x6E, 0x66, 0x69, 0x6E, 0x69, 0x74, 0x79]
  const NULL: Bytes := [0x6E, 0x75, 0x6C, 0x6C]

  predicate StartsWith(s: Bytes, p: Bytes) {
    |p| <= |s| && s[..|p|] == p
  }

  predicate Contains(s: Bytes, p: Bytes) {
    exists i | 0 <= i <= |s| :: StartsWith(s[i..], p)
  }

  /** Length of the number word at the front of `s`, 0 when there is none. */
  function LiteralLength(s: Bytes): (n: nat)
    ensures n <= |s|
  {
    if StartsWith(s, NAN) then 3
    else if StartsWith(s, NEG_INFINITY) then 9
    else if StartsWith(s, INFINITY) then 8
    else 0
  }

  // ---------------------------------------------------------------- reference meaning

  datatype Piece =
    | Opening                // the quote that starts a string
    | Quoted(text: Bytes)    // a byte, or an escape pair, inside a string
    | Closing                // the quote that ends a string
    | Literal(text: Bytes)   // a nonstandard number outside strings
    | Outside(byte: Byte)    // any other byte outside strings

  /** The piece at the front of a nonempty text. */
  function NextPiece(s: Bytes, inString: bool): (p: Piece)
    requires s != []
    ensures 0 < |PieceText(p)| <= |s| && PieceText(p) == s[..|PieceText(p)|]
  {
    if inString then
      if s[0] == BACKSLASH && |s| >= 2 then Quoted(s[..2])
      else if s[0] == QUOTE then Closing
      else Quoted(s[..1])
    else if s[0] == QUOTE then Opening
    else if LiteralLength(s) > 0 then Literal(s[..LiteralLength(s)])
    else Outside(s[0])
  }

  function PieceText(p: Piece): Bytes {
    match p
    case Opening => [QUOTE]
    case Closing => [QUOTE]
    case Quoted(text) => text
    case Literal(text) => text
    case Outside(b) => [b]
  }

  function StateAfter(p: Piece, inString: bool): bool {
    if p.Opening? then true else if p.Closing? then false else inString
  }

  function Lex(s: Bytes, inString: bool): seq<Piece>
    decreases |s|
  {
    if s == [] then []
    else
      var p := NextPiece(s, inString);
      [p] + Lex(s[|PieceText(p)|..], StateAfter(p, inString))
  }

  function Text(ps: seq<Piece>): Bytes {
    if ps == [] then [] else PieceText(ps[0]) + Text(ps[1..])
  }

  /** The same pieces with each literal replaced by the four bytes of null. */
  function Nulled(ps: seq<Piece>): seq<Piece> {
    if ps == [] then []
    else if ps[0].Literal? then
      [Outside(NULL[0]), Outside(NULL[1]), Outside(NULL[2]), Outside(NULL[3])] + Nulled(ps[1..])
    else [ps[0]] + Nulled(ps[1..])
  }

  /** What the scanner is for: the input's pieces, literals nulled, as text. */
  function Cleaned(s: Bytes, inString: bool): Bytes {
    Text(Nulled(Lex(s, inString)))
  }

  /** The string pieces of a text, quotes included, in order. */
  function Strings(ps: seq<Piece>): seq<Piece> {
    if ps == [] then []
    else if ps[0].Literal? || ps[0].Outside? then Strings(ps[1..])
    else [ps[0]] + Strings(ps[1..])
  }

  // ---------------------------------------------------------------- the scanner

  method NullsForNonstandardNumbers(input: Bytes) returns (text: Bytes)
    requires WellFormed(input)
    ensures text == Cleaned(input, false)
    ensures NullsWords(input, text) && (HoldsNoWord(Out, input) ==> text == input)
    ensures WellFormed(text)
  {
    hide *;
    CleanedNullsWords(input);
    WordlessTextIsKept(input);
    if !Contains(input, NAN) && !Contains(input, INFINITY) {
      NothingToReplace(input, false);
      return input;
    }
    var out: Bytes := [];
    var i := 0;
    var inString := false;
    while i < |input|
      invariant 0 <= i <= |input|
      invariant out + Cleaned(input[i..], inString) == Cleaned(input, false)
    {
      var b := input[i];
      if inString {
        TurnInString(input, i, out);
        if b == BACKSLASH && i + 1 < |input| {
          out := out + input[i..i + 2];
          i := i + 2;
          continue;
        }
        if b == QUOTE {
          inString := false;
        }
        out := out + [b];
        i := i + 1;
        continue;
      }
      TurnOutside(input, i, out);
      if b == QUOTE {
        inString := true;
        out := out + [b];
        i := i + 1;
        continue;
      }
      var rest := input[i..];
      if StartsWith(rest, NAN) {
        out := out + NULL;
        i := i + 3;
        continue;
      }
      if StartsWith(rest, NEG_INFINITY) {
        out := out + NULL;
        i := i + 9;
        continue;
      }
      if StartsWith(rest, INFINITY) {
        out := out + NULL;
        i := i + 8;
        continue;
      }
      out := out + [b];
      i := i + 1;
    }
    CleanedOfNothing(input[i..], inString);
    assert out + [] == out;
    CleanedIsWellFormed(input);
    if WellFormed(out) {
      text := out;
    } else {
      text := input;
    }
  }

  /** One turn of the loop, whichever branch it takes: the output grows by what the next
      piece becomes and the invariant moves past that piece. */
  lemma {:induction false} Advance(input: Bytes, i: nat, inString: bool, out: Bytes)
    requires i < |input| && out + Cleaned(input[i..], inString) == Cleaned(input, false)
    ensures var p := NextPiece(input[i..], inString); var j := i + |PieceText(p)|;
            && j <= |input| && PieceText(p) == input[i..j] && (j == i + 1 ==> PieceText(p) == [input[i]])
            && out + Emitted(p) + Cleaned(input[j..], StateAfter(p, inString)) == Cleaned(input, false)
  {
    hide Cleaned, NextPiece, WellFormed;
    var p := NextPiece(input[i..], inString);
    var j := i + |PieceText(p)|;
    CleanedStep(input[i..], inString);
    assert input[i..][..j - i] == input[i..j] && input[i..][j - i..] == input[j..];
    var tail := Cleaned(input[j..], StateAfter(p, inString));
    assert out + Emitted(p) + tail == out + (Emitted(p) + tail);
  }

  /** The same inside a string, branch by branch. */
  lemma TurnInString(input: Bytes, i: nat, out: Bytes)
    requires i < |input| && out + Cleaned(input[i..], true) == Cleaned(input, false)
    ensures if input[i] == BACKSLASH && i + 1 < |input| then
              out + input[i..i + 2] + Cleaned(input[i + 2..], true) == Cleaned(input, false)
            else out + [input[i]] + Cleaned(input[i + 1..], input[i] != QUOTE) == Cleaned(input, false)
  {
    hide *;
    Advance(input, i, true, out);
    StringTurn(input[i..]);
    assert input[i..][0] == input[i] && (i + 2 <= |input| ==> input[i..][..2] == input[i..i + 2]);
  }

  lemma StringTurn(s: Bytes)
    requires s != []
    ensures var p, escape := NextPiece(s, true), s[0] == BACKSLASH && |s| >= 2;
            && |PieceText(p)| == (if escape then 2 else 1)
            && Emitted(p) == (if escape then s[..2] else [s[0]])
            && StateAfter(p, true) == (escape || s[0] != QUOTE)
  {
    assert s[..1] == [s[0]];
  }

  /** And outside. */
  lemma TurnOutside(input: Bytes, i: nat, out: Bytes)
    requires i < |input| && out + Cleaned(input[i..], false) == Cleaned(input, false)
    ensures input[i] != QUOTE ==>
        && (StartsWith(input[i..], NAN) ==> i + 3 <= |input|)
        && (StartsWith(input[i..], NEG_INFINITY) ==> i + 9 <= |input|)
        && (StartsWith(input[i..], INFINITY) ==> i + 8 <= |input|)
    ensures if input[i] == QUOTE then out + [input[i]] + Cleaned(input[i + 1..], true) == Cleaned(input, false)
            else if StartsWith(input[i..], NAN) then
              out + NULL + Cleaned(input[i + 3..], false) == Cleaned(input, false)
            else if StartsWith(input[i..], NEG_INFINITY) then
              out + NULL + Cleaned(input[i + 9..], false) == Cleaned(input, false)
            else if StartsWith(input[i..], INFINITY) then
              out + NULL + Cleaned(input[i + 8..], false) == Cleaned(input, false)
            else out + [input[i]] + Cleaned(input[i + 1..], false) == Cleaned(input, false)
  {
    hide *;
    LiteralAhead(input[i..]);
    Advance(input, i, false, out);
    OutsideTurn(input[i..]);
    assert input[i..][0] == input[i];
  }

  lemma LiteralAhead(s: Bytes)
    ensures StartsWith(s, NAN) ==> LiteralLength(s) == 3 <= |s|
    ensures StartsWith(s, NEG_INFINITY) ==> !StartsWith(s, NAN) && LiteralLength(s) == 9 <= |s|
    ensures StartsWith(s, INFINITY) ==>
        !StartsWith(s, NAN) && !StartsWith(s, NEG_INFINITY) && LiteralLength(s) == 8 <= |s|
    ensures LiteralLength(s) > 0 ==> StartsWith(s, NAN) || StartsWith(s, NEG_INFINITY) || StartsWith(s, INFINITY)
  {
    if StartsWith(s, NEG_INFINITY) || StartsWith(s, NAN) || StartsWith(s, INFINITY) {
      assert NAN[0] == 0x4E && NEG_INFINITY[0] == 0x2D && INFINITY[0] == 0x49;
    }
  }

  lemma OutsideTurn(s: Bytes)
    requires s != []
    ensures var p, n := NextPiece(s, false), LiteralLength(s);
            && |PieceText(p)| == (if s[0] == QUOTE || n == 0 then 1 else n)
            && Emitted(p) == (if s[0] == QUOTE || n == 0 then [s[0]] else NULL)
            && StateAfter(p, false) == (s[0] == QUOTE)
  {
    hide LiteralLength;
  }

  lemma CleanedOfNothing(s: Bytes, inString: bool)
    requires s == []
    ensures Cleaned(s, inString) == []
  {
  }

  lemma FrontAndRest(s: Bytes, inString: bool)
    requires s != []
    ensures var t := PieceText(NextPiece(s, inString)); s == t + s[|t|..]
  {
  }

  /** The bytes a piece becomes in the output. */
  function Emitted(p: Piece): Bytes {
    if p.Literal? then NULL else PieceText(p)
  }

  lemma CleanedStep(s: Bytes, inString: bool)
    requires s != []
    ensures var p := NextPiece(s, inString);
            Cleaned(s, inString) == Emitted(p) + Cleaned(s[|PieceText(p)|..], StateAfter(p, inString))
  {
    var p := NextPiece(s, inString);
    var rest := Lex(s[|PieceText(p)|..], StateAfter(p, inString));
    assert ([p] + rest)[1..] == rest;
    var tail := Nulled(rest);
    if p.Literal? {
      NullText(tail);
    } else {
      TextCons(p, tail);
    }
  }

  lemma NullText(tail: seq<Piece>)
    ensures Text([Outside(NULL[0]), Outside(NULL[1]), Outside(NULL[2]), Outside(NULL[3])] + tail) == NULL + Text(tail)
  {
    var t3 := [Outside(NULL[3])] + tail;
    var t2 := [Outside(NULL[2])] + t3;
    var t1 := [Outside(NULL[1])] + t2;
    TextCons(Outside(NULL[3]), tail);
    TextCons(Outside(NULL[2]), t3);
    TextCons(Outside(NULL[1]), t2);
    TextCons(Outside(NULL[0]), t1);
    assert [Outside(NULL[0]), Outside(NULL[1]), Outside(NULL[2]), Outside(NULL[3])] + tail == [Outside(NULL[0])] + t1;
  }

  lemma TextCons(p: Piece, ps: seq<Piece>)
    ensures Text([p] + ps) == PieceText(p) + Text(ps)
  {
  }

  // ---------------------------------------------------------------- what it guarantees

  /** The pieces account for every byte: nothing is lost or invented by splitting. */
  lemma {:induction false} LexIsLossless(s: Bytes, inString: bool)
    ensures Text(Lex(s, inString)) == s
    decreases |s|
  {
    hide NextPiece, StartsWith, LiteralLength, Text;
    if s == [] {
      TextOfNothing();
    } else {
      var p := NextPiece(s, inString);
      var n := |PieceText(p)|;
      LexIsLossless(s[n..], StateAfter(p, inString));
      TextCons(p, Lex(s[n..], StateAfter(p, inString)));
      assert s == s[..n] + s[n..];
    }
  }

  lemma TextOfNothing()
    ensures Text([]) == []
  {
  }

  /** What the ends of the three words have in common: no quote, no 'u', and a last byte
      other than 'n'. So none of them overlaps the word null. */
  ghost predicate KeepsClearOfNull(w: Bytes) {
    && (forall i | 0 <= i < |w| :: w[i] != QUOTE && w[i] != NULL[1])
    && (w != [] ==> w[|w| - 1] != NULL[0])
  }

  /** Nulling a word never lets its neighbours join into another one: what starts the
      output of an outside stretch already started the input. */
  lemma {:induction false} NoWordIsRejoined(s: Bytes, w: Bytes)
    requires KeepsClearOfNull(w) && StartsWith(Cleaned(s, false), w)
    ensures StartsWith(s, w)
    decreases |w|
  {
    if w != [] {
      var out := Cleaned(s, false);
      assert out[0] == out[..|w|][0] == w[0];
      CleanedStep(s, false);
      if s[0] != QUOTE && LiteralLength(s) > 0 {
        NullStartsNoWord(Cleaned(s[LiteralLength(s)..], false), w);
      } else if s[0] != QUOTE {
        PrefixTail(out, w);
        assert out[1..] == Cleaned(s[1..], false);
        NoWordIsRejoined(s[1..], w[1..]);
        PrefixCons(s, w);
      }
    }
  }

  lemma NullStartsNoWord(t: Bytes, w: Bytes)
    requires w != [] && KeepsClearOfNull(w)
    ensures !StartsWith(NULL + t, w)
  {
    var s := NULL + t;
    if |w| <= |s| {
      assert s[..|w|][0] == NULL[0];
      assert |w| >= 2 ==> s[..|w|][1] == NULL[1];
    }
  }

  lemma PrefixTail(s: Bytes, w: Bytes)
    requires w != [] && StartsWith(s, w)
    ensures StartsWith(s[1..], w[1..])
  {
  }

  lemma PrefixCons(s: Bytes, w: Bytes)
    requires s != [] && w != [] && s[0] == w[0] && StartsWith(s[1..], w[1..])
    ensures StartsWith(s, w)
  {
  }

  /** The same for a byte copied in front of a cleaned stretch. */
  lemma WordWasThere(s: Bytes, w: Bytes)
    requires s != [] && w != [] && KeepsClearOfNull(w)
    requires StartsWith([s[0]] + Cleaned(s[1..], false), w)
    ensures StartsWith(s, w)
  {
    var out := [s[0]] + Cleaned(s[1..], false);
    PrefixTail(out, w);
    assert out[1..] == Cleaned(s[1..], false);
    assert out[0] == out[..|w|][0] == w[0];
    NoWordIsRejoined(s[1..], w[1..]);
    PrefixCons(s, w);
  }

  lemma NoLiteralAppears(s: Bytes)
    requires s != [] && LiteralLength(s) == 0
    ensures LiteralLength([s[0]] + Cleaned(s[1..], false)) == 0
  {
    var out := [s[0]] + Cleaned(s[1..], false);
    if StartsWith(out, NAN) { WordWasThere(s, NAN); }
    if StartsWith(out, NEG_INFINITY) { WordWasThere(s, NEG_INFINITY); }
    if StartsWith(out, INFINITY) { WordWasThere(s, INFINITY); }
  }

  /** Lexing the output gives back the input's pieces, literals nulled: the string state
      is the same at every byte, and no rejoined text reads as anything new. */
  lemma {:induction false} OutputLexesToNulledPieces(s: Bytes, inString: bool)
    ensures Lex(Cleaned(s, inString), inString) == Nulled(Lex(s, inString))
    decreases |s|
  {
    if s != [] {
      CleanedStep(s, inString);
      var p := NextPiece(s, inString);
      var rest, next := s[|PieceText(p)|..], StateAfter(p, inString);
      OutputLexesToNulledPieces(rest, next);
      assert Lex(s, inString)[1..] == Lex(rest, next);
      if p.Literal? {
        LexNull(Cleaned(rest, false));
      } else {
        var out := Cleaned(s, inString);
        assert out[..|PieceText(p)|] == PieceText(p) && out[|PieceText(p)|..] == Cleaned(rest, next);
        if p.Outside? { NoLiteralAppears(s); }
        assert NextPiece(out, inString) == p;
      }
    }
  }

  lemma LexNull(t: Bytes)
    ensures Lex(NULL + t, false) ==
            [Outside(NULL[0]), Outside(NULL[1]), Outside(NULL[2]), Outside(NULL[3])] + Lex(t, false)
  {
    hide Lex;
    var t3 := [NULL[3]] + t;
    var t2 := [NULL[2]] + t3;
    var t1 := [NULL[1]] + t2;
    LexOutside(NULL[3], t);
    LexOutside(NULL[2], t3);
    LexOutside(NULL[1], t2);
    LexOutside(NULL[0], t1);
    assert NULL + t == [NULL[0]] + t1;
  }

  lemma LexOutside(b: Byte, t: Bytes)
    requires b != QUOTE && b != NAN[0] && b != INFINITY[0] && b != NEG_INFINITY[0]
    ensures Lex([b] + t, false) == [Outside(b)] + Lex(t, false)
  {
  }

  /** The output lexes without literals, with the input's strings, and cleaning it again
      changes nothing. */
  lemma CleanedTextIsSettled(s: Bytes)
    ensures forall p | p in Lex(Cleaned(s, false), false) :: !p.Literal?
    ensures Strings(Lex(Cleaned(s, false), false)) == Strings(Lex(s, false))
    ensures Cleaned(Cleaned(s, false), false) == Cleaned(s, false)
  {
    OutputLexesToNulledPieces(s, false);
    NulledPieces(Lex(s, false));
  }

  lemma {:induction false} NulledPieces(ps: seq<Piece>)
    ensures forall p | p in Nulled(ps) :: !p.Literal?
    ensures Strings(Nulled(ps)) == Strings(ps)
    ensures Nulled(Nulled(ps)) == Nulled(ps)
  {
    if ps != [] {
      var tail := Nulled(ps[1..]);
      NulledPieces(ps[1..]);
      if ps[0].Literal? {
        NullPrefix(tail);
        assert Strings(ps) == Strings(ps[1..]);
      } else {
        assert Nulled(ps) == [ps[0]] + tail;
        assert Nulled(ps)[1..] == tail;
      }
    }
  }

  lemma NullPrefix(tail: seq<Piece>)
    ensures var quad := [Outside(NULL[0]), Outside(NULL[1]), Outside(NULL[2]), Outside(NULL[3])];
            Strings(quad + tail) == Strings(tail) && Nulled(quad + tail) == quad + Nulled(tail)
  {
    hide Strings, Nulled;
    var quad := [Outside(NULL[0]), Outside(NULL[1]), Outside(NULL[2]), Outside(NULL[3])];
    var t3 := [quad[3]] + tail;
    var t2 := [quad[2]] + t3;
    var t1 := [quad[1]] + t2;
    OutsidePrefix(quad[3], tail);
    OutsidePrefix(quad[2], t3);
    OutsidePrefix(quad[1], t2);
    OutsidePrefix(quad[0], t1);
    assert quad + tail == [quad[0]] + t1;
  }

  lemma OutsidePrefix(p: Piece, ps: seq<Piece>)
    requires p.Outside?
    ensures Strings([p] + ps) == Strings(ps)
    ensures Nulled([p] + ps) == [p] + Nulled(ps)
  {
  }

  // ---------------------------------------------------------------- seen byte by byte

  /** Where a byte of JSON text stands: outside strings, inside one, or just after the
      backslash of an escape (section 7 of RFC 8259). */
  datatype Where = Out | In | Escaped

  function Move(q: Where, b: Byte): Where {
    match q
    case Out => if b == QUOTE then In else Out
    case In => if b == BACKSLASH then Escaped else if b == QUOTE then Out else In
    case Escaped => In
  }

  function After(q: Where, s: Bytes): Where
    decreases |s|
  {
    if s == [] then q else After(Move(q, s[0]), s[1..])
  }

  /** The bytes of the strings, their quotes included. */
  function StringBytes(q: Where, s: Bytes): Bytes
    decreases |s|
  {
    if s == [] then []
    else (if q != Out || s[0] == QUOTE then [s[0]] else []) + StringBytes(Move(q, s[0]), s[1..])
  }

  lemma {:induction false} AfterAppend(q: Where, s: Bytes, t: Bytes)
    ensures After(q, s + t) == After(After(q, s), t)
    ensures StringBytes(q, s + t) == StringBytes(q, s) + StringBytes(After(q, s), t)
    decreases |s|
  {
    if s == [] {
      assert s + t == t;
    } else {
      hide Move;
      assert (s + t)[1..] == s[1..] + t && (s + t)[0] == s[0];
      AfterAppend(Move(q, s[0]), s[1..], t);
    }
  }

  lemma {:induction false} PlainRun(s: Bytes)
    requires forall i | 0 <= i < |s| :: s[i] != QUOTE
    ensures After(Out, s) == Out && StringBytes(Out, s) == []
    decreases |s|
  {
    if s != [] { PlainRun(s[1..]); }
  }

  function Start(inString: bool): Where {
    if inString then In else Out
  }

  /** A piece and what it becomes read alike: same place afterwards, same string bytes. */
  lemma {:induction false} PieceReads(s: Bytes, inString: bool)
    requires s != []
    ensures var p := NextPiece(s, inString); var q := Start(inString);
            && After(q, Emitted(p)) == After(q, PieceText(p))
            && StringBytes(q, Emitted(p)) == StringBytes(q, PieceText(p))
            && (|PieceText(p)| < |s| ==> After(q, PieceText(p)) == Start(StateAfter(p, inString)))
  {
    hide LiteralLength, StringBytes, StartsWith, After;
    var p := NextPiece(s, inString);
    if p.Literal? {
      LiteralAhead(s);
      LiteralsArePlain(s);
    } else {
      if |PieceText(p)| == 1 {
        OneByte(Start(inString), PieceText(p));
      } else {
        TwoBytes(Start(inString), PieceText(p));
      }
    }
  }

  lemma LiteralsArePlain(s: Bytes)
    requires LiteralLength(s) > 0
    ensures var w := s[..LiteralLength(s)];
            After(Out, w) == After(Out, NULL) == Out && StringBytes(Out, w) == StringBytes(Out, NULL) == []
  {
    hide After, StringBytes;
    PlainRun(s[..LiteralLength(s)]);
    PlainRun(NULL);
  }

  lemma OneByte(q: Where, s: Bytes)
    requires |s| == 1
    ensures After(q, s) == Move(q, s[0])
  {
  }

  lemma TwoBytes(q: Where, s: Bytes)
    requires |s| == 2
    ensures After(q, s) == Move(Move(q, s[0]), s[1])
  {
    OneByte(Move(q, s[0]), s[1..]);
  }

  /** Two texts whose fronts and tails read alike. */
  lemma {:induction false} ReadAlike(q: Where, a: Bytes, b: Bytes, x: Bytes, y: Bytes)
    requires After(q, a) == After(q, b) && StringBytes(q, a) == StringBytes(q, b)
    requires StringBytes(After(q, b), x) == StringBytes(After(q, b), y)
    ensures StringBytes(q, a + x) == StringBytes(q, b + y)
  {
    hide After, StringBytes;
    AfterAppend(q, a, x);
    AfterAppend(q, b, y);
  }

  /** What follows a piece reads alike as soon as it does from the state the lexer is in. */
  lemma {:induction false} TailReadsAlike(s: Bytes, inString: bool)
    requires s != []
    requires var p := NextPiece(s, inString); var next := StateAfter(p, inString); var n := |PieceText(p)|;
             StringBytes(Start(next), Cleaned(s[n..], next)) == StringBytes(Start(next), s[n..])
    ensures var p := NextPiece(s, inString); var next := StateAfter(p, inString); var n := |PieceText(p)|;
            var q := After(Start(inString), PieceText(p));
            StringBytes(q, Cleaned(s[n..], next)) == StringBytes(q, s[n..])
  {
    PieceReads(s, inString);
    hide Cleaned, After, NextPiece;
    var p := NextPiece(s, inString);
    var n, next := |PieceText(p)|, StateAfter(p, inString);
    if n == |s| {
      assert s[n..] == [];
      CleanedOfNothing(s[n..], next);
    }
  }

  /** Every string of the input is in the output, byte for byte and in order. */
  lemma {:induction false} StringsAreUntouched(s: Bytes, inString: bool)
    ensures StringBytes(Start(inString), Cleaned(s, inString)) == StringBytes(Start(inString), s)
    decreases |s|
  {
    if s == [] {
      CleanedOfNothing(s, inString);
    } else {
      hide Cleaned, StringBytes, After, NextPiece, PieceText, StateAfter, Emitted, Start;
      var p := NextPiece(s, inString);
      var n, next, q := |PieceText(p)|, StateAfter(p, inString), Start(inString);
      StringsAreUntouched(s[n..], next);
      TailReadsAlike(s, inString);
      PieceReads(s, inString);
      CleanedStep(s, inString);
      FrontAndRest(s, inString);
      ReadAlike(q, Emitted(p), PieceText(p), Cleaned(s[n..], next), s[n..]);
    }
  }

  lemma FrontIsNoWord(t: Bytes)
    requires t != [] && !NextPiece(t, false).Literal?
    ensures LiteralLength(t) == 0
  {
  }

  lemma MidPieceIsNotOutside(t: Bytes, inString: bool, i: nat)
    requires t != [] && !NextPiece(t, inString).Literal? && 0 < i < |PieceText(NextPiece(t, inString))|
    ensures After(Start(inString), t[..i]) == Escaped
  {
  }

  lemma LexSteps(t: Bytes, inString: bool)
    requires t != [] && forall p | p in Lex(t, inString) :: !p.Literal?
    ensures var p := NextPiece(t, inString);
            !p.Literal? && forall x | x in Lex(t[|PieceText(p)|..], StateAfter(p, inString)) :: !x.Literal?
  {
  }

  /** A place past the front piece is reached through that piece. */
  lemma PlacePastPiece(t: Bytes, inString: bool, i: nat)
    requires t != [] && |PieceText(NextPiece(t, inString))| <= i < |t|
    ensures var p := NextPiece(t, inString); var n := |PieceText(p)|;
            && After(Start(inString), t[..i]) == After(Start(StateAfter(p, inString)), t[n..][..i - n])
            && t[n..][i - n..] == t[i..]
  {
    PieceReads(t, inString);
    hide NextPiece, After, StringBytes;
    var p := NextPiece(t, inString);
    var n := |PieceText(p)|;
    var mid := t[n..][..i - n];
    FrontAndRest(t, inString);
    assert t[..i] == PieceText(p) + mid by { hide *; }
    AfterAppend(Start(inString), PieceText(p), mid);
  }

  lemma {:induction false} NoLiteralPieceNoWord(t: Bytes, inString: bool, i: nat)
    requires i < |t| && (forall p | p in Lex(t, inString) :: !p.Literal?)
    ensures After(Start(inString), t[..i]) == Out ==> LiteralLength(t[i..]) == 0
    decreases |t|
  {
    hide NextPiece, LiteralLength, Lex, PieceText, StateAfter;
    var p := NextPiece(t, inString);
    var n, next := |PieceText(p)|, StateAfter(p, inString);
    LexSteps(t, inString);
    if i == 0 {
      assert t[i..] == t && t[..i] == [];
      if !inString { FrontIsNoWord(t); }
    } else if i < n {
      MidPieceIsNotOutside(t, inString, i);
    } else {
      PlacePastPiece(t, inString, i);
      NoLiteralPieceNoWord(t[n..], next, i - n);
    }
  }

  /** At no place outside the strings of the output does NaN, Infinity or -Infinity start,
      even where nulling brought other text together. */
  lemma NoWordIsLeftOutside(s: Bytes, i: nat)
    requires i < |Cleaned(s, false)| && After(Out, Cleaned(s, false)[..i]) == Out
    ensures var rest := Cleaned(s, false)[i..];
            !StartsWith(rest, NAN) && !StartsWith(rest, INFINITY) && !StartsWith(rest, NEG_INFINITY)
  {
    CleanedTextIsSettled(s);
    NoLiteralPieceNoWord(Cleaned(s, false), false, i);
  }

  // ---------------------------------------------------------------- what each byte becomes

  /** NaN, Infinity and -Infinity, in bytes. */
  ghost predicate IsWord(w: Bytes) {
    || w == [0x4E, 0x61, 0x4E]
    || w == [0x49, 0x6E, 0x66, 0x69, 0x6E, 0x69, 0x74, 0x79]
    || w == [0x2D, 0x49, 0x6E, 0x66, 0x69, 0x6E, 0x69, 0x74, 0x79]
  }

  /** One of the bytes of those words. */
  predicate InSomeWord(b: Byte) {
    b in [0x4E, 0x61, 0x49, 0x6E, 0x66, 0x69, 0x74, 0x79, 0x2D]
  }

  /** The text ends outside strings, at a place no word can straddle. */
  ghost predicate EndsClear(q: Where, pre: Bytes) {
    After(q, pre) == Out && (pre != [] ==> !InSomeWord(pre[|pre| - 1]))
  }

  /** A word at the front of a text whose first part ends clear is in that part. */
  lemma NoWordStraddles(pre: Bytes, t: Bytes, w: Bytes)
    requires pre != [] && !InSomeWord(pre[|pre| - 1]) && forall i | 0 <= i < |w| :: InSomeWord(w[i])
    ensures StartsWith(pre + t, w) <==> StartsWith(pre, w)
  {
    if |w| > |pre| && |w| <= |pre + t| {
      assert (pre + t)[..|w|][|pre| - 1] == pre[|pre| - 1];
    } else if |w| <= |pre| {
      assert (pre + t)[..|w|] == pre[..|w|];
    }
  }

  lemma SameLiteralAhead(pre: Bytes, t: Bytes)
    requires pre != [] && !InSomeWord(pre[|pre| - 1])
    ensures LiteralLength(pre + t) == LiteralLength(pre)
  {
    NoWordStraddles(pre, t, NAN);
    NoWordStraddles(pre, t, INFINITY);
    NoWordStraddles(pre, t, NEG_INFINITY);
  }

  lemma SamePieceAhead(pre: Bytes, t: Bytes, inString: bool)
    requires pre != [] && EndsClear(Start(inString), pre)
    ensures NextPiece(pre + t, inString) == NextPiece(pre, inString)
  {
    var n := LiteralLength(pre);
    SameLiteralAhead(pre, t);
    assert (pre + t)[0] == pre[0] && (pre + t)[..n] == pre[..n] && (pre + t)[..1] == pre[..1];
    if |pre| == 1 {
      OneByte(Start(inString), pre);
    } else {
      assert (pre + t)[..2] == pre[..2];
    }
    hide LiteralLength, StartsWith;
  }

  lemma TailEndsClear(q: Where, pre: Bytes, n: nat, next: Where)
    requires n <= |pre| && EndsClear(q, pre)
    ensures After(q, pre) == Out
    ensures After(next, pre[n..]) == Out ==> EndsClear(next, pre[n..])
  {
    hide After, InSomeWord;
  }

  /** What is left of a text after its first piece still ends clear. */
  lemma RestEndsClear(pre: Bytes, inString: bool)
    requires pre != [] && EndsClear(Start(inString), pre)
    ensures var p := NextPiece(pre, inString); var n := |PieceText(p)|;
            EndsClear(Start(StateAfter(p, inString)), pre[n..])
  {
    hide *;
    var p := NextPiece(pre, inString);
    var n := |PieceText(p)|;
    TailEndsClear(Start(inString), pre, n, Start(StateAfter(p, inString)));
    PieceReads(pre, inString);
    FrontAndRest(pre, inString);
    AfterAppend(Start(inString), PieceText(p), pre[n..]);
    if n == |pre| {
      WholePieceEnds(pre, inString);
      assert pre[n..] == [];
    }
  }

  lemma WholePieceEnds(pre: Bytes, inString: bool)
    requires pre != [] && After(Start(inString), pre) == Out && |PieceText(NextPiece(pre, inString))| == |pre|
    ensures After(Start(StateAfter(NextPiece(pre, inString), inString)), []) == Out
  {
    var p := NextPiece(pre, inString);
    if p.Literal? {
      assert !inString;
    } else if |pre| == 1 {
      OneByte(Start(inString), pre);
    } else {
      TwoBytes(Start(inString), pre);
    }
  }

  /** Cleaning a text in two parts that meet clear of words and strings is cleaning the
      parts. */
  lemma {:induction false} CleanedInParts(pre: Bytes, t: Bytes, inString: bool)
    requires EndsClear(Start(inString), pre)
    ensures Cleaned(pre + t, inString) == Cleaned(pre, inString) + Cleaned(t, false)
    decreases |pre|
  {
    if pre == [] {
      assert pre + t == t;
      CleanedOfNothing(pre, inString);
      assert [] + Cleaned(t, false) == Cleaned(t, false);
    } else {
      hide *;
      var p := NextPiece(pre, inString);
      var n, next := |PieceText(p)|, StateAfter(p, inString);
      SamePieceAhead(pre, t, inString);
      RestEndsClear(pre, inString);
      CleanedInParts(pre[n..], t, next);
      CleanedStep(pre, inString);
      CleanedStep(pre + t, inString);
      DropAppend(pre, t, n);
      Regroup(Emitted(p), Cleaned(pre[n..], next), Cleaned(t, false));
    }
  }

  lemma DropAppend(pre: Bytes, t: Bytes, n: nat)
    requires n <= |pre|
    ensures (pre + t)[n..] == pre[n..] + t
  {
  }

  lemma Regroup(a: Bytes, b: Bytes, c: Bytes)
    ensures a + (b + c) == (a + b) + c
  {
  }

  lemma WordAhead(w: Bytes, rest: Bytes)
    requires IsWord(w)
    ensures LiteralLength(w + rest) == |w| && (w + rest)[0] != QUOTE && (w + rest)[..|w|] == w
  {
    var s := w + rest;
    assert s[..|w|] == w;
    assert s[..3][0] == s[0] && s[..3][1] == s[1];
    if |w| == 9 { assert s[..9] == NEG_INFINITY; }
    if |w| == 8 {
      assert s[..8] == INFINITY;
      if |s| >= 9 { assert s[..9][0] == s[0]; }
    }
  }

  lemma WordCleans(w: Bytes, rest: Bytes)
    requires IsWord(w)
    ensures Cleaned(w + rest, false) == [0x6E, 0x75, 0x6C, 0x6C] + Cleaned(rest, false)
  {
    WordAhead(w, rest);
    hide Cleaned, LiteralLength;
    CleanedStep(w + rest, false);
    assert (w + rest)[|w|..] == rest;
  }

  /** What a word outside strings turns into: wherever the text before it ends clear, the
      word alone becomes the four bytes of null, and its two sides are cleaned apart. */
  lemma WordsBecomeNull(pre: Bytes, w: Bytes, rest: Bytes)
    requires IsWord(w) && EndsClear(Out, pre)
    ensures Cleaned(pre + w + rest, false) == Cleaned(pre, false) + [0x6E, 0x75, 0x6C, 0x6C] + Cleaned(rest, false)
  {
    hide Cleaned, IsWord, EndsClear;
    assert pre + w + rest == pre + (w + rest);
    CleanedInParts(pre, w + rest, false);
    WordCleans(w, rest);
    Regroup(Cleaned(pre, false), [0x6E, 0x75, 0x6C, 0x6C], Cleaned(rest, false));
  }

  /** No word starts outside strings anywhere in the text. */
  ghost predicate HoldsNoWord(q: Where, s: Bytes) {
    forall i, w | 0 <= i < |s| && IsWord(w) && After(q, s[..i]) == Out :: !StartsWith(s[i..], w)
  }

  lemma NoWordNoLiteral(s: Bytes, q: Where)
    requires HoldsNoWord(q, s) && q == Out && s != []
    ensures LiteralLength(s) == 0
  {
    assert s[..0] == [] && s[0..] == s && After(q, s[..0]) == Out;
    assert IsWord(NAN) && IsWord(INFINITY) && IsWord(NEG_INFINITY);
    hide IsWord, StartsWith, After;
    assert !StartsWith(s[0..], NAN) && !StartsWith(s[0..], INFINITY) && !StartsWith(s[0..], NEG_INFINITY);
  }

  lemma TailHoldsNoWord(s: Bytes, inString: bool)
    requires s != [] && HoldsNoWord(Start(inString), s)
    ensures var p := NextPiece(s, inString); var n := |PieceText(p)|;
            HoldsNoWord(Start(StateAfter(p, inString)), s[n..])
  {
    hide NextPiece, PieceText, StateAfter, IsWord, After, StartsWith;
    var p := NextPiece(s, inString);
    var n, next := |PieceText(p)|, StateAfter(p, inString);
    forall i, w | 0 <= i < |s[n..]| && IsWord(w) && After(Start(next), s[n..][..i]) == Out
      ensures !StartsWith(s[n..][i..], w)
    {
      PlacePastPiece(s, inString, n + i);
    }
  }

  lemma KeptPiece(s: Bytes, inString: bool)
    requires s != [] && (!inString ==> LiteralLength(s) == 0)
    ensures Emitted(NextPiece(s, inString)) == PieceText(NextPiece(s, inString))
  {
  }

  /** And nothing else changes: a text that holds none of the words outside strings is its
      own cleaning, whatever its strings hold. */
  lemma {:induction false} TextWithoutWordsIsKept(s: Bytes, inString: bool)
    requires HoldsNoWord(Start(inString), s)
    ensures Cleaned(s, inString) == s
    decreases |s|
  {
    if s == [] {
      CleanedOfNothing(s, inString);
    } else {
      var p := NextPiece(s, inString);
      var n, next := |PieceText(p)|, StateAfter(p, inString);
      if !inString { NoWordNoLiteral(s, Out); }
      KeptPiece(s, inString);
      hide Cleaned, NextPiece, HoldsNoWord, PieceText, StateAfter, Emitted, LiteralLength;
      TailHoldsNoWord(s, inString);
      CleanedStep(s, inString);
      FrontAndRest(s, inString);
      TextWithoutWordsIsKept(s[n..], next);
    }
  }

  lemma WordlessTextIsKept(input: Bytes)
    ensures HoldsNoWord(Out, input) ==> Cleaned(input, false) == input
  {
    if HoldsNoWord(Out, input) { TextWithoutWordsIsKept(input, false); }
  }

  /** The scanner's promise for one text: every word outside strings, found where nothing
      can straddle it, is null in the output, between the outputs of its two sides. */
  ghost predicate NullsWords(input: Bytes, text: Bytes) {
    forall i, j | 0 <= i <= j <= |input| :: IsWord(input[i..j]) && EndsClear(Out, input[..i]) ==>
      text == Cleaned(input[..i], false) + [0x6E, 0x75, 0x6C, 0x6C] + Cleaned(input[j..], false)
  }

  lemma CleanedNullsWords(input: Bytes)
    ensures NullsWords(input, Cleaned(input, false))
  {
    hide Cleaned, IsWord, EndsClear;
    forall i, j | 0 <= i <= j <= |input| && IsWord(input[i..j]) && EndsClear(Out, input[..i])
      ensures Cleaned(input, false) ==
          Cleaned(input[..i], false) + [0x6E, 0x75, 0x6C, 0x6C] + Cleaned(input[j..], false)
    {
      WordsBecomeNull(input[..i], input[i..j], input[j..]);
      assert input[..i] + input[i..j] + input[j..] == input;
    }
  }

  // ---------------------------------------------------------------- UTF-8

  /** Both texts drive the UTF-8 recogniser through the same states, so the fallback to
      the raw input is never taken. */
  lemma CleanedIsWellFormed(s: Bytes)
    ensures WellFormed(Cleaned(s, false)) == WellFormed(s)
  {
    CleanedRun(s, false, Boundary);
    RecogniserIsExact(s);
    RecogniserIsExact(Cleaned(s, false));
  }

  lemma {:induction false} CleanedRun(s: Bytes, inString: bool, q: Utf8State)
    ensures Run(q, Cleaned(s, inString)) == Run(q, s)
    decreases |s|
  {
    if s == [] {
      CleanedOfNothing(s, inString);
    } else {
      hide Cleaned, NextPiece, Run, WellFormed, PieceText, StateAfter, Emitted;
      var p := NextPiece(s, inString);
      var rest, next := s[|PieceText(p)|..], StateAfter(p, inString);
      EmittedRun(s, inString, q);
      CleanedRun(rest, next, Run(q, PieceText(p)));
      RunAppend(q, Emitted(p), Cleaned(rest, next));
      RunAppend(q, PieceText(p), rest);
      FrontAndRest(s, inString);
      CleanedStep(s, inString);
    }
  }

  lemma {:induction false} EmittedRun(s: Bytes, inString: bool, q: Utf8State)
    requires s != []
    ensures var p := NextPiece(s, inString); Run(q, Emitted(p)) == Run(q, PieceText(p))
  {
    if NextPiece(s, inString).Literal? {
      LiteralIsAscii(s);
      AsciiRun(q, s[..LiteralLength(s)]);
      AsciiRun(q, NULL);
    }
  }

  lemma LiteralIsAscii(s: Bytes)
    requires LiteralLength(s) > 0
    ensures forall i | 0 <= i < LiteralLength(s) :: s[..LiteralLength(s)][i] < 0x80
  {
  }

  lemma ContainedInTail(s: Bytes, n: nat, w: Bytes)
    requires n <= |s|
    ensures Contains(s[n..], w) ==> Contains(s, w)
  {
  }

  lemma WordsAreContained(s: Bytes)
    ensures LiteralLength(s) > 0 ==> Contains(s, NAN) || Contains(s, INFINITY)
  {
    assert s[0..] == s;
    if StartsWith(s, NEG_INFINITY) { PrefixTail(s, NEG_INFINITY); }
    assert NEG_INFINITY[1..] == INFINITY;
  }

  lemma NeitherWordInTail(s: Bytes, inString: bool)
    requires s != [] && !Contains(s, NAN) && !Contains(s, INFINITY)
    ensures var p := NextPiece(s, inString); var n := |PieceText(p)|;
            Emitted(p) == s[..n] && !Contains(s[n..], NAN) && !Contains(s[n..], INFINITY)
  {
    WordsAreContained(s);
    hide StartsWith, LiteralLength, Contains;
    var n := |PieceText(NextPiece(s, inString))|;
    ContainedInTail(s, n, NAN);
    ContainedInTail(s, n, INFINITY);
  }

  /** The early return: a text that holds neither word anywhere is its own cleaning, so
      skipping the scan and running it agree. */
  lemma {:induction false} NothingToReplace(s: Bytes, inString: bool)
    requires !Contains(s, NAN) && !Contains(s, INFINITY)
    ensures Cleaned(s, inString) == s
    decreases |s|
  {
    if s == [] {
      CleanedOfNothing(s, inString);
    } else {
      hide Cleaned, Contains, NextPiece, PieceText, Emitted;
      CleanedStep(s, inString);
      NeitherWordInTail(s, inString);
      var p := NextPiece(s, inString);
      var n := |PieceText(p)|;
      NothingToReplace(s[n..], StateAfter(p, inString));
      FrontAndRest(s, inString);
    }
  }
}
