/** The two result types every module shares, and the order on text. */
module Prelude {
  datatype Option<+T> = None | Some(value: T)
  datatype Result<+T, +E> = Ok(value: T) | Err(error: E)
}

/** Text as the database and Rust compare it: lexicographically, a strict total order. */
module TextOrder {
  predicate Less(a: string, b: string)
    decreases |a|
  {
    b != [] && (a == [] || a[0] < b[0] || (a[0] == b[0] && Less(a[1..], b[1..])))
  }

  lemma {:induction false} LessIsTransitive(a: string, b: string, c: string)
    requires Less(a, b) && Less(b, c)
    ensures Less(a, c)
    decreases |a|
  {
    if a != [] && a[0] == b[0] == c[0] { LessIsTransitive(a[1..], b[1..], c[1..]); }
  }

  lemma {:induction false} LessAfterPrefix(p: string, a: string, b: string)
    ensures Less(p + a, p + b) <==> Less(a, b)
    decreases |p|
  {
    if p == [] {
      assert p + a == a && p + b == b;
    } else {
      assert (p + a)[1..] == p[1..] + a && (p + b)[1..] == p[1..] + b;
      LessAfterPrefix(p[1..], a, b);
    }
  }

  predicate DiffersFirstAt(a: string, b: string, i: nat) {
    i < |a| && i < |b| && a[..i] == b[..i] && a[i] < b[i]
  }

  lemma TailDiffersFirst(a: string, b: string, i: nat)
    requires a != [] && b != [] && a[0] == b[0]
    ensures DiffersFirstAt(a, b, i + 1) <==> DiffersFirstAt(a[1..], b[1..], i)
    ensures !DiffersFirstAt(a, b, 0)
  {
    if i + 1 <= |a| && i + 1 <= |b| {
      assert a[..i + 1] == [a[0]] + a[1..][..i] && b[..i + 1] == [b[0]] + b[1..][..i];
      assert a[..i + 1][1..] == a[1..][..i] && b[..i + 1][1..] == b[1..][..i];
    }
  }

  lemma HeadDiffersFirst(a: string, b: string, i: nat)
    requires a != [] && b != [] && a[0] != b[0]
    ensures DiffersFirstAt(a, b, i) <==> i == 0 && a[0] < b[0]
    ensures i > 0 && i <= |a| && i <= |b| ==> a[..i] != b[..i]
  {
    if 0 < i <= |a| && i <= |b| { assert a[..i][0] == a[0] && b[..i][0] == b[0]; }
  }

  /** The order, without its recursion: a proper prefix comes first, else the first character
      that differs decides. */
  lemma {:induction false} LessIsLexicographic(a: string, b: string)
    ensures Less(a, b) <==> (|a| < |b| && b[..|a|] == a) || exists i: nat :: DiffersFirstAt(a, b, i)
    decreases |a|
  {
    if a != [] && b != [] && a[0] == b[0] {
      LessIsLexicographic(a[1..], b[1..]);
      assert a == [a[0]] + a[1..];
      if |a| < |b| { assert b[..|a|] == [b[0]] + b[1..][..|a| - 1] && b[..|a|][1..] == b[1..][..|a| - 1]; }
      if i: nat :| DiffersFirstAt(a[1..], b[1..], i) { TailDiffersFirst(a, b, i); }
      if i: nat :| DiffersFirstAt(a, b, i) {
        TailDiffersFirst(a, b, 0);
        TailDiffersFirst(a, b, i - 1);
      }
    } else if a != [] && b != [] {
      HeadDiffersFirst(a, b, 0);
      HeadDiffersFirst(a, b, |a|);
      if i: nat :| DiffersFirstAt(a, b, i) { HeadDiffersFirst(a, b, i); }
      assert a[..|a|] == a;
    }
  }

  /** Exactly one of `a < b`, `a == b`, `b < a`. */
  lemma {:induction false} LessIsTotal(a: string, b: string)
    ensures Less(a, b) || a == b || Less(b, a)
    ensures !(Less(a, b) && (a == b || Less(b, a)))
    decreases |a|
  {
    if a != [] && b != [] && a[0] == b[0] {
      LessIsTotal(a[1..], b[1..]);
      if a[1..] == b[1..] { assert a == [a[0]] + a[1..] == b; }
    }
    if a != [] && b != [] && a == b { LessIsTotal(a[1..], b[1..]); }
  }
}

/** Choosing from finite collections. */
module Collections {
  ghost function Pick<T>(s: set<T>): (x: T)
    requires s != {}
    ensures x in s
  {
    var x :| x in s;
    x
  }

  /** A value of which `a` holds more copies than `b`. */
  ghost function Excess<T(!new)>(a: multiset<T>, b: multiset<T>): (x: T)
    requires !(a <= b)
    ensures a[x] > b[x]
  {
    var x :| x in a && a[x] > b[x];
    x
  }

  lemma ProperlyInside<T>(a: multiset<T>, b: multiset<T>)
    requires a <= b && a != b
    ensures |a| < |b|
  {
    assert b == a + (b - a);
    assert |b - a| == 0 ==> b - a == multiset{};
  }
}
