/** Types and sequence facts shared by every module of the model. */
module Prelude {

  type byte = b: int | 0 <= b < 256

  datatype Option<+T> = None | Some(value: T)

  function Min(a: int, b: int): (m: int)
    ensures m <= a && m <= b && (m == a || m == b)
  {
    if a <= b then a else b
  }

  function Max(a: int, b: int): (m: int)
    ensures m >= a && m >= b && (m == a || m == b)
  {
    if a >= b then a else b
  }

  function Take<T>(s: seq<T>, n: nat): (t: seq<T>)
    ensures t <= s && |t| <= n
  {
    if |s| <= n then s else s[..n]
  }

  // ---- Lines ----

  const NEWLINE: byte := 10

  /** How long the first line is, without the character that ends it. */
  function LineLength<T(==)>(s: seq<T>, end: T): (n: nat)
    ensures n <= |s|
  {
    if s == [] || s[0] == end then 0 else 1 + LineLength(s[1..], end)
  }

  /** The line goes up to the first end. */
  lemma {:induction false} LineLengthIs<T>(s: seq<T>, end: T, n: nat)
    ensures LineLength(s, end) == n <==> n <= |s| && end !in s[..n] && (n < |s| ==> s[n] == end)
    decreases |s|
  {
    if s != [] && s[0] != end && n > 0 {
      LineLengthIs(s[1..], end, n - 1);
      if n <= |s| { assert s[..n] == [s[0]] + s[1..][..n - 1]; }
    } else if n > 0 && s != [] && n <= |s| {
      assert s[..n][0] == end;
    }
  }

  // ---- Pieces ----

  /** The concatenation of a sequence of pieces. */
  function Flatten<T>(pieces: seq<seq<T>>): seq<T> {
    if pieces == [] then [] else pieces[0] + Flatten(pieces[1..])
  }

  lemma {:induction false} FlattenConcat<T>(a: seq<seq<T>>, b: seq<seq<T>>)
    ensures Flatten(a + b) == Flatten(a) + Flatten(b)
  {
    if a == [] {
      assert a + b == b;
    } else {
      FlattenConcat(a[1..], b);
      assert (a + b)[0] == a[0] && (a + b)[1..] == a[1..] + b;
      Associative(a[0], Flatten(a[1..]), Flatten(b));
    }
  }

  lemma Associative<T>(a: seq<T>, b: seq<T>, c: seq<T>)
    ensures (a + b) + c == a + (b + c)
  {
  }

  lemma FlattenOne<T>(a: seq<T>)
    ensures Flatten([a]) == a
  {
    assert Flatten([a]) == a + Flatten<T>([]);
  }

  lemma FlattenTwo<T>(a: seq<T>, b: seq<T>)
    ensures Flatten([a, b]) == a + b
  {
    FlattenOne(b);
    assert [a, b][1..] == [b];
  }

  lemma FlattenSnoc<T>(a: seq<seq<T>>, last: seq<T>)
    ensures Flatten(a + [last]) == Flatten(a) + last
  {
    FlattenConcat(a, [last]);
    assert Flatten([last]) == last + Flatten<T>([]);
  }

  lemma SubsetCount<T>(a: set<T>, b: set<T>)
    requires a <= b
    ensures |a| <= |b|
  {
    assert b == a + (b - a);
  }

  // ---- Powers of two ----

  function TwoTo(k: nat): nat { if k == 0 then 1 else 2 * TwoTo(k - 1) }

  lemma {:induction false} TwoToAdds(a: nat, b: nat)
    ensures TwoTo(a + b) == TwoTo(a) * TwoTo(b)
    decreases a
  {
    if a > 0 {
      TwoToAdds(a - 1, b);
      Doubled(TwoTo(a - 1), TwoTo(b));
    }
  }

  lemma Doubled(x: nat, y: nat)
    ensures 2 * (x * y) == (2 * x) * y && 2 * (x * y) == x * (2 * y)
  {
  }
}
