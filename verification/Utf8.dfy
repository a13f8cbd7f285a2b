/**
 * UTF-8 as RFC 3629 (section 4) defines it, with ill-formed input cut into maximal ill-formed
 * prefixes: what the standard library hands to the terminal-to-text converter (transcript.rs).
 */
module Utf8 {
  import opened Prelude

  type Scalar = cp: int | 0 <= cp < 0xD800 || 0xE000 <= cp < 0x11_0000

  const REPLACEMENT: Scalar := 0xFFFD

  /** What the first bytes of a non-empty input are. */
  datatype Step = Whole(c: Scalar, length: nat) | Ill(length: nat) | Incomplete

  predicate Continues(b: byte) { 0x80 <= b < 0xC0 }

  function Width(lead: byte): nat {
    if lead < 0x80 then 1
    else if 0xC2 <= lead < 0xE0 then 2
    else if 0xE0 <= lead < 0xF0 then 3
    else if 0xF0 <= lead < 0xF5 then 4
    else 0
  }

  /** The second byte is what excludes overlong forms, surrogates and values past U+10FFFF. */
  predicate SecondFits(lead: byte, second: byte) {
    if lead == 0xE0 then 0xA0 <= second < 0xC0
    else if lead == 0xED then 0x80 <= second < 0xA0
    else if lead == 0xF0 then 0x90 <= second < 0xC0
    else if lead == 0xF4 then 0x80 <= second < 0x90
    else Continues(second)
  }

  function Join2(a: int, b: int): int { (a - 0xC0) * 64 + (b - 0x80) }

  function Join3(a: int, b: int, c: int): int { (a - 0xE0) * 4096 + (b - 0x80) * 64 + (c - 0x80) }

  function Join4(a: int, b: int, c: int, d: int): int {
    (a - 0xF0) * 262144 + (b - 0x80) * 4096 + (c - 0x80) * 64 + (d - 0x80)
  }

  function First(s: seq<byte>): (step: Step)
    requires s != []
    ensures step.Whole? ==> 1 <= step.length <= |s|
    ensures step.Ill? ==> 1 <= step.length <= 3 && step.length <= |s|
    ensures step.Incomplete? ==> |s| <= 3
  {
    var w := Width(s[0]);
    if w == 0 then Ill(1)
    else if w == 1 then Whole(s[0], 1)
    else if |s| < 2 then Incomplete
    else if !SecondFits(s[0], s[1]) then Ill(1)
    else if w == 2 then Whole(Join2(s[0], s[1]), 2)
    else if |s| < 3 then Incomplete
    else if !Continues(s[2]) then Ill(2)
    else if w == 3 then Whole(Join3(s[0], s[1], s[2]), 3)
    else if |s| < 4 then Incomplete
    else if !Continues(s[3]) then Ill(3)
    else Whole(Join4(s[0], s[1], s[2], s[3]), 4)
  }

  // ---- Encoding, the inverse ----

  function Encode(c: Scalar): (bytes: seq<byte>)
    ensures 1 <= |bytes| <= 4
  {
    if c < 0x80 then [c]
    else if c < 0x800 then [0xC0 + c / 64, 0x80 + c % 64]
    else if c < 0x1_0000 then [0xE0 + c / 4096, 0x80 + c / 64 % 64, 0x80 + c % 64]
    else [0xF0 + c / 262144, 0x80 + c / 4096 % 64, 0x80 + c / 64 % 64, 0x80 + c % 64]
  }

  function EncodeAll(text: seq<Scalar>): seq<byte> {
    if text == [] then [] else Encode(text[0]) + EncodeAll(text[1..])
  }

  lemma SixBitDigits(x: int)
    requires x >= 0
    ensures x == x / 64 * 64 + x % 64
    ensures x == x / 4096 * 4096 + x / 64 % 64 * 64 + x % 64
    ensures x == x / 262144 * 262144 + x / 4096 % 64 * 4096 + x / 64 % 64 * 64 + x % 64
  {
    var y := x / 64;
    var z := y / 64;
    assert z == x / 4096 && y == z * 64 + y % 64;
    assert z / 64 == x / 262144 && z == z / 64 * 64 + z % 64;
  }

  lemma DigitsOfJoin(a: int, b: int, c: int, d: int)
    requires 0 <= a && 0 <= b < 64 && 0 <= c < 64 && 0 <= d < 64
    ensures var x := a * 262144 + b * 4096 + c * 64 + d;
            x / 262144 == a && x / 4096 % 64 == b && x / 64 % 64 == c && x % 64 == d
  {
    var x := a * 262144 + b * 4096 + c * 64 + d;
    assert x / 64 == a * 4096 + b * 64 + c;
    assert x / 4096 == a * 64 + b;
  }

  lemma FirstOfEncoded(c: Scalar, rest: seq<byte>)
    ensures First(Encode(c) + rest) == Whole(c, |Encode(c)|)
  {
    var e := Encode(c);
    SixBitDigits(c);
    FirstDependsOnHead(e, rest);
    FirstOfShortEncoded(c);
  }

  lemma FirstDependsOnHead(a: seq<byte>, b: seq<byte>)
    requires a != []
    ensures !First(a).Incomplete? ==> First(a + b) == First(a)
  {
    hide SecondFits, Join2, Join3, Join4, Continues;
    var s := a + b;
    assert s[0] == a[0];
    if |a| > 1 { assert s[1] == a[1]; }
    if |a| > 2 { assert s[2] == a[2]; }
    if |a| > 3 { assert s[3] == a[3]; }
  }

  lemma FirstOfShortEncoded(c: Scalar)
    ensures First(Encode(c)) == Whole(c, |Encode(c)|)
  {
    SixBitDigits(c);
  }

  lemma WholeIsEncoded(s: seq<byte>)
    requires s != [] && First(s).Whole?
    ensures s[..First(s).length] == Encode(First(s).c)
  {
    var w := Width(s[0]);
    if w == 2 {
      DigitsOfJoin(0, 0, s[0] - 0xC0, s[1] - 0x80);
    } else if w == 3 {
      DigitsOfJoin(0, s[0] - 0xE0, s[1] - 0x80, s[2] - 0x80);
    } else if w == 4 {
      DigitsOfJoin(s[0] - 0xF0, s[1] - 0x80, s[2] - 0x80, s[3] - 0x80);
    }
  }

  /** Input is incomplete exactly when it is the beginning of some longer encoding. */
  lemma IncompleteIsProperPrefix(s: seq<byte>)
    requires s != []
    ensures First(s).Incomplete? <==> exists c: Scalar :: s < Encode(c)
  {
    if First(s).Incomplete? {
      var second := if |s| >= 2 then s[1] else if s[0] == 0xE0 then 0xA0 else if s[0] == 0xF0 then 0x90 else 0x80;
      var third := if |s| >= 3 then s[2] else 0x80;
      var all := [s[0], second, third, 0x80];
      assert First(all).Whole? && First(all).length > |s|;
      WholeIsEncoded(all);
      assert s == all[..|s|] == Encode(First(all).c)[..|s|];
    }
    forall c: Scalar | s < Encode(c) ensures First(s).Incomplete? {
      PrefixDecides(s, c);
    }
  }

  lemma PrefixDecides(s: seq<byte>, c: Scalar)
    requires s != [] && s <= Encode(c)
    ensures First(s) == if |s| < |Encode(c)| then Incomplete else Whole(c, |s|)
  {
    hide Encode;
    FirstOfEncoded(c, []);
    assert Encode(c) + [] == Encode(c);
    assert Encode(c)[0] == s[0];
    WidthOfEncoded(c);
    hide SecondFits, Join2, Join3, Join4, Continues, Width;
    assert Encode(c) == s + Encode(c)[|s|..];
    FirstDependsOnHead(s, Encode(c)[|s|..]);
  }

  lemma WidthOfEncoded(c: Scalar)
    ensures Width(Encode(c)[0]) == |Encode(c)|
  {
  }

  /** An ill-formed prefix is maximal: one byte more and no encoding begins that way. */
  lemma IllIsMaximal(s: seq<byte>)
    requires s != [] && First(s).Ill?
    ensures var n := First(s).length;
            && (forall c: Scalar :: !(s[..Min(n + 1, |s|)] <= Encode(c)))
            && (n == 1 || exists c: Scalar :: s[..n] < Encode(c))
  {
    var n := First(s).length;
    var head := s[..Min(n + 1, |s|)];
    assert First(head) == First(s);
    forall c: Scalar ensures !(head <= Encode(c)) {
      if head <= Encode(c) { PrefixDecides(head, c); }
    }
    if n > 1 {
      assert First(s[..n]).Incomplete?;
      IncompleteIsProperPrefix(s[..n]);
    }
  }

  // ---- Lossy decoding with carry-over ----

  datatype Decoded = Decoded(text: seq<Scalar>, carry: seq<byte>)

  function Decode(s: seq<byte>): (d: Decoded)
    ensures |d.carry| <= 3
    decreases |s|
  {
    if s == [] then Decoded([], [])
    else match First(s)
      case Whole(c, n) => var d := Decode(s[n..]); Decoded([c] + d.text, d.carry)
      case Ill(n) => var d := Decode(s[n..]); Decoded([REPLACEMENT] + d.text, d.carry)
      case Incomplete => Decoded([], s)
  }

  lemma {:induction false} DecodeConcat(a: seq<byte>, b: seq<byte>)
    ensures Decode(a + b).text == Decode(a).text + Decode(Decode(a).carry + b).text
    ensures Decode(a + b).carry == Decode(Decode(a).carry + b).carry
    decreases |a|
  {
    hide *;
    NothingToDecode(a);
    if a == [] {
      assert a + b == b;
      assert [] + b == b && [] + Decode(b).text == Decode(b).text;
    } else if First(a).Incomplete? {
      assert [] + Decode(a + b).text == Decode(a + b).text;
    } else {
      var n := First(a).length;
      FirstDependsOnHead(a, b);
      assert (a + b)[n..] == a[n..] + b;
      DecodeStep(a);
      DecodeStep(a + b);
      DecodeConcat(a[n..], b);
      Associative([Token(First(a))], Decode(a[n..]).text, Decode(Decode(a[n..]).carry + b).text);
    }
  }

  function Token(step: Step): Scalar {
    if step.Whole? then step.c else REPLACEMENT
  }

  lemma DecodeStep(s: seq<byte>)
    requires s != [] && !First(s).Incomplete?
    ensures var d := Decode(s[First(s).length..]);
            Decode(s) == Decoded([Token(First(s))] + d.text, d.carry)
  {
    hide First;
  }

  lemma NothingToDecode(s: seq<byte>)
    ensures s == [] || First(s).Incomplete? ==> Decode(s) == Decoded([], s)
  {
    hide First;
  }

  lemma {:induction false} DecodeEncoded(text: seq<Scalar>)
    ensures Decode(EncodeAll(text)) == Decoded(text, [])
  {
    hide First, Encode;
    if text != [] {
      var rest := EncodeAll(text[1..]);
      FirstOfEncoded(text[0], rest);
      assert (Encode(text[0]) + rest)[|Encode(text[0])|..] == rest;
      DecodeEncoded(text[1..]);
      assert [text[0]] + text[1..] == text;
    }
  }

  // ---- The library's validator ----

  datatype Check = AllValid | Broken(validUpTo: nat, errorLen: Option<nat>)

  function FromUtf8(s: seq<byte>): (check: Check)
    ensures check.Broken? ==> check.validUpTo < |s|
    ensures check.Broken? && check.errorLen.Some? ==> 1 <= check.errorLen.value <= |s| - check.validUpTo
    decreases |s|
  {
    if s == [] then AllValid
    else match First(s)
      case Whole(_, n) =>
        (match FromUtf8(s[n..])
         case AllValid => AllValid
         case Broken(at, len) => Broken(n + at, len))
      case Ill(n) => Broken(0, Some(n))
      case Incomplete => Broken(0, None)
  }

  /** What a stop of the validator says about lossy decoding. */
  ghost predicate Explains(check: Check, s: seq<byte>)
    requires check.Broken? ==> check.validUpTo < |s|
    requires check.Broken? && check.errorLen.Some? ==> check.errorLen.value <= |s| - check.validUpTo
  {
    match check
    case AllValid => Decode(s).carry == []
    case Broken(at, None) =>
      Decode(s[..at]).carry == [] && Decode(s) == Decoded(Decode(s[..at]).text, s[at..])
    case Broken(at, Some(n)) =>
      && Decode(s[..at]).carry == []
      && Decode(s).text == Decode(s[..at]).text + ([REPLACEMENT] + Decode(s[at + n..]).text)
      && Decode(s).carry == Decode(s[at + n..]).carry
  }

  lemma {:induction false} FromUtf8Meaning(s: seq<byte>)
    ensures Explains(FromUtf8(s), s)
    decreases |s|
  {
    hide First;
    if s != [] {
      match First(s) {
        case Whole(c, n) =>
          FromUtf8Meaning(s[n..]);
          hide Explains, Decode, FromUtf8;
          WholeExplains(s, FromUtf8(s[n..]));
          UnfoldValidator(s);
        case Ill(n) =>
          assert s[..0] == [] && s[0 + n..] == s[n..];
          assert Decode(s).text == [] + ([REPLACEMENT] + Decode(s[n..]).text);
        case Incomplete =>
          assert s[..0] == [] && s[0..] == s;
      }
    }
  }

  function Shifted(check: Check, n: nat): Check {
    match check
    case AllValid => AllValid
    case Broken(at, len) => Broken(n + at, len)
  }

  lemma UnfoldValidator(s: seq<byte>)
    requires s != [] && First(s).Whole?
    ensures FromUtf8(s) == Shifted(FromUtf8(s[First(s).length..]), First(s).length)
  {
    hide First;
  }

  lemma WholeExplains(s: seq<byte>, later: Check)
    requires s != [] && First(s).Whole?
    requires var n := First(s).length;
             && (later.Broken? ==> later.validUpTo < |s| - n)
             && (later.Broken? && later.errorLen.Some? ==> later.errorLen.value <= |s| - n - later.validUpTo)
             && Explains(later, s[n..])
    ensures Explains(Shifted(later, First(s).length), s)
  {
    hide First, Decode;
    DecodeStep(s);
    var n, c := First(s).length, First(s).c;
    assert Token(First(s)) == c;
    if later.Broken? {
      var at := later.validUpTo;
      WholePrefix(s, n + at);
      DecodeStep(s[..n + at]);
      assert s[..n + at][n..] == s[n..][..at] && s[n..][at..] == s[n + at..];
      if later.errorLen.Some? {
        var tail := s[n + at + later.errorLen.value..];
        assert s[n..][at + later.errorLen.value..] == tail;
        Associative([c], Decode(s[n..][..at]).text, [REPLACEMENT] + Decode(tail).text);
      }
    }
  }

  lemma WholePrefix(s: seq<byte>, k: nat)
    requires s != [] && First(s).Whole? && First(s).length <= k <= |s|
    ensures First(s[..k]) == First(s)
  {
  }

  /** The validator accepts exactly the encodings of scalar values. */
  lemma ValidIffEncoded(s: seq<byte>)
    ensures FromUtf8(s).AllValid? <==> exists text :: s == EncodeAll(text)
  {
    if FromUtf8(s).AllValid? {
      ValidIsEncoded(s);
    }
    forall text | s == EncodeAll(text) ensures FromUtf8(s).AllValid? {
      EncodedIsValid(text);
    }
  }

  lemma {:induction false} ValidIsEncoded(s: seq<byte>)
    requires FromUtf8(s).AllValid?
    ensures s == EncodeAll(Decode(s).text)
    decreases |s|
  {
    hide First, Encode;
    if s != [] {
      var n := First(s).length;
      WholeIsEncoded(s);
      ValidIsEncoded(s[n..]);
      assert s == s[..n] + s[n..];
      assert Decode(s).text[1..] == Decode(s[n..]).text;
    }
  }

  lemma {:induction false} EncodedIsValid(text: seq<Scalar>)
    ensures FromUtf8(EncodeAll(text)).AllValid?
  {
    hide First, Encode;
    if text != [] {
      var rest := EncodeAll(text[1..]);
      FirstOfEncoded(text[0], rest);
      assert (Encode(text[0]) + rest)[|Encode(text[0])|..] == rest;
      EncodedIsValid(text[1..]);
    }
  }
}
