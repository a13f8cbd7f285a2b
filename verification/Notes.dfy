/** A team's shared notes: appends, optimistic replacement and the conflict diff (aisense-core, notes.rs). */
module Notes {
  import opened Prelude
  import Framing

  type Slug = string
  type Content = seq<byte>
  type Hash = string

  const NOTE_MAX_BYTES: nat := 262_144
  const NOTES_MAX: nat := 200

  // ---- The hash (FNV-1a, 64 bits) ----

  const U64 := 0x1_0000_0000_0000_0000
  const FNV_OFFSET := 0xcbf2_9ce4_8422_2325
  const FNV_PRIME := 0x0000_0100_0000_01b3

  /** Bitwise exclusive or, on numbers of any width. */
  function Xor(a: nat, b: nat): nat
    decreases a + b
  {
    if a == 0 then b else if b == 0 then a else 2 * Xor(a / 2, b / 2) + (a + b) % 2
  }

  /** The product wraps around at 64 bits. */
  function Mixed(hash: nat, b: byte): nat { Xor(hash, b) * FNV_PRIME % U64 }

  function HashFrom(hash: nat, content: Content): nat
    decreases |content|
  {
    if content == [] then hash else HashFrom(Mixed(hash, content[0]), content[1..])
  }

  const HEX_DIGITS: string := "0123456789abcdef"

  /** The lowest `width` hexadecimal digits of `n`, zeros in front. */
  function Hex(n: nat, width: nat): (text: string)
    ensures |text| == width
  {
    if width == 0 then "" else Hex(n / 16, width - 1) + [HEX_DIGITS[n % 16]]
  }

  function HashOf(content: Content): Hash { Hex(HashFrom(FNV_OFFSET, content), 16) }

  method ContentHash(content: Content) returns (hash: Hash)
    ensures hash == HashOf(content)
  {
    hide Mixed, Hex;
    var mixed: nat := FNV_OFFSET;
    for i := 0 to |content|
      invariant HashFrom(mixed, content[i..]) == HashFrom(FNV_OFFSET, content)
    {
      assert content[i..][1..] == content[i + 1..];
      mixed := Mixed(mixed, content[i]);
    }
    hash := Hex(mixed, 16);
  }

  function DigitOf(c: char): int {
    if '0' <= c <= '9' then c as int - '0' as int else c as int - 'a' as int + 10
  }

  function HexValue(text: string): int {
    if text == "" then 0 else 16 * HexValue(text[..|text| - 1]) + DigitOf(text[|text| - 1])
  }

  /** The text reads back as the number, if that fits the width. */
  lemma {:induction false} HexReadsBack(n: nat, width: nat)
    requires n < TwoTo(4 * width)
    ensures HexValue(Hex(n, width)) == n
    decreases width
  {
    if width > 0 {
      TwoToAdds(4 * (width - 1), 4);
      assert TwoTo(4) == 16;
      hide TwoTo;
      HexReadsBack(n / 16, width - 1);
      HexEnds(n, width);
      DigitIsRead(n % 16);
      hide Hex, DigitOf;
      assert n == n / 16 * 16 + n % 16;
    }
  }

  lemma HexEnds(n: nat, width: nat)
    requires width > 0
    ensures Hex(n, width)[..width - 1] == Hex(n / 16, width - 1) && Hex(n, width)[width - 1] == HEX_DIGITS[n % 16]
  {
  }

  lemma DigitIsRead(d: nat)
    requires d < 16
    ensures DigitOf(HEX_DIGITS[d]) == d
  {
  }

  /** So two contents have one hash text exactly when their 64-bit hashes agree. */
  lemma HashTextIsTheHash(a: Content, b: Content)
    ensures HashOf(a) == HashOf(b) <==> HashFrom(FNV_OFFSET, a) == HashFrom(FNV_OFFSET, b)
  {
    hide HashFrom, Hex, TwoTo, HexValue;
    TwoToSixtyFour();
    HashFits(FNV_OFFSET, a);
    HashFits(FNV_OFFSET, b);
    HexReadsBack(HashFrom(FNV_OFFSET, a), 16);
    HexReadsBack(HashFrom(FNV_OFFSET, b), 16);
  }

  lemma {:induction false} HashFits(hash: nat, content: Content)
    requires hash < U64
    ensures HashFrom(hash, content) < U64
    decreases |content|
  {
    hide Xor;
    if content != [] { HashFits(Mixed(hash, content[0]), content[1..]); }
  }

  // ---- What the hash notices ----

  lemma {:induction false} XorIsInjective(a: nat, b: nat, c: nat)
    ensures Xor(a, c) == Xor(b, c) ==> a == b
    ensures Xor(c, a) == Xor(c, b) ==> a == b
    decreases a + b + c
  {
    hide Xor;
    XorUnfold(a, c);
    XorUnfold(b, c);
    XorUnfold(c, a);
    XorUnfold(c, b);
    if a + b + c > 0 {
      XorIsInjective(a / 2, b / 2, c / 2);
      SameParity(a, b, c);
    }
  }

  lemma SameParity(a: nat, b: nat, c: nat)
    ensures (a + c) % 2 == (b + c) % 2 ==> a % 2 == b % 2
    ensures a / 2 == b / 2 && a % 2 == b % 2 ==> a == b
  {
    assert a == 2 * (a / 2) + a % 2 && b == 2 * (b / 2) + b % 2;
  }

  lemma XorUnfold(a: nat, b: nat)
    ensures Xor(a, b) / 2 == Xor(a / 2, b / 2) && Xor(a, b) % 2 == (a + b) % 2
  {
  }

  lemma {:induction false} XorFits(a: nat, b: nat, width: nat)
    requires a < TwoTo(width) && b < TwoTo(width)
    ensures Xor(a, b) < TwoTo(width)
    decreases width
  {
    if width > 0 {
      XorUnfold(a, b);
      XorFits(a / 2, b / 2, width - 1);
    }
  }

  lemma TwoToSixtyFour()
    ensures TwoTo(64) == U64
  {
    assert TwoTo(8) == 256;
    hide TwoTo;
    TwoToAdds(8, 8);
    TwoToAdds(16, 16);
    TwoToAdds(32, 32);
  }

  /** What undoes a multiplication by the prime. */
  const FNV_INVERSE := 0xce96_5057_aff6_957b

  lemma TimesPrimeIsInjective(a: nat, b: nat)
    requires a < U64 && b < U64 && a * FNV_PRIME % U64 == b * FNV_PRIME % U64
    ensures a == b
  {
    var q := FNV_PRIME * FNV_INVERSE / U64;
    assert FNV_PRIME * FNV_INVERSE == q * U64 + 1;
    var t := a * FNV_PRIME / U64 - b * FNV_PRIME / U64;
    assert a * FNV_PRIME - b * FNV_PRIME == t * U64;
    Cancelled(a - b, FNV_PRIME, FNV_INVERSE, q, t, U64);
    SmallMultiple(a - b, t * FNV_INVERSE - q * (a - b), U64);
  }

  lemma Cancelled(d: int, p: int, i: int, q: int, t: int, m: int)
    requires d * p == t * m && p * i == q * m + 1
    ensures d == (t * i - q * d) * m
  {
    assert d * (p * i) == t * m * i by { assert d * (p * i) == (d * p) * i; }
    assert d * (p * i) == d * (q * m + 1) == d * q * m + d;
    assert (t * i - q * d) * m == t * m * i - d * q * m;
  }

  lemma SmallMultiple(d: int, k: int, m: int)
    requires m > 0 && -m < d < m && d == k * m
    ensures d == 0
  {
    MultipleIsFar(k, m);
  }

  lemma MultipleIsFar(k: int, m: int)
    requires m > 0
    ensures k > 0 ==> k * m >= m
    ensures k < 0 ==> k * m <= -m
  {
  }

  lemma MixedIsInjective(g: nat, h: nat, b: byte, c: byte)
    requires g < U64 && h < U64
    ensures Mixed(g, b) == Mixed(h, b) ==> g == h
    ensures Mixed(g, b) == Mixed(g, c) ==> b == c
  {
    hide Xor;
    TwoToSixtyFour();
    hide TwoTo;
    XorFits(g, b, 64);
    XorFits(h, b, 64);
    XorFits(g, c, 64);
    if Mixed(g, b) == Mixed(h, b) {
      TimesPrimeIsInjective(Xor(g, b), Xor(h, b));
      XorIsInjective(g, h, b);
    }
    if Mixed(g, b) == Mixed(g, c) {
      TimesPrimeIsInjective(Xor(g, b), Xor(g, c));
      XorIsInjective(b, c, g);
    }
  }

  lemma {:induction false} HashDifferenceSurvives(g: nat, h: nat, content: Content)
    requires g < U64 && h < U64 && g != h
    ensures HashFrom(g, content) != HashFrom(h, content)
    decreases |content|
  {
    if content != [] {
      MixedIsInjective(g, h, content[0], content[0]);
      HashFits(g, [content[0]]);
      HashFits(h, [content[0]]);
      assert Mixed(g, content[0]) < U64 && Mixed(h, content[0]) < U64;
      hide Mixed;
      HashDifferenceSurvives(Mixed(g, content[0]), Mixed(h, content[0]), content[1..]);
    }
  }

  lemma {:induction false} HashFromConcat(hash: nat, a: Content, b: Content)
    ensures HashFrom(hash, a + b) == HashFrom(HashFrom(hash, a), b)
    decreases |a|
  {
    hide Mixed;
    if a == [] {
      assert a + b == b;
    } else {
      assert (a + b)[0] == a[0] && (a + b)[1..] == a[1..] + b;
      HashFromConcat(Mixed(hash, a[0]), a[1..], b);
    }
  }

  /** Changing any one byte of a note changes its hash, so a reader of the one cannot replace the other. */
  lemma ChangedByteChangesTheHash(before: Content, x: byte, y: byte, after: Content)
    requires x != y
    ensures HashOf(before + [x] + after) != HashOf(before + [y] + after)
  {
    HashTextIsTheHash(before + [x] + after, before + [y] + after);
    HashFits(FNV_OFFSET, before);
    var h := HashFrom(FNV_OFFSET, before);
    MixedIsInjective(h, h, x, y);
    hide HashOf;
    assert Mixed(h, x) < U64 && Mixed(h, y) < U64;
    hide Mixed;
    AroundAByte(before, x, after);
    AroundAByte(before, y, after);
    HashDifferenceSurvives(Mixed(h, x), Mixed(h, y), after);
  }

  lemma AroundAByte(before: Content, x: byte, after: Content)
    ensures HashFrom(FNV_OFFSET, before + [x] + after) == HashFrom(Mixed(HashFrom(FNV_OFFSET, before), x), after)
  {
    hide Mixed;
    HashFromConcat(FNV_OFFSET, before + [x], after);
    HashFromConcat(FNV_OFFSET, before, [x]);
    assert HashFrom(HashFrom(FNV_OFFSET, before), [x]) == Mixed(HashFrom(FNV_OFFSET, before), x);
  }

  /** The published values of FNV-1a, of nothing and of "a". */
  lemma PublishedHashes()
    ensures HashOf([]) == "cbf29ce484222325"
    ensures HashOf([97]) == "af63dc4c8601ec8c"
  {
    hide Hex, Mixed;
    HexOfNothing();
    HexOfA();
    MixedA();
    assert HashFrom(FNV_OFFSET, [97]) == HashFrom(Mixed(FNV_OFFSET, 97), []);
  }

  lemma MixedA()
    ensures Mixed(FNV_OFFSET, 97) == 0xaf63_dc4c_8601_ec8c
  {
    hide Xor;
    XorA();
  }

  lemma XorA()
    ensures Xor(FNV_OFFSET, 97) == 0xcbf2_9ce4_8422_2344
  {
    assert Xor(0x197e539c9084446, 0) == 0x197e539c9084446;
    hide Xor;
    XorDigits(0x197e539c9084446, 0, 0, 1);
    XorDigits(0x32fca739210888c, 1, 1, 1);
    XorDigits(0x65f94e724211119, 3, 0, 0);
    XorDigits(0xcbf29ce48422232, 6, 0, 0);
    XorDigits(0x197e539c90844464, 12, 1, 0);
    XorDigits(0x32fca739210888c9, 24, 0, 0);
    XorDigits(0x65f94e7242111192, 48, 1, 1);
  }

  lemma XorDigits(a: nat, b: nat, x: nat, y: nat)
    requires x < 2 && y < 2
    ensures Xor(2 * a + x, 2 * b + y) == 2 * Xor(a, b) + (x + y) % 2
  {
    hide Xor;
    var m, n := 2 * a + x, 2 * b + y;
    Halves(a, x);
    Halves(b, y);
    XorUnfold(m, n);
    var v := Xor(m, n);
    assert v == 2 * (v / 2) + v % 2;
    assert m + n == 2 * (a + b) + (x + y);
  }

  lemma Halves(a: nat, x: nat)
    requires x < 2
    ensures (2 * a + x) / 2 == a && (2 * a + x) % 2 == x
  {
  }

  lemma HexOfNothing()
    ensures Hex(FNV_OFFSET, 16) == "cbf29ce484222325"
  {
    hide Hex;
    HexOfNothingHalf();
    HexAppends(0xcbf29ce4, 8, 8);
    HexAppends(0xcbf29ce48, 4, 9);
    HexAppends(0xcbf29ce484, 2, 10);
    HexAppends(0xcbf29ce4842, 2, 11);
    HexAppends(0xcbf29ce48422, 2, 12);
    HexAppends(0xcbf29ce484222, 3, 13);
    HexAppends(0xcbf29ce4842223, 2, 14);
    HexAppends(0xcbf29ce48422232, 5, 15);
  }

  lemma HexOfNothingHalf()
    ensures Hex(0xcbf29ce4, 8) == "cbf29ce4"
  {
    hide Hex;
    HexOfZero();
    HexAppends(0x0, 12, 0);
    HexAppends(0xc, 11, 1);
    HexAppends(0xcb, 15, 2);
    HexAppends(0xcbf, 2, 3);
    HexAppends(0xcbf2, 9, 4);
    HexAppends(0xcbf29, 12, 5);
    HexAppends(0xcbf29c, 14, 6);
    HexAppends(0xcbf29ce, 4, 7);
  }

  lemma HexOfA()
    ensures Hex(0xaf63_dc4c_8601_ec8c, 16) == "af63dc4c8601ec8c"
  {
    hide Hex;
    HexOfAHalf();
    HexAppends(0xaf63dc4c, 8, 8);
    HexAppends(0xaf63dc4c8, 6, 9);
    HexAppends(0xaf63dc4c86, 0, 10);
    HexAppends(0xaf63dc4c860, 1, 11);
    HexAppends(0xaf63dc4c8601, 14, 12);
    HexAppends(0xaf63dc4c8601e, 12, 13);
    HexAppends(0xaf63dc4c8601ec, 8, 14);
    HexAppends(0xaf63dc4c8601ec8, 12, 15);
  }

  lemma HexOfAHalf()
    ensures Hex(0xaf63dc4c, 8) == "af63dc4c"
  {
    hide Hex;
    HexOfZero();
    HexAppends(0x0, 10, 0);
    HexAppends(0xa, 15, 1);
    HexAppends(0xaf, 6, 2);
    HexAppends(0xaf6, 3, 3);
    HexAppends(0xaf63, 13, 4);
    HexAppends(0xaf63d, 12, 5);
    HexAppends(0xaf63dc, 4, 6);
    HexAppends(0xaf63dc4, 12, 7);
  }

  lemma HexOfZero()
    ensures Hex(0, 0) == ""
  {
  }

  lemma HexAppends(high: nat, digit: nat, width: nat)
    requires digit < 16
    ensures Hex(16 * high + digit, width + 1) == Hex(high, width) + [HEX_DIGITS[digit]]
  {
    var n := 16 * high + digit;
    assert n / 16 == high && n % 16 == digit;
    assert Hex(n, width + 1) == Hex(n / 16, width) + [HEX_DIGITS[n % 16]];
  }

  // ---- The diff ----

  datatype Kind = Same | Removed | Added

  /** `Removed`: on disk, and gone in the writer's version; `Added`: the other way round. */
  datatype DiffLine = DiffLine(kind: Kind, text: Content)

  /** Lines end at a newline, with or without a carriage return; the last one may lack its newline. */
  function Lines(content: Content): seq<Content>
    decreases |content|
  {
    if content == [] then []
    else
      var n := LineLength(content, NEWLINE);
      if n == |content| then [content]
      else [Framing.WithoutReturn(content[..n])] + Lines(content[n + 1..])
  }

  function Joined(lines: seq<Content>, ends: seq<Content>): Content
    requires |lines| == |ends|
  {
    if lines == [] then [] else lines[0] + ends[0] + Joined(lines[1..], ends[1..])
  }

  /** How a line can end: with a newline, with a carriage return before it, or, the last one, with neither. */
  predicate Ends(line: Content, end: Content, isLast: bool) {
    && NEWLINE !in line
    && (|| end == [Framing.RETURN, NEWLINE]
        || (end == [NEWLINE] && (line == [] || line[|line| - 1] != Framing.RETURN))
        || (end == [] && isLast && line != []))
  }

  ghost predicate AllEnd(lines: seq<Content>, ends: seq<Content>) {
    && |lines| == |ends|
    && forall k :: 0 <= k < |ends| ==> Ends(lines[k], ends[k], k == |ends| - 1)
  }

  /** The lines with their ends are the whole content: no byte is lost but those of the ends. */
  lemma {:induction false} LinesRebuild(content: Content) returns (ends: seq<Content>)
    ensures AllEnd(Lines(content), ends) && Joined(Lines(content), ends) == content
    decreases |content|
  {
    if content == [] {
      ends := [];
    } else {
      hide *;
      var n := LineLength(content, NEWLINE);
      LinesUnfold(content);
      if n == |content| {
        ends := [[]];
        OneLine(content);
      } else {
        var line, rest := Framing.WithoutReturn(content[..n]), content[n + 1..];
        var later := LinesRebuild(rest);
        LineAndEnd(content, n);
        var end := content[|line|..n + 1];
        ends := [end] + later;
        AllEndCons(line, end, Lines(rest), later);
        JoinedCons(line, end, Lines(rest), later);
        Reassembled(content, |line|, n + 1);
      }
    }
  }

  lemma LinesUnfold(content: Content)
    requires content != []
    ensures var n := LineLength(content, NEWLINE);
            && NEWLINE !in content[..n] && (n < |content| ==> content[n] == NEWLINE)
            && Lines(content) == if n == |content| then [content]
                                 else [Framing.WithoutReturn(content[..n])] + Lines(content[n + 1..])
  {
    LineLengthIs(content, NEWLINE, LineLength(content, NEWLINE));
    hide LineLength, Framing.WithoutReturn;
  }

  lemma OneLine(content: Content)
    requires content != [] && NEWLINE !in content[..|content|]
    ensures AllEnd([content], [[]]) && Joined([content], [[]]) == content
  {
    assert content[..|content|] == content;
    JoinedCons(content, [], [], []);
    assert content + [] + [] == content && [content] + [] == [content];
    var none: seq<Content> := [];
    assert [[]] + none == [[]];
  }

  lemma JoinedCons(line: Content, end: Content, lines: seq<Content>, ends: seq<Content>)
    requires AllEnd(lines, ends)
    ensures Joined([line] + lines, [end] + ends) == line + end + Joined(lines, ends)
  {
    assert ([line] + lines)[1..] == lines && ([end] + ends)[1..] == ends;
  }

  lemma AllEndCons(line: Content, end: Content, lines: seq<Content>, ends: seq<Content>)
    requires Ends(line, end, false) && AllEnd(lines, ends)
    ensures AllEnd([line] + lines, [end] + ends)
  {
  }

  lemma Reassembled(content: Content, a: nat, b: nat)
    requires a <= b <= |content|
    ensures content[..a] + content[a..b] + content[b..] == content
  {
  }

  lemma LineAndEnd(content: Content, n: nat)
    requires n < |content| && content[n] == NEWLINE && NEWLINE !in content[..n]
    ensures var line := Framing.WithoutReturn(content[..n]);
            && |line| <= n && line == content[..|line|]
            && Ends(line, content[|line|..n + 1], false)
  {
    var line := Framing.WithoutReturn(content[..n]);
    assert line == content[..|line|];
    forall b | b in line ensures b in content[..n] {
      var i :| 0 <= i < |line| && line[i] == b;
      assert content[..n][i] == b;
    }
    if |line| == n {
      assert content[n..n + 1] == [NEWLINE];
    } else {
      assert content[n - 1..n + 1] == [Framing.RETURN, NEWLINE];
    }
  }

  function CommonPrefix<T(==)>(a: seq<T>, b: seq<T>): (n: nat)
    ensures n <= |a| && n <= |b|
    decreases |a|
  {
    if a != [] && b != [] && a[0] == b[0] then 1 + CommonPrefix(a[1..], b[1..]) else 0
  }

  function CommonSuffix<T(==)>(a: seq<T>, b: seq<T>): (n: nat)
    ensures n <= |a| && n <= |b|
    decreases |a|
  {
    if a != [] && b != [] && a[|a| - 1] == b[|b| - 1] then 1 + CommonSuffix(a[..|a| - 1], b[..|b| - 1]) else 0
  }

  function Marked(kind: Kind, lines: seq<Content>): seq<DiffLine> {
    if lines == [] then [] else [DiffLine(kind, lines[0])] + Marked(kind, lines[1..])
  }

  function Stretches(head: seq<Content>, gone: seq<Content>, come: seq<Content>, tail: seq<Content>): seq<DiffLine> {
    Marked(Same, head) + (Marked(Removed, gone) + (Marked(Added, come) + Marked(Same, tail)))
  }

  function Diff(a: seq<Content>, b: seq<Content>): seq<DiffLine> {
    var p := CommonPrefix(a, b);
    var s := CommonSuffix(a[p..], b[p..]);
    Stretches(a[..p], a[p..|a| - s], b[p..|b| - s], a[|a| - s..])
  }

  method CountPrefix<T(==)>(a: seq<T>, b: seq<T>) returns (n: nat)
    ensures n == CommonPrefix(a, b)
  {
    n := 0;
    while n < |a| && n < |b| && a[n] == b[n]
      invariant n <= |a| && n <= |b|
      invariant n + CommonPrefix(a[n..], b[n..]) == CommonPrefix(a, b)
    {
      assert a[n..][1..] == a[n + 1..] && b[n..][1..] == b[n + 1..];
      n := n + 1;
    }
  }

  method CountSuffix<T(==)>(a: seq<T>, b: seq<T>) returns (n: nat)
    ensures n == CommonSuffix(a, b)
  {
    n := 0;
    assert a[..|a|] == a && b[..|b|] == b;
    while n < |a| && n < |b| && a[|a| - 1 - n] == b[|b| - 1 - n]
      invariant n <= |a| && n <= |b|
      invariant n + CommonSuffix(a[..|a| - n], b[..|b| - n]) == CommonSuffix(a, b)
    {
      assert a[..|a| - n][..|a| - n - 1] == a[..|a| - n - 1];
      assert b[..|b| - n][..|b| - n - 1] == b[..|b| - n - 1];
      n := n + 1;
    }
  }

  /** Count what both ends share, then list the four stretches. */
  method LineDiff(before: Content, after: Content) returns (diff: seq<DiffLine>)
    ensures diff == Diff(Lines(before), Lines(after))
  {
    hide Lines, CommonPrefix, CommonSuffix;
    var a, b := Lines(before), Lines(after);
    var p := CountPrefix(a, b);
    var s := CountSuffix(a[p..], b[p..]);
    diff := Stretches(a[..p], a[p..|a| - s], b[p..|b| - s], a[|a| - s..]);
  }

  /** The lines a reader of the disk, or of the new version, would see. */
  function Reading(diff: seq<DiffLine>, added: bool): seq<Content> {
    if diff == [] then []
    else (if diff[0].kind == (if added then Removed else Added) then [] else [diff[0].text]) + Reading(diff[1..], added)
  }

  lemma {:induction false} ReadingConcat(d: seq<DiffLine>, e: seq<DiffLine>, added: bool)
    ensures Reading(d + e, added) == Reading(d, added) + Reading(e, added)
    decreases |d|
  {
    if d == [] {
      assert d + e == e;
    } else {
      assert (d + e)[0] == d[0] && (d + e)[1..] == d[1..] + e;
      ReadingConcat(d[1..], e, added);
    }
  }

  lemma MarkedFirst(kind: Kind, lines: seq<Content>)
    requires lines != []
    ensures Marked(kind, lines) != [] && Marked(kind, lines)[0] == DiffLine(kind, lines[0])
    ensures Marked(kind, lines)[1..] == Marked(kind, lines[1..])
  {
  }

  lemma {:induction false} ReadingMarked(kind: Kind, lines: seq<Content>, added: bool)
    ensures Reading(Marked(kind, lines), added) == if kind == (if added then Removed else Added) then [] else lines
    decreases |lines|
  {
    if lines != [] {
      ReadingMarked(kind, lines[1..], added);
      MarkedFirst(kind, lines);
      hide Marked;
      assert [lines[0]] + lines[1..] == lines;
    }
  }

  lemma {:induction false} PrefixIsCommon<T>(a: seq<T>, b: seq<T>)
    ensures a[..CommonPrefix(a, b)] == b[..CommonPrefix(a, b)]
    ensures var n := CommonPrefix(a, b); n < |a| && n < |b| ==> a[n] != b[n]
    decreases |a|
  {
    if a != [] && b != [] && a[0] == b[0] {
      PrefixIsCommon(a[1..], b[1..]);
      var n := CommonPrefix(a[1..], b[1..]);
      assert a[..n + 1] == [a[0]] + a[1..][..n] && b[..n + 1] == [b[0]] + b[1..][..n];
    }
  }

  lemma {:induction false} SplitAtSuffix<T>(a: seq<T>, b: seq<T>) returns (x: seq<T>, y: seq<T>, tail: seq<T>)
    ensures a == x + tail && b == y + tail && |tail| == CommonSuffix(a, b)
    ensures x != [] && y != [] ==> x[|x| - 1] != y[|y| - 1]
    decreases |a|
  {
    assert CommonSuffix(a, b) == if a != [] && b != [] && a[|a| - 1] == b[|b| - 1]
        then 1 + CommonSuffix(a[..|a| - 1], b[..|b| - 1]) else 0;
    hide CommonSuffix;
    if a != [] && b != [] && a[|a| - 1] == b[|b| - 1] {
      var rest: seq<T>;
      x, y, rest := SplitAtSuffix(a[..|a| - 1], b[..|b| - 1]);
      tail := rest + [a[|a| - 1]];
      Associative(x, rest, [a[|a| - 1]]);
      Associative(y, rest, [a[|a| - 1]]);
      assert a == a[..|a| - 1] + [a[|a| - 1]] && b == b[..|b| - 1] + [b[|b| - 1]];
    } else {
      x, y, tail := a, b, [];
      assert a + [] == a && b + [] == b;
    }
  }

  lemma StretchesRead(head: seq<Content>, gone: seq<Content>, come: seq<Content>, tail: seq<Content>, added: bool)
    ensures Reading(Stretches(head, gone, come, tail), added) == head + ((if added then come else gone) + tail)
  {
    hide Reading, Marked;
    var h, g, c, t := Marked(Same, head), Marked(Removed, gone), Marked(Added, come), Marked(Same, tail);
    ReadingMarked(Same, head, added);
    ReadingMarked(Removed, gone, added);
    ReadingMarked(Added, come, added);
    ReadingMarked(Same, tail, added);
    ReadingConcat(h, g + (c + t), added);
    ReadingConcat(g, c + t, added);
    ReadingConcat(c, t, added);
    assert [] + tail == tail && [] + (come + tail) == come + tail;
  }

  lemma Pieces<T>(a: seq<T>, p: nat, x: seq<T>, tail: seq<T>)
    requires p <= |a| && a[p..] == x + tail
    ensures a[p..|a| - |tail|] == x && a[|a| - |tail|..] == tail && a == a[..p] + (x + tail)
  {
    assert a[p..|a| - |tail|] == a[p..][..|x|];
    assert a[|a| - |tail|..] == a[p..][|x|..];
  }

  lemma DiffOfPieces(a: seq<Content>, b: seq<Content>, gone: seq<Content>, come: seq<Content>, tail: seq<Content>)
    requires var p := CommonPrefix(a, b);
             a[p..] == gone + tail && b[p..] == come + tail && |tail| == CommonSuffix(a[p..], b[p..])
    ensures var head := a[..CommonPrefix(a, b)];
            && Diff(a, b) == Stretches(head, gone, come, tail)
            && a == head + (gone + tail) && b == head + (come + tail)
  {
    hide CommonPrefix, CommonSuffix, Stretches;
    PrefixIsCommon(a, b);
    Pieces(a, CommonPrefix(a, b), gone, tail);
    Pieces(b, CommonPrefix(a, b), come, tail);
  }

  /** The diff shows a common head and tail, and between them a change as short as these ends allow. */
  lemma DiffIsTight(a: seq<Content>, b: seq<Content>)
      returns (head: seq<Content>, gone: seq<Content>, come: seq<Content>, tail: seq<Content>)
    ensures Diff(a, b) == Stretches(head, gone, come, tail)
    ensures a == head + (gone + tail) && b == head + (come + tail)
    ensures gone != [] && come != [] ==> gone[0] != come[0] && gone[|gone| - 1] != come[|come| - 1]
  {
    hide *;
    var p := CommonPrefix(a, b);
    head := a[..p];
    gone, come, tail := SplitAtSuffix(a[p..], b[p..]);
    DiffOfPieces(a, b, gone, come, tail);
    PrefixIsCommon(a, b);
    FirstOf(a, p, gone, tail);
    FirstOf(b, p, come, tail);
  }

  lemma FirstOf<T>(a: seq<T>, p: nat, x: seq<T>, tail: seq<T>)
    requires p <= |a| && a[p..] == x + tail
    ensures x != [] ==> p < |a| && x[0] == a[p]
  {
    if x != [] { assert a[p..][0] == x[0]; }
  }

  /** Read one way the diff is the note on disk, read the other way the writer's version. */
  lemma DiffRebuildsBoth(a: seq<Content>, b: seq<Content>)
    ensures Reading(Diff(a, b), false) == a && Reading(Diff(a, b), true) == b
  {
    hide *;
    var head, gone, come, tail := DiffIsTight(a, b);
    StretchesRead(head, gone, come, tail, false);
    StretchesRead(head, gone, come, tail, true);
  }

}
