/**
 * Agent handles: validation, suggestion and the free handle of a copy (aisense-core,
 * agent/handle.rs and agent/ops.rs).
 */
module Handles {
  import opened Prelude

  const HANDLE_MIN_LEN: nat := 2
  const HANDLE_MAX_LEN: nat := 32

  predicate IsLower(c: char) { 'a' <= c <= 'z' }

  predicate IsDigit(c: char) { '0' <= c <= '9' }

  predicate IsHandleChar(c: char) { IsLower(c) || IsDigit(c) || c == '-' }

  datatype Problem = TooShort | TooLong | MustStartWithLetter | InvalidCharacter(c: char) | Reserved

  datatype Parsed = Handle(text: string) | Refused(problem: Problem)

  function FirstInvalid(s: string): Option<char> {
    if s == [] then None
    else if !IsHandleChar(s[0]) then Some(s[0])
    else FirstInvalid(s[1..])
  }

  function Parse(raw: string): Parsed {
    if |raw| < HANDLE_MIN_LEN then Refused(TooShort)
    else if |raw| > HANDLE_MAX_LEN then Refused(TooLong)
    else if !IsLower(raw[0]) then Refused(MustStartWithLetter)
    else if FirstInvalid(raw[1..]).Some? then Refused(InvalidCharacter(FirstInvalid(raw[1..]).value))
    else if raw in ["all", "voce"] then Refused(Reserved)
    else Handle(raw)
  }

  /** `^[a-z][a-z0-9-]{1,31}$` and not reserved. */
  ghost predicate IsHandle(s: string) {
    && HANDLE_MIN_LEN <= |s| <= HANDLE_MAX_LEN
    && IsLower(s[0]) && (forall i :: 0 <= i < |s| ==> IsHandleChar(s[i]))
    && s != "all" && s != "voce"
  }

  /** The refusal names the first character that is not allowed. */
  lemma {:induction false} FirstInvalidIsFirst(s: string, c: char)
    ensures FirstInvalid(s) == Some(c)
       <==> exists i :: 0 <= i < |s| && s[i] == c && !IsHandleChar(c) && forall j :: 0 <= j < i ==> IsHandleChar(s[j])
    decreases |s|
  {
    if s != [] && IsHandleChar(s[0]) {
      var t := s[1..];
      FirstInvalidIsFirst(t, c);
      if FirstInvalid(t) == Some(c) {
        var k :| 0 <= k < |t| && t[k] == c && !IsHandleChar(c) && forall j :: 0 <= j < k ==> IsHandleChar(t[j]);
        assert s[k + 1] == c && forall j :: 0 < j < k + 1 ==> s[j] == t[j - 1];
      }
      if i :| 0 <= i < |s| && s[i] == c && !IsHandleChar(c) && forall j :: 0 <= j < i ==> IsHandleChar(s[j]) {
        assert t[i - 1] == c && forall j :: 0 <= j < i - 1 ==> t[j] == s[j + 1];
      }
    } else if s != [] {
      assert FirstInvalid(s) == Some(c) ==> s[0] == c;
    }
  }

  lemma {:induction false} NoneInvalid(s: string)
    ensures FirstInvalid(s).None? <==> forall i :: 0 <= i < |s| ==> IsHandleChar(s[i])
    decreases |s|
  {
    if s != [] && IsHandleChar(s[0]) {
      NoneInvalid(s[1..]);
      if FirstInvalid(s).None? {
        forall i | 0 <= i < |s| ensures IsHandleChar(s[i]) { if i > 0 { assert s[i] == s[1..][i - 1]; } }
      }
    }
  }

  lemma ParseAcceptsHandles(raw: string)
    ensures Parse(raw) == Handle(raw) <==> IsHandle(raw)
    ensures Parse(raw).Handle? ==> Parse(raw).text == raw
  {
    if |raw| > 0 {
      NoneInvalid(raw[1..]);
      assert (forall i :: 0 <= i < |raw| ==> IsHandleChar(raw[i]))
         ==> forall i :: 0 <= i < |raw| - 1 ==> IsHandleChar(raw[1..][i]);
      assert IsLower(raw[0]) && (forall i :: 0 <= i < |raw| - 1 ==> IsHandleChar(raw[1..][i]))
         ==> forall i :: 0 <= i < |raw| ==> IsHandleChar(raw[i]) by {
        forall i | 0 < i < |raw| ensures raw[i] == raw[1..][i - 1] {}
      }
    }
  }

  /** Each refusal says what is wrong, and the first thing that is. */
  lemma RefusalsAreExact(raw: string)
    ensures Parse(raw) == Refused(TooShort) <==> |raw| < 2
    ensures Parse(raw) == Refused(TooLong) <==> |raw| > 32
    ensures Parse(raw) == Refused(MustStartWithLetter) <==> 2 <= |raw| <= 32 && !('a' <= raw[0] <= 'z')
    ensures Parse(raw).Refused? && Parse(raw).problem.InvalidCharacter? ==>
              var c := Parse(raw).problem.c;
              exists i :: 1 <= i < |raw| && raw[i] == c && !IsHandleChar(c)
                          && forall j :: 1 <= j < i ==> IsHandleChar(raw[j])
    ensures Parse(raw) == Refused(Reserved) <==> raw == "all" || raw == "voce"
  {
    ReservedAreWellFormed();
    if Parse(raw).Refused? && Parse(raw).problem.InvalidCharacter? {
      var c, rest := Parse(raw).problem.c, raw[1..];
      FirstInvalidIsFirst(rest, c);
      var k :| 0 <= k < |rest| && rest[k] == c && !IsHandleChar(c) && forall j :: 0 <= j < k ==> IsHandleChar(rest[j]);
      assert raw[k + 1] == c && forall j :: 1 <= j < k + 1 ==> raw[j] == rest[j - 1];
    }
  }

  lemma ReservedAreWellFormed()
    ensures FirstInvalid("all"[1..]).None? && FirstInvalid("voce"[1..]).None?
  {
    NoneInvalid("all"[1..]);
    NoneInvalid("voce"[1..]);
  }

  // ---- The free handle of a copy ----

  function Digit(d: nat): char
    requires d < 10
  {
    '0' + d as char
  }

  function Decimal(n: nat): (s: string)
    ensures s != []
  {
    if n < 10 then [Digit(n)] else Decimal(n / 10) + [Digit(n % 10)]
  }

  function ValueOf(s: string): int {
    if s == [] then 0 else ValueOf(s[..|s| - 1]) * 10 + (s[|s| - 1] as int - '0' as int)
  }

  lemma {:induction false} DecimalValue(n: nat)
    ensures ValueOf(Decimal(n)) == n
    ensures forall i :: 0 <= i < |Decimal(n)| ==> IsDigit(Decimal(n)[i])
  {
    if n < 10 {
      assert [Digit(n)][..0] == [];
    } else {
      DecimalValue(n / 10);
      assert (Decimal(n / 10) + [Digit(n % 10)])[..|Decimal(n / 10)|] == Decimal(n / 10);
    }
  }

  lemma {:induction false} DecimalLength(n: nat)
    requires n < 0x1_0000_0000
    ensures |Decimal(n)| <= 10
  {
    DecimalAtMost(n, 10);
  }

  function TenTo(k: nat): nat { if k == 0 then 1 else 10 * TenTo(k - 1) }

  lemma {:induction false} DecimalAtMost(n: nat, k: nat)
    requires k >= 1 && n < TenTo(k)
    ensures |Decimal(n)| <= k
    decreases k
  {
    if n >= 10 {
      DecimalAtMost(n / 10, k - 1);
    }
  }

  function TrimHyphens(s: string): (t: string)
    ensures t <= s && (t == [] || t[|t| - 1] != '-') && (forall k :: |t| <= k < |s| ==> s[k] == '-')
  {
    if s != [] && s[|s| - 1] == '-' then TrimHyphens(s[..|s| - 1]) else s
  }

  /** The base is cut, never the suffix. */
  function Candidate(base: string, n: nat): string {
    var suffix := "-" + Decimal(n);
    TrimHyphens(Take(base, Max(HANDLE_MAX_LEN - |suffix|, 0))) + suffix
  }

  lemma TrimKeepsFirst(s: string)
    requires s != [] && s[0] != '-'
    ensures TrimHyphens(s) != [] && TrimHyphens(s)[0] == s[0]
  {
    if s[|s| - 1] == '-' && |s| > 1 {
      TrimKeepsFirst(s[..|s| - 1]);
    }
  }

  lemma CandidateIsAHandle(base: string, n: nat)
    requires IsHandle(base) && n < 0x1_0000_0000
    ensures IsHandle(Candidate(base, n))
  {
    hide Decimal, TrimHyphens, ValueOf, TenTo;
    DecimalLength(n);
    DecimalValue(n);
    var digits := Decimal(n);
    var kept := Take(base, HANDLE_MAX_LEN - 1 - |digits|);
    TrimKeepsFirst(kept);
    var t := TrimHyphens(kept);
    var c := t + ("-" + digits);
    assert Candidate(base, n) == c;
    assert c[|t|] == '-';
    forall i | 0 <= i < |c| ensures IsHandleChar(c[i]) {
      if i < |t| { assert c[i] == t[i] == kept[i] == base[i]; }
      else if i > |t| { assert c[i] == digits[i - |t| - 1]; }
    }
    assert forall i :: 0 <= i < |"all"| ==> "all"[i] != '-';
    assert forall i :: 0 <= i < |"voce"| ==> "voce"[i] != '-';
  }

  /** A candidate is the base, as much of it as leaves room for the number, and then the number. */
  lemma CandidateKeepsTheBase(base: string, n: nat) returns (kept: string)
    ensures Candidate(base, n) == kept + ("-" + Decimal(n)) && kept <= base
    ensures var room := Max(HANDLE_MAX_LEN - 1 - |Decimal(n)|, 0);
            && |kept| <= room && (kept != [] ==> kept[|kept| - 1] != '-')
            && forall k :: |kept| <= k < |base| && k < room ==> base[k] == '-'
  {
    var cut := Take(base, Max(HANDLE_MAX_LEN - |"-" + Decimal(n)|, 0));
    kept := TrimHyphens(cut);
    forall k | |kept| <= k < |cut| ensures base[k] == '-' { assert cut[k] == base[k]; }
  }

  /** Numbers are written without a zero in front. */
  lemma {:induction false} DecimalIsCanonical(n: nat)
    ensures n > 0 ==> Decimal(n)[0] != '0'
  {
    if n >= 10 { DecimalIsCanonical(n / 10); }
  }

  function AfterLastHyphen(s: string): string {
    if s == [] || s[|s| - 1] == '-' then [] else AfterLastHyphen(s[..|s| - 1]) + [s[|s| - 1]]
  }

  lemma {:induction false} DigitsAfterHyphen(head: string, digits: string)
    requires forall i :: 0 <= i < |digits| ==> IsDigit(digits[i])
    ensures AfterLastHyphen(head + ("-" + digits)) == digits
    decreases |digits|
  {
    var s := head + ("-" + digits);
    if digits == [] {
      assert s[|s| - 1] == '-';
    } else {
      var shorter := digits[..|digits| - 1];
      assert s[..|s| - 1] == head + ("-" + shorter) && s[|s| - 1] == digits[|digits| - 1];
      DigitsAfterHyphen(head, shorter);
      assert digits == shorter + [digits[|digits| - 1]];
    }
  }

  /** What follows the last hyphen of a candidate is its number, so no two candidates are the same. */
  lemma CandidatesDiffer(base: string, m: nat, n: nat)
    ensures Candidate(base, m) == Candidate(base, n) ==> m == n
  {
    hide Decimal, TrimHyphens, Take, AfterLastHyphen, ValueOf;
    DecimalValue(m);
    DecimalValue(n);
    DigitsAfterHyphen(TrimHyphens(Take(base, Max(HANDLE_MAX_LEN - |"-" + Decimal(m)|, 0))), Decimal(m));
    DigitsAfterHyphen(TrimHyphens(Take(base, Max(HANDLE_MAX_LEN - |"-" + Decimal(n)|, 0))), Decimal(n));
  }

  function Tried(base: string, k: nat): set<string> {
    set n | 2 <= n < 2 + k :: Candidate(base, n)
  }

  lemma {:induction false} TriedCount(base: string, k: nat)
    ensures |Tried(base, k)| == k
    decreases k
  {
    hide Candidate;
    if k > 0 {
      TriedCount(base, k - 1);
      assert Tried(base, k) == Tried(base, k - 1) + {Candidate(base, k + 1)};
      forall n | 2 <= n < 1 + k ensures Candidate(base, n) != Candidate(base, k + 1) {
        CandidatesDiffer(base, n, k + 1);
      }
    } else {
      assert Tried(base, 0) == {};
    }
  }

  lemma TriedSoFar(base: string, k: nat, taken: set<string>)
    requires forall n :: 2 <= n < 2 + k ==> Candidate(base, n) in taken
    ensures k <= |taken|
  {
    hide Candidate;
    TriedCount(base, k);
    SubsetCount(Tried(base, k), taken);
  }

  /**
   * The first candidate nobody has: it takes at most one try more than there are siblings, and
   * the result is a handle again. (The counter is 32 bits wide.)
   */
  method FreeHandle(base: string, taken: set<string>) returns (handle: string, tries: nat)
    requires IsHandle(base) && |taken| < 0xFFFF_FFFD
    ensures handle !in taken && IsHandle(handle) && Parse(handle) == Handle(handle)
    ensures 1 <= tries <= |taken| + 1 && handle == Candidate(base, 1 + tries)
    ensures forall n :: 2 <= n < 1 + tries ==> Candidate(base, n) in taken
  {
    hide Candidate, IsHandle, Parse;
    var n := 2;
    tries := 1;
    while Candidate(base, n) in taken
      invariant 2 <= n == tries + 1 && tries <= |taken| + 1
      invariant forall m :: 2 <= m < n ==> Candidate(base, m) in taken
      decreases |taken| + 2 - tries
    {
      TriedSoFar(base, n - 1, taken);
      n := n + 1;
      tries := tries + 1;
    }
    handle := Candidate(base, n);
    CandidateIsAHandle(base, n);
    ParseAcceptsHandles(handle);
  }

  // ---- Suggesting a handle from a display name ----

  /** The accents of Portuguese and its neighbours. */
  function FoldAccent(c: char): char {
    if c in "\U{e1}\U{e0}\U{e2}\U{e3}\U{e4}" then 'a'
    else if c in "\U{e9}\U{e8}\U{ea}\U{eb}" then 'e'
    else if c in "\U{ed}\U{ec}\U{ee}\U{ef}" then 'i'
    else if c in "\U{f3}\U{f2}\U{f4}\U{f5}\U{f6}" then 'o'
    else if c in "\U{fa}\U{f9}\U{fb}\U{fc}" then 'u'
    else if c == '\U{e7}' then 'c'
    else if c == '\U{f1}' then 'n'
    else c
  }

  /** Letters and digits are kept; a stretch of anything else becomes one hyphen, except in front. */
  function WithNext(out: string, lowered: char): string {
    var c := FoldAccent(lowered);
    if IsLower(c) || IsDigit(c) then out + [c]
    else if out != [] && out[|out| - 1] != '-' then out + ['-']
    else out
  }

  function Slugged(out: string, lowered: string): string
    decreases |lowered|
  {
    if lowered == [] then out else Slugged(WithNext(out, lowered[0]), lowered[1..])
  }

  function TrimToLetter(s: string): string {
    if s != [] && !IsLower(s[0]) then TrimToLetter(s[1..]) else s
  }

  function Suggestion(lowered: string): Option<string> {
    var candidate := TrimHyphens(Take(TrimToLetter(Slugged([], lowered)), HANDLE_MAX_LEN));
    match Parse(candidate)
    case Handle(h) => Some(h)
    case Refused(_) => None
  }

  /** `lowered` is the display name after Unicode lower-casing, which may give several characters for one. */
  method Suggest(lowered: string) returns (handle: Option<string>)
    ensures handle == Suggestion(lowered)
  {
    hide TrimToLetter, TrimHyphens, FoldAccent, Parse;
    var out: string := [];
    for i := 0 to |lowered|
      invariant Slugged(out, lowered[i..]) == Slugged([], lowered)
    {
      assert lowered[i..][1..] == lowered[i + 1..];
      var c := FoldAccent(lowered[i]);
      if IsLower(c) || IsDigit(c) {
        out := out + [c];
      } else if out != [] && out[|out| - 1] != '-' {
        out := out + ['-'];
      }
    }
    var trimmed := TrimToLetter(out);
    var candidate := Take(trimmed, HANDLE_MAX_LEN);
    candidate := PopHyphens(candidate);
    match Parse(candidate) {
      case Handle(h) => return Some(h);
      case Refused(_) => return None;
    }
  }

  method PopHyphens(s: string) returns (t: string)
    ensures t == TrimHyphens(s)
  {
    t := s;
    while t != [] && t[|t| - 1] == '-'
      invariant TrimHyphens(t) == TrimHyphens(s)
      decreases |t|
    {
      t := t[..|t| - 1];
    }
  }

  /** Only handle characters, and never two hyphens in a row. */
  ghost predicate Single(s: string) {
    && (forall i :: 0 <= i < |s| ==> IsHandleChar(s[i]))
    && (forall i :: 0 <= i < |s| - 1 ==> !(s[i] == '-' && s[i + 1] == '-'))
  }

  /** A handle that reads well: single hyphens, and none at the end. */
  ghost predicate Tidy(s: string) {
    IsHandle(s) && Single(s) && s[|s| - 1] != '-'
  }

  lemma {:induction false} SluggedIsSingle(out: string, lowered: string)
    requires Single(out)
    ensures Single(Slugged(out, lowered))
    decreases |lowered|
  {
    if lowered != [] {
      NextIsSingle(out, lowered[0]);
      SluggedIsSingle(WithNext(out, lowered[0]), lowered[1..]);
    }
  }

  lemma NextIsSingle(out: string, c: char)
    requires Single(out)
    ensures Single(WithNext(out, c))
  {
    hide FoldAccent;
  }

  lemma {:induction false} TrimmedIsSingle(s: string)
    requires Single(s)
    ensures Single(TrimToLetter(s)) && (TrimToLetter(s) == [] || IsLower(TrimToLetter(s)[0]))
    decreases |s|
  {
    if s != [] && !IsLower(s[0]) {
      assert forall i :: 0 <= i < |s| - 1 ==> s[1..][i] == s[i + 1];
      TrimmedIsSingle(s[1..]);
    }
  }

  lemma PrefixIsSingle(s: string, t: string)
    requires Single(s) && t <= s
    ensures Single(t)
  {
    assert forall i :: 0 <= i < |t| ==> t[i] == s[i];
  }

  lemma AsciiIsNotFolded(c: char)
    requires IsHandleChar(c)
    ensures FoldAccent(c) == c
  {
  }

  lemma {:induction false} TidyIsKept(h: string, i: nat)
    requires Tidy(h) && i <= |h|
    ensures Slugged(h[..i], h[i..]) == h
    decreases |h| - i
  {
    if i == |h| {
      assert h[..i] == h && h[i..] == [];
    } else {
      AsciiIsNotFolded(h[i]);
      hide FoldAccent;
      assert h[..i + 1] == h[..i] + [h[i]] && h[i..][1..] == h[i + 1..];
      assert i > 0 ==> h[..i][i - 1] == h[i - 1] && !(h[i - 1] == '-' && h[i] == '-');
      assert WithNext(h[..i], h[i]) == h[..i + 1];
      TidyIsKept(h, i + 1);
    }
  }

  /** Every suggestion is a valid, tidy handle. */
  lemma SuggestionsAreTidy(lowered: string)
    ensures Suggestion(lowered).Some? ==> Tidy(Suggestion(lowered).value)
  {
    hide FoldAccent, Slugged, TrimToLetter, TrimHyphens, Parse;
    var slug := Slugged([], lowered);
    SluggedIsSingle([], lowered);
    TrimmedIsSingle(slug);
    var kept := Take(TrimToLetter(slug), HANDLE_MAX_LEN);
    PrefixIsSingle(TrimToLetter(slug), kept);
    PrefixIsSingle(kept, TrimHyphens(kept));
    ParseAcceptsHandles(TrimHyphens(kept));
  }

  /** The suggestions that suggest themselves are exactly the tidy handles; so suggesting is idempotent. */
  lemma SuggestionIsIdempotent(h: string)
    ensures Suggestion(h) == Some(h) <==> Tidy(h)
    ensures forall lowered :: Suggestion(lowered) == Some(h) ==> Suggestion(h) == Some(h)
  {
    hide FoldAccent, Slugged, TrimHyphens, Parse;
    SuggestionsAreTidy(h);
    if Tidy(h) {
      assert h[..0] == [] && h[0..] == h;
      TidyIsKept(h, 0);
      NoHyphenToTrim(h);
      ParseAcceptsHandles(h);
    }
    forall lowered | Suggestion(lowered) == Some(h) ensures Suggestion(h) == Some(h) {
      SuggestionsAreTidy(lowered);
    }
  }

  /** Two valid handles whose own suggestion is another one, or none at all. */
  lemma UntidyHandles()
    ensures IsHandle("ab-") && Suggestion("ab-") != Some("ab-")
    ensures IsHandle("a--b") && Suggestion("a--b") != Some("a--b")
  {
    hide Suggestion;
    SuggestionIsIdempotent("ab-");
    SuggestionIsIdempotent("a--b");
    assert "ab-"[2] == '-';
    assert "a--b"[1] == '-' && "a--b"[1 + 1] == '-';
  }

  lemma NoHyphenToTrim(s: string)
    ensures s != [] && s[|s| - 1] != '-' ==> TrimHyphens(s) == s
  {
  }

  // ---- What a name becomes ----

  predicate IsSpoken(c: char) { IsLower(FoldAccent(c)) || IsDigit(FoldAccent(c)) }

  ghost predicate AllSpoken(word: string) {
    forall k :: 0 <= k < |word| ==> IsSpoken(word[k])
  }

  ghost predicate IsWord(word: string) { word != [] && AllSpoken(word) }

  ghost predicate IsGap(gap: string) {
    forall k :: 0 <= k < |gap| ==> !IsSpoken(gap[k])
  }

  function Folded(word: string): string {
    seq(|word|, i requires 0 <= i < |word| => FoldAccent(word[i]))
  }

  /** Words with gaps behind them. */
  function Spoken(words: seq<string>, gaps: seq<string>): string
    requires |words| == |gaps|
  {
    if words == [] then [] else words[0] + gaps[0] + Spoken(words[1..], gaps[1..])
  }

  function Hyphenated(words: seq<string>): string {
    if words == [] then []
    else if |words| == 1 then Folded(words[0])
    else Folded(words[0]) + "-" + Hyphenated(words[1..])
  }

  lemma {:induction false} WordIsKept(out: string, word: string, rest: string)
    requires AllSpoken(word)
    ensures Slugged(out, word + rest) == Slugged(out + Folded(word), rest)
    decreases |word|
  {
    hide FoldAccent;
    if word == [] {
      assert word + rest == rest && out + Folded(word) == out;
    } else {
      assert (word + rest)[0] == word[0] && (word + rest)[1..] == word[1..] + rest;
      assert WithNext(out, word[0]) == out + [FoldAccent(word[0])];
      WordIsKept(out + [FoldAccent(word[0])], word[1..], rest);
      assert out + [FoldAccent(word[0])] + Folded(word[1..]) == out + Folded(word);
    }
  }

  lemma {:induction false} GapIsOneHyphen(out: string, gap: string, rest: string)
    requires IsGap(gap) && out != []
    ensures Slugged(out, gap + rest)
         == Slugged(if gap == [] || out[|out| - 1] == '-' then out else out + "-", rest)
    decreases |gap|
  {
    hide FoldAccent;
    if gap == [] {
      assert gap + rest == rest;
    } else {
      assert (gap + rest)[0] == gap[0] && (gap + rest)[1..] == gap[1..] + rest;
      GapIsOneHyphen(WithNext(out, gap[0]), gap[1..], rest);
    }
  }

  lemma {:induction false} WordsAreHyphenated(out: string, words: seq<string>, gaps: seq<string>)
    requires |words| == |gaps| && words != []
    requires forall k :: 0 <= k < |words| ==> IsWord(words[k]) && IsGap(gaps[k])
    requires forall k :: 0 <= k < |gaps| - 1 ==> gaps[k] != []
    ensures Slugged(out, Spoken(words, gaps))
         == out + Hyphenated(words) + (if gaps[|gaps| - 1] == [] then "" else "-")
    decreases |words|
  {
    var first := out + Folded(words[0]);
    var rest := Spoken(words[1..], gaps[1..]);
    FoldedEnds(words[0], out);
    SpokenUnfolds(words, gaps);
    HyphenatedUnfolds(words);
    hide FoldAccent, WithNext, IsSpoken, Folded, Spoken, Hyphenated, AllSpoken, IsGap;
    WordIsKept(out, words[0], gaps[0] + rest);
    GapIsOneHyphen(first, gaps[0], rest);
    SluggedNothing(first);
    SluggedNothing(first + "-");
    hide Slugged;
    if |words| == 1 {
      assert first + "" == first;
    } else {
      WordsAreHyphenated(first + "-", words[1..], gaps[1..]);
      Regrouped(out, Folded(words[0]), Hyphenated(words[1..]));
      assert gaps[1..][|gaps| - 2] == gaps[|gaps| - 1];
    }
  }

  lemma Regrouped(out: string, word: string, rest: string)
    ensures out + word + "-" + rest == out + (word + ("-" + rest))
  {
  }

  lemma SluggedNothing(out: string)
    ensures Slugged(out, "") == out
  {
  }

  lemma FoldedEnds(word: string, out: string)
    requires IsWord(word)
    ensures var first := out + Folded(word); first != [] && first[|first| - 1] != '-'
  {
    assert IsSpoken(word[|word| - 1]);
    assert Folded(word)[|word| - 1] == FoldAccent(word[|word| - 1]);
  }

  lemma SpokenUnfolds(words: seq<string>, gaps: seq<string>)
    requires |words| == |gaps| && words != []
    ensures Spoken(words, gaps) == words[0] + (gaps[0] + Spoken(words[1..], gaps[1..]))
    ensures |words| == 1 ==> Spoken(words[1..], gaps[1..]) == ""
  {
  }

  lemma HyphenatedUnfolds(words: seq<string>)
    requires words != []
    ensures Hyphenated(words)
         == if |words| == 1 then Folded(words[0]) else Folded(words[0]) + ("-" + Hyphenated(words[1..]))
  {
  }

  /** A name of words is suggested as those words, without accents and with one hyphen for each gap. */
  lemma NameBecomesHandle(words: seq<string>, gaps: seq<string>)
    requires |words| == |gaps| && words != []
    requires forall k :: 0 <= k < |words| ==> IsWord(words[k]) && IsGap(gaps[k])
    requires forall k :: 0 <= k < |gaps| - 1 ==> gaps[k] != []
    requires IsHandle(Hyphenated(words))
    ensures Suggestion(Spoken(words, gaps)) == Some(Hyphenated(words))
  {
    var h, end := Hyphenated(words), if gaps[|gaps| - 1] == [] then "" else "-";
    WordsAreHyphenated([], words, gaps);
    LastIsNoHyphen(words);
    hide FoldAccent, Slugged, Parse, Hyphenated, TrimHyphens, IsWord, IsGap;
    assert [] + h + end == h + end;
    assert TrimToLetter(h + end) == h + end;
    TrimEndOf(h, end);
    ParseAcceptsHandles(h);
  }

  lemma {:induction false} LastIsNoHyphen(words: seq<string>)
    requires words != [] && forall k :: 0 <= k < |words| ==> IsWord(words[k])
    ensures Hyphenated(words) != [] && Hyphenated(words)[|Hyphenated(words)| - 1] != '-'
    decreases |words|
  {
    if |words| > 1 {
      LastIsNoHyphen(words[1..]);
    } else {
      assert IsSpoken(words[0][|words[0]| - 1]);
      assert Folded(words[0])[|words[0]| - 1] == FoldAccent(words[0][|words[0]| - 1]);
    }
  }

  /** At most one hyphen follows, and it is cut by length or trimmed. */
  lemma TrimEndOf(h: string, end: string)
    requires h != [] && h[|h| - 1] != '-' && |h| <= HANDLE_MAX_LEN && (end == "" || end == "-")
    ensures TrimHyphens(Take(h + end, HANDLE_MAX_LEN)) == h
  {
    NoHyphenToTrim(h);
    assert h + "" == h;
    assert (h + "-")[..|h|] == h;
  }

  /** The example of the documentation. */
  lemma RevisorSenior()
    ensures Suggestion("revisor s\U{ea}nior") == Some("revisor-senior")
  {
    var words, gaps := ["revisor", "s\U{ea}nior"], [" ", ""];
    TwoWords("revisor", "s\U{ea}nior", " ");
    FoldedRevisor();
    FoldedSenior();
    hide Suggestion, Slugged, Spoken, Hyphenated, Folded, FoldAccent;
    NotSpoken();
    assert "revisor" + "-" + "senior" == "revisor-senior";
    assert "revisor" + " " + "s\U{ea}nior" == "revisor s\U{ea}nior";
    ReadsWell();
    hide IsWord, IsGap, IsHandle;
    NameBecomesHandle(words, gaps);
  }

  lemma ReadsWell()
    ensures IsHandle("revisor-senior") && IsGap(" ") && IsGap("")
  {
    NotSpoken();
  }

  lemma NotSpoken()
    ensures !IsSpoken(' ')
  {
  }

  lemma TwoWords(a: string, b: string, gap: string)
    ensures Spoken([a, b], [gap, ""]) == a + gap + b
    ensures Hyphenated([a, b]) == Folded(a) + "-" + Folded(b)
  {
    hide Folded;
    assert [a, b][1..] == [b] && [gap, ""][1..] == [""] && [b][1..] == [] && [""][1..] == [];
    assert Spoken([b], [""]) == b + "" + Spoken([], []) == b;
  }

  lemma FoldedRevisor()
    ensures IsWord("revisor") && Folded("revisor") == "revisor"
  {
  }

  lemma FoldedSenior()
    ensures IsWord("s\U{ea}nior") && Folded("s\U{ea}nior") == "senior"
  {
  }
}
