/** The Wordle verdict and its two encodings (utils.py): the two-pass rule as a
    reference definition, the 2-bit-per-position integer, and the g/y/x string. */
module Feedback {
  import opened Common

  /** Two-bit digit of one position: 0 grey (x), 1 yellow (y), 2 green (g). */
  const Grey: nat := 0
  const Yellow: nat := 1
  const Green: nat := 2

  // ---------------------------------------------------------------------
  // Integers as base-4 digit strings: `<<`, `>>`, `&` and `|` on 2-bit slots

  function Pow4(i: nat): (r: nat)
    ensures r >= 1
  {
    if i == 0 then 1 else 4 * Pow4(i - 1)
  }

  /** `d << (2 * i)` */
  function Shl(d: nat, i: nat): nat {
    d * Pow4(i)
  }

  /** `n >> (2 * i)` */
  function Shr(n: nat, i: nat): nat {
    if i == 0 then n else Shr(n / 4, i - 1)
  }

  /** `(n >> (2 * i)) & 0b11`: the digit of position `i`. */
  function Digit(n: nat, i: nat): (r: nat)
    ensures r < 4
  {
    Shr(n, i) % 4
  }

  /** `x | y` on two-bit values. */
  function OrDigit(x: nat, y: nat): (r: nat)
    requires x < 4 && y < 4
    ensures r < 4
  {
    (if x % 2 == 1 || y % 2 == 1 then 1 else 0) + (if x >= 2 || y >= 2 then 2 else 0)
  }

  /** `x | y` on non-negative integers, taken two bits at a time. */
  function Or(x: nat, y: nat): nat
    decreases x + y
  {
    if x == 0 && y == 0 then 0 else OrDigit(x % 4, y % 4) + 4 * Or(x / 4, y / 4)
  }

  /** The integer whose base-4 digits, least significant first, are `ds`. */
  function Encode(ds: seq<nat>): nat {
    if ds == [] then 0 else ds[0] + 4 * Encode(ds[1..])
  }

  predicate IsDigits(ds: seq<nat>) {
    forall i :: 0 <= i < |ds| ==> ds[i] < 4
  }

  lemma {:induction false} OrZero(x: nat)
    ensures Or(x, 0) == x
    decreases x
  {
    if x != 0 {
      OrZero(x / 4);
    }
  }

  /** OR-ing a digit into a slot that holds 0 adds it. */
  lemma {:induction false} OrIntoClearSlot(n: nat, d: nat, i: nat)
    requires d < 4 && Digit(n, i) == 0
    ensures Or(n, Shl(d, i)) == n + Shl(d, i)
    decreases i
  {
    if i == 0 {
      assert n % 4 == 0;
      if n != 0 || d != 0 {
        OrZero(n / 4);
      }
    } else {
      var q := Shl(d, i - 1);
      ShlNext(d, i - 1);
      assert Digit(n / 4, i - 1) == 0;
      OrIntoClearSlot(n / 4, d, i - 1);
      OrQuad(n, q);
    }
  }

  /** One step of `|` against a value with a clear low slot. */
  lemma OrQuad(n: nat, q: nat)
    ensures Or(n, 4 * q) == n % 4 + 4 * Or(n / 4, q)
  {
    assert (4 * q) % 4 == 0 && (4 * q) / 4 == q;
  }

  lemma ShlNext(d: nat, i: nat)
    ensures Shl(d, i + 1) == 4 * Shl(d, i)
  {
    MulFour(d, Pow4(i));
  }

  lemma MulFour(d: nat, p: nat)
    ensures d * (4 * p) == 4 * (d * p)
  {
  }

  lemma EncodeStep(ds: seq<nat>)
    requires ds != [] && IsDigits(ds)
    ensures Encode(ds) % 4 == ds[0] && Encode(ds) / 4 == Encode(ds[1..])
  {
  }

  lemma {:induction false} ShrZero(k: nat)
    ensures Shr(0, k) == 0
  {
    if k > 0 {
      ShrZero(k - 1);
    }
  }

  lemma {:induction false} ShrEncode(ds: seq<nat>, i: nat)
    requires IsDigits(ds) && i <= |ds|
    ensures Shr(Encode(ds), i) == Encode(ds[i..])
    decreases i
  {
    if i > 0 {
      EncodeStep(ds);
      ShrEncode(ds[1..], i - 1);
      assert ds[1..][i - 1..] == ds[i..];
    }
  }

  /** Reading digit `i` back out of an encoding gives the `i`-th digit, and 0
      past the end. */
  lemma DigitEncode(ds: seq<nat>, i: nat)
    requires IsDigits(ds)
    ensures Digit(Encode(ds), i) == if i < |ds| then ds[i] else 0
  {
    if i < |ds| {
      ShrEncode(ds, i);
      EncodeStep(ds[i..]);
    } else {
      ShrEncode(ds, |ds|);
      assert ds[|ds|..] == [];
      ShrAdd(Encode(ds), |ds|, i - |ds|);
      ShrZero(i - |ds|);
    }
  }

  lemma {:induction false} ShrAdd(n: nat, i: nat, j: nat)
    ensures Shr(n, i + j) == Shr(Shr(n, i), j)
    decreases i
  {
    if i > 0 {
      ShrAdd(n / 4, i - 1, j);
    }
  }

  lemma {:induction false} EncodeBound(ds: seq<nat>)
    requires IsDigits(ds)
    ensures Encode(ds) < Pow4(|ds|)
  {
    if ds != [] {
      EncodeBound(ds[1..]);
    }
  }

  lemma ShlSucc(x: nat, i: nat)
    ensures Shl(x, i + 1) == 4 * Shl(x, i)
  {
    assert Pow4(i + 1) == 4 * Pow4(i);
  }

  /** Replacing one digit changes the encoding by the two shifted digits. */
  lemma {:induction false} EncodeSet(ds: seq<nat>, i: nat, d: nat)
    requires i < |ds|
    ensures Encode(ds[i := d]) + Shl(ds[i], i) == Encode(ds) + Shl(d, i)
    decreases i
  {
    var es := ds[i := d];
    if i == 0 {
      assert es[1..] == ds[1..];
      assert Encode(es) == d + 4 * Encode(ds[1..]);
    } else {
      assert es[1..] == ds[1..][i - 1 := d];
      EncodeSet(ds[1..], i - 1, d);
      ShlSucc(ds[i], i - 1);
      ShlSucc(d, i - 1);
      assert Encode(es) == ds[0] + 4 * Encode(es[1..]);
    }
  }

  /** The first `L` digits of `n`. */
  function DigitsOf(n: nat, L: nat): (ds: seq<nat>)
    ensures |ds| == L && IsDigits(ds)
  {
    seq(L, (i: int) requires 0 <= i < L => Digit(n, i))
  }

  lemma {:induction false} EncodeDigitsOf(n: nat, L: nat)
    requires n < Pow4(L)
    ensures Encode(DigitsOf(n, L)) == n
    decreases L
  {
    if L == 0 {
    } else {
      var ds := DigitsOf(n, L);
      assert ds[1..] == DigitsOf(n / 4, L - 1);
      EncodeDigitsOf(n / 4, L - 1);
    }
  }

  // ---------------------------------------------------------------------
  // The verdict: greens first, then yellows from the remaining letters

  /** Letters of `g` that stand where `a` has the same letter. */
  function GreenLetters(g: Word, a: Word): multiset<char>
    requires |g| <= |a|
  {
    if g == [] then multiset{}
    else (if g[0] == a[0] then multiset{g[0]} else multiset{}) + GreenLetters(g[1..], a[1..])
  }

  /** Copies of the answer's letters that no green consumed: the counts
      `answer_letter_counts` holds after the first pass. */
  function Unmatched(g: Word, a: Word): multiset<char>
    requires |g| <= |a|
  {
    multiset(a) - GreenLetters(g, a)
  }

  /** Second pass over aligned suffixes `gs` of the guess and `ans` of the
      answer, with `rem` the copies still available for yellows. */
  function Pass2(gs: Word, ans: Word, rem: multiset<char>): (ms: seq<nat>)
    requires |gs| == |ans|
    ensures |ms| == |gs|
  {
    if gs == [] then []
    else if gs[0] == ans[0] then [Green] + Pass2(gs[1..], ans[1..], rem)
    else if gs[0] in rem then [Yellow] + Pass2(gs[1..], ans[1..], rem - multiset{gs[0]})
    else [Grey] + Pass2(gs[1..], ans[1..], rem)
  }

  /** The digit of every position of `g`, scored against `a`. */
  function Marks(g: Word, a: Word): (ms: seq<nat>)
    requires |g| <= |a|
    ensures |ms| == |g|
  {
    Pass2(g, a[..|g|], Unmatched(g, a))
  }

  /** The integer `get_feedback(g, a)` returns. */
  function Code(g: Word, a: Word): nat
    requires |g| <= |a|
  {
    Encode(Marks(g, a))
  }

  function MarkChar(d: nat): char {
    if d == 2 then 'g' else if d == 1 then 'y' else 'x'
  }

  function MarkDigit(c: char): nat {
    if c == 'g' then 2 else if c == 'y' then 1 else 0
  }

  /** The g/y/x string of a digit sequence. */
  function Chars(ms: seq<nat>): (s: string)
    ensures |s| == |ms|
  {
    seq(|ms|, i requires 0 <= i < |ms| => MarkChar(ms[i]))
  }

  /** The string verdict of `g` against `a`. */
  function MarkString(g: Word, a: Word): (s: string)
    requires |g| <= |a|
    ensures |s| == |g|
  {
    Chars(Marks(g, a))
  }

  /** What `format_feedback(n, L)` returns. */
  function FormatSpec(n: nat, L: nat): (s: string)
    ensures |s| == L
  {
    seq(L, (i: int) requires 0 <= i < L => MarkChar(Digit(n, i)))
  }

  /** The digits `intify_feedback` reads off a string. */
  function StringDigits(s: string): (ds: seq<nat>)
    ensures |ds| == |s| && IsDigits(ds)
  {
    seq(|s|, i requires 0 <= i < |s| => MarkDigit(s[i]))
  }

  /** What `intify_feedback(s)` returns. */
  function IntifySpec(s: string): nat {
    Encode(StringDigits(s))
  }

  predicate IsFeedbackString(s: string) {
    forall i :: 0 <= i < |s| ==> s[i] == 'g' || s[i] == 'y' || s[i] == 'x'
  }

  // ---------------------------------------------------------------------
  // Counting positions

  /** Positions `k` with `gs[k] == c` whose digit is `d`. */
  function MarkCount(gs: Word, ms: seq<nat>, c: char, d: nat): nat
    requires |gs| == |ms|
  {
    if gs == [] then 0
    else (if gs[0] == c && ms[0] == d then 1 else 0) + MarkCount(gs[1..], ms[1..], c, d)
  }

  /** Positions where both words hold `c`. */
  function Matched(gs: Word, ans: Word, c: char): nat
    requires |gs| == |ans|
  {
    if gs == [] then 0
    else (if gs[0] == c && ans[0] == c then 1 else 0) + Matched(gs[1..], ans[1..], c)
  }

  /** Positions where the guess holds `c` and the answer something else. */
  function Unequal(gs: Word, ans: Word, c: char): nat
    requires |gs| == |ans|
  {
    if gs == [] then 0
    else (if gs[0] == c && ans[0] != c then 1 else 0) + Unequal(gs[1..], ans[1..], c)
  }

  /** Copies of `c` in the guess that scored green or yellow. */
  function Scored(g: Word, a: Word, c: char): nat
    requires |g| <= |a|
  {
    MarkCount(g, Marks(g, a), c, Green) + MarkCount(g, Marks(g, a), c, Yellow)
  }

  lemma {:induction false} CountSplit(gs: Word, ans: Word, c: char)
    requires |gs| == |ans|
    ensures Matched(gs, ans, c) + Unequal(gs, ans, c) == Count(gs, c)
  {
    if gs != [] {
      assert gs == [gs[0]] + gs[1..];
      CountSplit(gs[1..], ans[1..], c);
    }
  }

  lemma {:induction false} GreenLettersCount(g: Word, a: Word, c: char)
    requires |g| <= |a|
    ensures GreenLetters(g, a)[c] == Matched(g, a[..|g|], c)
  {
    if g != [] {
      GreenLettersCount(g[1..], a[1..], c);
      assert a[..|g|][1..] == a[1..][..|g| - 1];
    }
  }

  /** Greens only consume letters the answer has. */
  lemma {:induction false} GreenLettersWithin(g: Word, a: Word)
    requires |g| <= |a|
    ensures GreenLetters(g, a) <= multiset(a)
  {
    if g != [] {
      GreenLettersWithin(g[1..], a[1..]);
      assert a == [a[0]] + a[1..];
      assert multiset(a) == multiset{a[0]} + multiset(a[1..]);
    }
  }

  /** The second pass, position by position: a non-green position is yellow
      exactly while fewer earlier yellows of its letter have been handed out
      than copies remain. */
  lemma {:induction false} Pass2At(gs: Word, ans: Word, rem: multiset<char>, k: nat)
    requires |gs| == |ans| && k < |gs|
    ensures var ms := Pass2(gs, ans, rem);
      ms[k] == if gs[k] == ans[k] then Green
               else if MarkCount(gs[..k], ms[..k], gs[k], Yellow) < rem[gs[k]] then Yellow
               else Grey
    decreases k
  {
    var ms := Pass2(gs, ans, rem);
    if k > 0 {
      var rem' := if gs[0] != ans[0] && gs[0] in rem then rem - multiset{gs[0]} else rem;
      var ms' := Pass2(gs[1..], ans[1..], rem');
      assert ms == [ms[0]] + ms';
      Pass2At(gs[1..], ans[1..], rem', k - 1);
      assert gs[..k][1..] == gs[1..][..k - 1];
      assert ms[..k][1..] == ms'[..k - 1];
    }
  }

  /** Per letter, the second pass hands out min(unmatched guess copies,
      remaining answer copies) yellows; the rest are grey. */
  lemma {:induction false} Pass2Tally(gs: Word, ans: Word, rem: multiset<char>, c: char)
    requires |gs| == |ans|
    ensures var ms := Pass2(gs, ans, rem);
      && MarkCount(gs, ms, c, Green) == Matched(gs, ans, c)
      && MarkCount(gs, ms, c, Yellow) == Min(Unequal(gs, ans, c), rem[c])
      && MarkCount(gs, ms, c, Grey) == Unequal(gs, ans, c) - Min(Unequal(gs, ans, c), rem[c])
  {
    if gs != [] {
      var rem' := if gs[0] != ans[0] && gs[0] in rem then rem - multiset{gs[0]} else rem;
      Pass2Tally(gs[1..], ans[1..], rem', c);
    }
  }

  lemma {:induction false} MarkCountPositive(gs: Word, ms: seq<nat>, k: nat)
    requires |gs| == |ms| && k < |gs|
    ensures MarkCount(gs, ms, gs[k], ms[k]) >= 1
    decreases k
  {
    if k > 0 {
      MarkCountPositive(gs[1..], ms[1..], k - 1);
    }
  }

  // ---------------------------------------------------------------------
  // Properties of the verdict

  /** Digit `k` of the verdict: 2 exactly where the letters agree; otherwise
      1 while the yellows already handed out to that letter, left to right,
      are fewer than the answer's unmatched copies; otherwise 0. */
  lemma MarkAt(g: Word, a: Word, k: nat)
    requires |g| <= |a| && k < |g|
    ensures var ms := Marks(g, a);
      ms[k] == if g[k] == a[k] then Green
               else if MarkCount(g[..k], ms[..k], g[k], Yellow) < Unmatched(g, a)[g[k]] then Yellow
               else Grey
  {
    Pass2At(g, a[..|g|], Unmatched(g, a), k);
  }

  /** For every letter, the greens and yellows it receives number
      min(copies in the guess, copies in the answer). */
  lemma LetterTally(g: Word, a: Word, c: char)
    requires |g| <= |a|
    ensures Scored(g, a, c) == Min(Count(g, c), Count(a, c))
  {
    var ans := a[..|g|];
    Pass2Tally(g, ans, Unmatched(g, a), c);
    CountSplit(g, ans, c);
    GreenLettersCount(g, a, c);
    GreenLettersWithin(g, a);
  }

  /** A grey letter means every copy of it in the answer went to a green or
      a yellow of the same guess. */
  lemma GreyExhausts(g: Word, a: Word, k: nat)
    requires |g| <= |a| && k < |g| && Marks(g, a)[k] == Grey
    ensures Scored(g, a, g[k]) == Count(a, g[k])
    ensures Count(a, g[k]) <= Count(g, g[k]) - 1
  {
    var c, ans, ms := g[k], a[..|g|], Marks(g, a);
    Pass2Tally(g, ans, Unmatched(g, a), c);
    CountSplit(g, ans, c);
    GreenLettersCount(g, a, c);
    GreenLettersWithin(g, a);
    MarkCountPositive(g, ms, k);
  }

  /** A yellow letter occurs in the answer, though not at that position. */
  lemma YellowPresent(g: Word, a: Word, k: nat)
    requires |g| <= |a| && k < |g| && Marks(g, a)[k] == Yellow
    ensures g[k] != a[k] && g[k] in multiset(a)
  {
    MarkAt(g, a, k);
    GreenLettersWithin(g, a);
  }

  lemma MarksAreDigits(g: Word, a: Word)
    requires |g| <= |a|
    ensures IsDigits(Marks(g, a))
    ensures forall k :: 0 <= k < |g| ==> Marks(g, a)[k] <= 2
  {
    forall k | 0 <= k < |g| ensures Marks(g, a)[k] <= 2 {
      MarkAt(g, a, k);
    }
  }

  /** The integer is below 4^|g|, each 2-bit digit is the position's verdict
      (so never 3), and a digit is 2 exactly where guess and answer agree. */
  lemma CodeDigits(g: Word, a: Word)
    requires |g| <= |a|
    ensures Code(g, a) < Pow4(|g|)
    ensures forall i :: 0 <= i < |g| ==> Digit(Code(g, a), i) == Marks(g, a)[i] && Digit(Code(g, a), i) != 3
    ensures forall i :: 0 <= i < |g| ==> (Digit(Code(g, a), i) == Green <==> g[i] == a[i])
  {
    MarksAreDigits(g, a);
    EncodeBound(Marks(g, a));
    forall i | 0 <= i < |g|
      ensures Digit(Code(g, a), i) == Marks(g, a)[i]
      ensures Digit(Code(g, a), i) == Green <==> g[i] == a[i]
    {
      DigitEncode(Marks(g, a), i);
      MarkAt(g, a, i);
    }
  }

  /** `format_feedback(get_feedback(g, a), len(g))` is the string verdict. */
  lemma FormatCode(g: Word, a: Word)
    requires |g| <= |a|
    ensures FormatSpec(Code(g, a), |g|) == MarkString(g, a)
  {
    CodeDigits(g, a);
  }

  /** g/y/x strings survive `intify_feedback` then `format_feedback`. */
  lemma FormatIntify(s: string)
    requires IsFeedbackString(s)
    ensures FormatSpec(IntifySpec(s), |s|) == s
  {
    forall i | 0 <= i < |s| ensures FormatSpec(IntifySpec(s), |s|)[i] == s[i] {
      DigitEncode(StringDigits(s), i);
    }
  }

  /** An integer below 4^L with no digit 3 survives `format_feedback` then
      `intify_feedback`. */
  lemma IntifyFormat(n: nat, L: nat)
    requires n < Pow4(L)
    requires forall i :: 0 <= i < L ==> Digit(n, i) != 3
    ensures IntifySpec(FormatSpec(n, L)) == n
  {
    assert StringDigits(FormatSpec(n, L)) == DigitsOf(n, L);
    EncodeDigitsOf(n, L);
  }

  /** `format_feedback` writes 'x' for digit 0 and for digit 3 alike. */
  lemma FormatCollapses(n: nat, L: nat, i: nat)
    requires i < L
    ensures FormatSpec(n, L)[i] == 'x' <==> Digit(n, i) == 0 || Digit(n, i) == 3
  {
  }

  /** `intify_feedback` reads 'g' as 2, 'y' as 1 and every other character as 0. */
  lemma IntifyDigit(s: string, i: nat)
    requires i < |s|
    ensures Digit(IntifySpec(s), i) == if s[i] == 'g' then 2 else if s[i] == 'y' then 1 else 0
  {
    DigitEncode(StringDigits(s), i);
  }

  lemma FormatKnownMarks(g: Word, a: Word, ms: seq<nat>)
    requires |g| <= |a| && Marks(g, a) == ms
    ensures FormatSpec(Code(g, a), |g|) == Chars(ms)
  {
    FormatCode(g, a);
  }

  /** The verdict from the unmatched letters and the second pass over the
      aligned prefix `ans` of the answer. */
  lemma MarksOf(g: Word, a: Word, ans: Word, u: multiset<char>, ms: seq<nat>)
    requires |g| <= |a| && a[..|g|] == ans && Unmatched(g, a) == u && Pass2(g, ans, u) == ms
    ensures Marks(g, a) == ms
  {
  }

  lemma MarksOfEqualLength(g: Word, a: Word, u: multiset<char>, ms: seq<nat>)
    requires |g| == |a| && Unmatched(g, a) == u && Pass2(g, a, u) == ms
    ensures Marks(g, a) == ms
  {
    assert a[..|g|] == a;
    MarksOf(g, a, a, u, ms);
  }

  lemma SpeltLetters() ensures multiset("spelt") == multiset{'s', 'p', 'e', 'l', 't'} {}
  lemma SellsSpeltGreens() ensures GreenLetters("sells", "spelt") == multiset{'s', 'l'} {}
  lemma SellsSpeltLeft() ensures multiset{'s', 'p', 'e', 'l', 't'} - multiset{'s', 'l'} == multiset{'p', 'e', 't'} {}

  lemma SellsSpeltPass2()
    ensures Pass2("sells", "spelt", multiset{'p', 'e', 't'}) == [Green, Yellow, Grey, Green, Grey]
  {
    var u := multiset{'p', 'e', 't'};
    var ut := u - multiset{'e'};
    assert 'l' !in ut && 's' !in ut && 'e' in u;
    assert Pass2("s", "t", ut) == [Grey];
    assert Pass2("ls", "lt", ut) == [Green, Grey];
    assert Pass2("lls", "elt", ut) == [Grey, Green, Grey];
    assert Pass2("ells", "pelt", u) == [Yellow, Grey, Green, Grey];
  }

  lemma CharsGYXGX() ensures Chars([Green, Yellow, Grey, Green, Grey]) == "gyxgx" {}

  /** Repeated letters: "sells" against "spelt" scores green, yellow,
      grey, green, grey; the second 'l' and the last 's' find no copy left. */
  lemma SellsSpelt()
    ensures Marks("sells", "spelt") == [Green, Yellow, Grey, Green, Grey]
    ensures FormatSpec(Code("sells", "spelt"), 5) == "gyxgx"
  {
    SpeltLetters();
    SellsSpeltGreens();
    SellsSpeltLeft();
    SellsSpeltPass2();
    MarksOfEqualLength("sells", "spelt", multiset{'p', 'e', 't'}, [Green, Yellow, Grey, Green, Grey]);
    FormatKnownMarks("sells", "spelt", [Green, Yellow, Grey, Green, Grey]);
    CharsGYXGX();
  }

  lemma RaiseLetters() ensures multiset("raise") == multiset{'r', 'a', 'i', 's', 'e'} {}
  lemma AriseRaiseGreens() ensures GreenLetters("arise", "raise") == multiset{'i', 's', 'e'} {}
  lemma AriseRaiseLeft() ensures multiset{'r', 'a', 'i', 's', 'e'} - multiset{'i', 's', 'e'} == multiset{'r', 'a'} {}

  lemma AriseRaiseUnmatched() ensures Unmatched("arise", "raise") == multiset{'r', 'a'} {
    RaiseLetters();
    AriseRaiseGreens();
    AriseRaiseLeft();
  }

  lemma AriseRaisePass2()
    ensures Pass2("arise", "raise", multiset{'r', 'a'}) == [Yellow, Yellow, Green, Green, Green]
  {
    assert multiset{'r', 'a'} - multiset{'a'} == multiset{'r'};
    assert multiset{'r'} - multiset{'r'} == multiset{};
    assert Pass2("ise", "ise", multiset{}) == [Green, Green, Green];
    assert Pass2("rise", "aise", multiset{'r'}) == [Yellow, Green, Green, Green];
  }

  lemma CharsYYGGG() ensures Chars([Yellow, Yellow, Green, Green, Green]) == "yyggg" {}

  /** Displaced letters: "arise" against "raise" scores yellow, yellow,
      green, green, green. */
  lemma AriseRaise()
    ensures Marks("arise", "raise") == [Yellow, Yellow, Green, Green, Green]
    ensures FormatSpec(Code("arise", "raise"), 5) == "yyggg"
  {
    AriseRaiseMarks();
    FormatKnownMarks("arise", "raise", [Yellow, Yellow, Green, Green, Green]);
    CharsYYGGG();
  }

  lemma AriseRaiseMarks()
    ensures Marks("arise", "raise") == [Yellow, Yellow, Green, Green, Green]
  {
    AriseRaiseUnmatched();
    AriseRaisePass2();
    MarksOfEqualLength("arise", "raise", multiset{'r', 'a'}, [Yellow, Yellow, Green, Green, Green]);
  }
}
