/** The integer feedback codec of utils.py: the two scoring procedures over a
    26-slot count array, the memo table they share, and the conversions to
    and from the g/y/x string. */
module Codec {
  import opened Common
  import opened Feedback

  // ---------------------------------------------------------------------
  // `old_get_feedback` tallies only the first len(guess) answer letters

  /** The digits `old_get_feedback` produces: its count loop and both
      passes only read the first len(guess) letters of the answer. */
  function OldMarks(g: Word, a: Word): (ms: seq<nat>)
    requires |g| <= |a|
    ensures |ms| == |g|
  {
    Marks(g, a[..|g|])
  }

  /** The integer `old_get_feedback(g, a)` returns. */
  function OldCode(g: Word, a: Word): nat
    requires |g| <= |a|
  {
    Encode(OldMarks(g, a))
  }

  /** On words of equal length the two procedures agree. */
  lemma OldCodeAgrees(g: Word, a: Word)
    requires |g| == |a|
    ensures OldCode(g, a) == Code(g, a)
  {
    assert a[..|g|] == a;
  }

  lemma AbPrefix() ensures "cba"[..2] == "cb" {}
  lemma AbCbaGreens() ensures GreenLetters("ab", "cba") == multiset{'b'} {}
  lemma AbCbGreens() ensures GreenLetters("ab", "cb") == multiset{'b'} {}
  lemma AbCbaLeft() ensures multiset("cba") - multiset{'b'} == multiset{'c', 'a'} {}
  lemma AbCbLeft() ensures multiset("cb") - multiset{'b'} == multiset{'c'} {}

  lemma AbCbaMarks()
    ensures Marks("ab", "cba") == [Yellow, Green]
  {
    AbPrefix();
    AbCbaGreens();
    AbCbaLeft();
    assert Pass2("ab", "cb", multiset{'c', 'a'}) == [Yellow, Green] by {
      assert multiset{'c', 'a'} - multiset{'a'} == multiset{'c'};
      assert Pass2("b", "b", multiset{'c'}) == [Green];
    }
    MarksOf("ab", "cba", "cb", multiset{'c', 'a'}, [Yellow, Green]);
  }

  lemma AbCbaOldMarks()
    ensures OldMarks("ab", "cba") == [Grey, Green]
  {
    AbPrefix();
    AbCbGreens();
    AbCbLeft();
    assert "cb"[..2] == "cb";
    assert Pass2("ab", "cb", multiset{'c'}) == [Grey, Green] by {
      assert Pass2("b", "b", multiset{'c'}) == [Green];
    }
    MarksOf("ab", "cb", "cb", multiset{'c'}, [Grey, Green]);
  }

  /** A longer answer can change the verdict: its trailing letters feed
      yellows in `get_feedback` but not in `old_get_feedback`. */
  lemma OldCodeDiffers()
    ensures Code("ab", "cba") == 9 && OldCode("ab", "cba") == 8
  {
    AbCbaMarks();
    AbCbaOldMarks();
    assert [Yellow, Green][1..] == [Green] && [Grey, Green][1..] == [Green];
    assert Encode([Green]) == 2 by {
      assert [Green][1..] == [];
    }
  }

  // ---------------------------------------------------------------------
  // `ord_dict`

  /** `ord_dict[c]` */
  function Ord(c: char): (k: nat)
    requires 'a' <= c <= 'z'
    ensures k < 26
  {
    (c as int) - ('a' as int)
  }

  /** The letter `ord_dict` maps to `k`. */
  function Letter(k: nat): (c: char)
    requires k < 26
    ensures 'a' <= c <= 'z' && Ord(c) == k
  {
    (('a' as int) + k) as char
  }

  lemma OrdInjective(c: char, d: char)
    requires 'a' <= c <= 'z' && 'a' <= d <= 'z'
    ensures Ord(c) == Ord(d) <==> c == d
  {
  }

  /** The 26-slot array holds the count of each letter in `m`. */
  ghost predicate Tallies(counts: seq<int>, m: multiset<char>)
  {
    counts == TallySeq(m)
  }

  /** The count of each letter 'a'..'z' in `m`, by `ord_dict` slot. */
  ghost function TallySeq(m: multiset<char>): (counts: seq<int>)
    ensures |counts| == 26
  {
    seq(26, (k: int) requires 0 <= k < 26 => m[Letter(k)])
  }

  // ---------------------------------------------------------------------
  // Encoding helpers for the loops

  lemma {:induction false} GreenLettersSnoc(g: Word, a: Word, i: nat)
    requires i < |g| <= |a|
    ensures GreenLetters(g[..i + 1], a)
         == GreenLetters(g[..i], a) + (if g[i] == a[i] then multiset{g[i]} else multiset{})
    decreases i
  {
    if i > 0 {
      GreenLettersSnoc(g[1..], a[1..], i - 1);
      assert g[..i + 1][1..] == g[1..][..i];
      assert g[..i][1..] == g[1..][..i - 1];
    }
  }

  lemma {:induction false} EncodeZeros(n: nat)
    ensures Encode(seq(n, _ => 0)) == 0
  {
    if n > 0 {
      assert seq(n, _ => 0)[1..] == seq(n - 1, _ => 0);
      EncodeZeros(n - 1);
    }
  }

  /** ORing a digit into the first empty slot appends it. */
  lemma OrSnoc(ds: seq<nat>, d: nat)
    requires IsDigits(ds) && d < 4
    ensures Or(Encode(ds), Shl(d, |ds|)) == Encode(ds + [d])
  {
    DigitEncode(ds, |ds|);
    OrIntoClearSlot(Encode(ds), d, |ds|);
    EncodeSnoc(ds, d);
  }

  lemma {:induction false} EncodeSnoc(ds: seq<nat>, d: nat)
    ensures Encode(ds + [d]) == Encode(ds) + Shl(d, |ds|)
  {
    if ds != [] {
      var rest := ds[1..];
      assert (ds + [d])[1..] == rest + [d];
      EncodeSnoc(rest, d);
      ShlNext(d, |rest|);
    }
  }


  /** ORing a digit into slot `i` of an encoding whose slot `i` is 0
      writes that digit. */
  lemma OrSet(ds: seq<nat>, i: nat, d: nat)
    requires IsDigits(ds) && i < |ds| && ds[i] == 0 && d < 4
    ensures Or(Encode(ds), Shl(d, i)) == Encode(ds[i := d])
  {
    DigitEncode(ds, i);
    OrIntoClearSlot(Encode(ds), d, i);
    EncodeSet(ds, i, d);
  }

  lemma SlotAdd(counts: seq<int>, m: multiset<char>, c: char)
    requires Tallies(counts, m) && 'a' <= c <= 'z'
    ensures Tallies(counts[Ord(c) := counts[Ord(c)] + 1], m + multiset{c})
  {
  }

  lemma SlotTake(counts: seq<int>, m: multiset<char>, c: char)
    requires Tallies(counts, m) && 'a' <= c <= 'z' && c in m
    ensures Tallies(counts[Ord(c) := counts[Ord(c)] - 1], m - multiset{c})
  {
  }

  lemma SlotPositive(counts: seq<int>, m: multiset<char>, c: char)
    requires Tallies(counts, m) && 'a' <= c <= 'z'
    ensures c in m <==> counts[Ord(c)] > 0
  {
  }

  /** Taking one more green copy out of the answer's letters. */
  lemma TakeGreen(m: multiset<char>, gs: multiset<char>, c: char)
    requires gs + multiset{c} <= m
    ensures c in m - gs && (m - gs) - multiset{c} == m - (gs + multiset{c})
  {
  }

  /** `green_positions` once the first pass has covered positions before `i`. */
  function GreenPositions(g: Word, a: Word, i: nat): seq<int>
    requires i <= |g| <= |a|
  {
    if i == 0 then [] else GreenPositions(g, a, i - 1) + (if g[i - 1] == a[i - 1] then [i - 1] else [])
  }

  lemma {:induction false} GreenPositionsMember(g: Word, a: Word, i: nat, k: int)
    requires i <= |g| <= |a|
    ensures k in GreenPositions(g, a, i) <==> 0 <= k < i && g[k] == a[k]
  {
    if i > 0 {
      GreenPositionsMember(g, a, i - 1, k);
    }
  }

  /** The digit array after the first pass has covered positions before `i`. */
  ghost function FirstPassDigits(g: Word, a: Word, i: nat): (ds: seq<nat>)
    requires |g| <= |a|
    ensures |ds| == |g| && IsDigits(ds)
  {
    seq(|g|, (k: int) requires 0 <= k < |g| => if k < i && g[k] == a[k] then Green else Grey)
  }

  lemma FirstPassStep(g: Word, a: Word, i: nat)
    requires i < |g| <= |a|
    ensures FirstPassDigits(g, a, i)[i] == Grey
    ensures FirstPassDigits(g, a, i + 1)
         == if g[i] == a[i] then FirstPassDigits(g, a, i)[i := Green] else FirstPassDigits(g, a, i)
  {
  }

  lemma {:induction false} GreenLettersGrow(g: Word, a: Word, j: nat)
    requires j <= |g| <= |a|
    ensures GreenLetters(g[..j], a) <= GreenLetters(g, a)
    decreases |g| - j
  {
    if j < |g| {
      GreenLettersSnoc(g, a, j);
      GreenLettersGrow(g, a, j + 1);
    } else {
      assert g[..j] == g;
    }
  }

  /** What the second pass of `get_feedback` keeps: positions before `i`
      carry their final digit, later ones the first-pass digit, and the
      verdict after `i` is the second pass from `rem`. */
  ghost predicate SecondPassInv(guess: Word, answer: Word, i: nat, rem: multiset<char>, feedbackNum: nat)
    requires |guess| <= |answer|
  {
    var ms, fp := Marks(guess, answer), FirstPassDigits(guess, answer, |guess|);
    && i <= |guess|
    && ms[i..] == Pass2(guess[i..], answer[i..|guess|], rem)
    && feedbackNum == Encode(ms[..i] + fp[i..])
  }

  lemma SecondPassStart(guess: Word, answer: Word)
    requires |guess| <= |answer|
    ensures SecondPassInv(guess, answer, 0, Unmatched(guess, answer), Encode(FirstPassDigits(guess, answer, |guess|)))
  {
    var ms, fp := Marks(guess, answer), FirstPassDigits(guess, answer, |guess|);
    assert guess[0..] == guess && ms[0..] == ms && ms[..0] + fp[0..] == fp;
  }

  lemma SecondPassEnd(guess: Word, answer: Word, rem: multiset<char>, feedbackNum: nat)
    requires |guess| <= |answer| && SecondPassInv(guess, answer, |guess|, rem, feedbackNum)
    ensures feedbackNum == Code(guess, answer)
  {
    var ms, fp := Marks(guess, answer), FirstPassDigits(guess, answer, |guess|);
    assert ms[..|guess|] + fp[|guess|..] == ms;
  }

  /** One position of the second pass: a non-green letter still in `rem`
      turns yellow and takes its copy; every other position is left alone. */
  lemma SecondPassStep(guess: Word, answer: Word, i: nat, rem: multiset<char>, feedbackNum: nat)
    requires |guess| <= |answer| && i < |guess| && SecondPassInv(guess, answer, i, rem, feedbackNum)
    ensures guess[i] != answer[i] && guess[i] in rem ==>
      SecondPassInv(guess, answer, i + 1, rem - multiset{guess[i]}, Or(feedbackNum, Shl(Yellow, i)))
    ensures !(guess[i] != answer[i] && guess[i] in rem) ==>
      SecondPassInv(guess, answer, i + 1, rem, feedbackNum)
  {
    var ms, fp := Marks(guess, answer), FirstPassDigits(guess, answer, |guess|);
    var ans := answer[..|guess|];
    assert answer[i..|guess|] == ans[i..] && answer[i + 1..|guess|] == ans[i + 1..];
    assert guess[i..][1..] == guess[i + 1..];
    assert ans[i..][1..] == ans[i + 1..];
    assert ms[i..][1..] == ms[i + 1..];
    assert ms[i] == ms[i..][0];
    var ds := ms[..i] + fp[i..];
    assert ds[i] == fp[i];
    assert ds[i := ms[i]] == ms[..i + 1] + fp[i + 1..];
    MarksAreDigits(guess, answer);
    if guess[i] != answer[i] && guess[i] in rem {
      OrSet(ds, i, Yellow);
    } else {
      assert ds[i := ms[i]] == ds;
    }
  }

  // ---------------------------------------------------------------------
  // The two scoring procedures

  /** `answer_letter_counts` filled from every letter of `w`. */
  method CountLetters(w: Word) returns (counts: array<int>)
    requires IsLower(w)
    ensures fresh(counts) && Tallies(counts[..], multiset(w))
  {
    counts := new int[26](_ => 0);
    for j := 0 to |w|
      invariant Tallies(counts[..], multiset(w[..j]))
    {
      assert w[..j + 1] == w[..j] + [w[j]];
      SlotAdd(counts[..], multiset(w[..j]), w[j]);
      counts[Ord(w[j])] := counts[Ord(w[j])] + 1;
    }
    assert w[..|w|] == w;
  }

  /** The letters left to the second pass once the first pass has covered
      the positions before `i`: each green takes one copy. */
  ghost function GreenLeft(guess: Word, answer: Word, i: nat): multiset<char>
    requires i <= |guess| <= |answer|
  {
    if i == 0 then multiset(answer)
    else GreenLeft(guess, answer, i - 1) - (if guess[i - 1] == answer[i - 1] then multiset{guess[i - 1]} else multiset{})
  }

  lemma {:induction false} GreenLeftIs(guess: Word, answer: Word, i: nat)
    requires i <= |guess| <= |answer|
    ensures GreenLeft(guess, answer, i) == multiset(answer) - GreenLetters(guess[..i], answer)
  {
    if i == 0 {
      assert guess[..0] == [];
    } else {
      GreenLeftIs(guess, answer, i - 1);
      GreenLeftStep(guess, answer, i);
    }
  }

  lemma GreenLeftStep(guess: Word, answer: Word, i: nat)
    requires 0 < i <= |guess| <= |answer|
    requires GreenLeft(guess, answer, i - 1) == multiset(answer) - GreenLetters(guess[..i - 1], answer)
    ensures GreenLeft(guess, answer, i) == multiset(answer) - GreenLetters(guess[..i], answer)
  {
    var x := if guess[i - 1] == answer[i - 1] then multiset{guess[i - 1]} else multiset{};
    GreenLettersSnoc(guess, answer, i - 1);
    assert guess[..i - 1 + 1] == guess[..i];
    SubtractTwice(multiset(answer), GreenLeft(guess, answer, i - 1), GreenLetters(guess[..i - 1], answer),
                  GreenLetters(guess[..i], answer), x);
  }

  lemma SubtractTwice<T>(m: multiset<T>, left: multiset<T>, b: multiset<T>, b': multiset<T>, x: multiset<T>)
    requires left == m - b && b' == b + x
    ensures left - x == m - b'
  {
  }

  lemma GreenDigitsStep(guess: Word, answer: Word, i: nat)
    requires i < |guess| <= |answer|
    ensures Encode(FirstPassDigits(guess, answer, i + 1))
         == if guess[i] == answer[i] then Or(Encode(FirstPassDigits(guess, answer, i)), Shl(Green, i))
            else Encode(FirstPassDigits(guess, answer, i))
  {
    FirstPassStep(guess, answer, i);
    if guess[i] == answer[i] {
      OrSet(FirstPassDigits(guess, answer, i), i, Green);
    }
  }

  /** A green letter still has its copy among the letters left. */
  lemma GreenLeftHas(guess: Word, answer: Word, i: nat)
    requires i < |guess| <= |answer| && guess[i] == answer[i]
    ensures guess[i] in GreenLeft(guess, answer, i)
  {
    GreenLeftIs(guess, answer, i);
    GreenLettersSnoc(guess, answer, i);
    GreenLettersWithin(guess, answer);
    GreenLettersGrow(guess, answer, i + 1);
    TakeGreen(multiset(answer), GreenLetters(guess[..i], answer), guess[i]);
  }

  /** The count array of the first pass of `get_feedback` after positions
      before `i`, from the counts `cs0`. */
  ghost function GreenCounts(guess: Word, answer: Word, cs0: seq<int>, i: nat): (cs: seq<int>)
    requires IsLower(guess) && |guess| <= |answer| && |cs0| == 26 && i <= |guess|
    ensures |cs| == 26
  {
    if i == 0 then cs0
    else
      var cs := GreenCounts(guess, answer, cs0, i - 1);
      var k := Ord(guess[i - 1]);
      if guess[i - 1] == answer[i - 1] then cs[k := cs[k] - 1] else cs
  }

  /** Each green takes one copy of its letter from the counts. */
  lemma {:induction false} GreenCountsLeft(guess: Word, answer: Word, cs0: seq<int>, i: nat)
    requires IsLower(guess) && |guess| <= |answer| && i <= |guess|
    requires Tallies(cs0, multiset(answer))
    ensures Tallies(GreenCounts(guess, answer, cs0, i), GreenLeft(guess, answer, i))
  {
    if i > 0 {
      GreenCountsLeft(guess, answer, cs0, i - 1);
      GreenCountsStep(guess, answer, cs0, i);
    }
  }

  lemma GreenCountsStep(guess: Word, answer: Word, cs0: seq<int>, i: nat)
    requires IsLower(guess) && 0 < i <= |guess| <= |answer| && |cs0| == 26
    requires Tallies(GreenCounts(guess, answer, cs0, i - 1), GreenLeft(guess, answer, i - 1))
    ensures Tallies(GreenCounts(guess, answer, cs0, i), GreenLeft(guess, answer, i))
  {
    if guess[i - 1] == answer[i - 1] {
      GreenLeftHas(guess, answer, i - 1);
      SlotTake(GreenCounts(guess, answer, cs0, i - 1), GreenLeft(guess, answer, i - 1), guess[i - 1]);
    }
  }

  /** One position of the first pass of `get_feedback`: where the letters
      agree, set digit 2, record the position and take that copy. */
  method MarkGreenAt(guess: Word, answer: Word, counts: array<int>, i: nat, ghost cs0: seq<int>,
                     feedbackIn: nat, positionsIn: seq<int>)
    returns (feedbackNum: nat, greenPositions: seq<int>)
    requires IsLower(guess) && IsLower(answer) && i < |guess| <= |answer| && |cs0| == 26
    requires feedbackIn == Encode(FirstPassDigits(guess, answer, i))
    requires positionsIn == GreenPositions(guess, answer, i)
    requires counts[..] == GreenCounts(guess, answer, cs0, i)
    modifies counts
    ensures feedbackNum == Encode(FirstPassDigits(guess, answer, i + 1))
    ensures greenPositions == GreenPositions(guess, answer, i + 1)
    ensures counts[..] == GreenCounts(guess, answer, cs0, i + 1)
  {
    feedbackNum, greenPositions := feedbackIn, positionsIn;
    GreenDigitsStep(guess, answer, i);
    OrdInjective(guess[i], answer[i]);
    if Ord(guess[i]) == Ord(answer[i]) {
      feedbackNum := Or(feedbackIn, Shl(Green, i));
      counts[Ord(guess[i])] := counts[Ord(guess[i])] - 1;
      greenPositions := positionsIn + [i];
    }
  }

  /** First pass of `get_feedback`: set digit 2 where the letters agree,
      record the position and take that copy from the counts. */
  method MarkGreens(guess: Word, answer: Word, counts: array<int>)
    returns (feedbackNum: nat, greenPositions: seq<int>)
    requires IsLower(guess) && IsLower(answer) && |guess| <= |answer|
    requires Tallies(counts[..], multiset(answer))
    modifies counts
    ensures feedbackNum == Encode(FirstPassDigits(guess, answer, |guess|))
    ensures greenPositions == GreenPositions(guess, answer, |guess|)
    ensures Tallies(counts[..], Unmatched(guess, answer))
  {
    ghost var cs0 := counts[..];
    feedbackNum := 0;
    greenPositions := [];
    assert FirstPassDigits(guess, answer, 0) == seq(|guess|, _ => 0);
    EncodeZeros(|guess|);
    for i := 0 to |guess|
      invariant feedbackNum == Encode(FirstPassDigits(guess, answer, i))
      invariant greenPositions == GreenPositions(guess, answer, i)
      invariant counts[..] == GreenCounts(guess, answer, cs0, i)
    {
      feedbackNum, greenPositions := MarkGreenAt(guess, answer, counts, i, cs0, feedbackNum, greenPositions);
    }
    GreenCountsLeft(guess, answer, cs0, |guess|);
    GreenLeftIs(guess, answer, |guess|);
    assert guess[..|guess|] == guess;
  }

  /** One position of the second pass of `get_feedback`: a position that
      is not green gets digit 1 while a copy of its letter is left, and
      takes that copy. */
  method MarkYellowAt(guess: Word, answer: Word, counts: array<int>, greenPositions: seq<int>, i: nat,
                      ghost rem: multiset<char>, feedbackIn: nat)
    returns (feedbackNum: nat, ghost rem': multiset<char>)
    requires IsLower(guess) && IsLower(answer) && i < |guess| <= |answer|
    requires greenPositions == GreenPositions(guess, answer, |guess|)
    requires SecondPassInv(guess, answer, i, rem, feedbackIn) && Tallies(counts[..], rem)
    modifies counts
    ensures SecondPassInv(guess, answer, i + 1, rem', feedbackNum) && Tallies(counts[..], rem')
  {
    feedbackNum, rem' := feedbackIn, rem;
    SecondPassStep(guess, answer, i, rem, feedbackIn);
    GreenPositionsMember(guess, answer, |guess|, i);
    if i !in greenPositions {
      var gOrd := Ord(guess[i]);
      SlotPositive(counts[..], rem, guess[i]);
      if counts[gOrd] > 0 {
        SlotTake(counts[..], rem, guess[i]);
        feedbackNum := Or(feedbackIn, Shl(Yellow, i));
        counts[gOrd] := counts[gOrd] - 1;
        rem' := rem - multiset{guess[i]};
      }
    }
  }

  /** Second pass of `get_feedback`, over every position in turn. */
  method MarkYellows(guess: Word, answer: Word, counts: array<int>, greenPositions: seq<int>, feedbackIn: nat)
    returns (feedbackNum: nat)
    requires IsLower(guess) && IsLower(answer) && |guess| <= |answer|
    requires Tallies(counts[..], Unmatched(guess, answer))
    requires feedbackIn == Encode(FirstPassDigits(guess, answer, |guess|))
    requires greenPositions == GreenPositions(guess, answer, |guess|)
    modifies counts
    ensures feedbackNum == Code(guess, answer)
  {
    feedbackNum := feedbackIn;
    ghost var rem := Unmatched(guess, answer);
    SecondPassStart(guess, answer);
    for i := 0 to |guess|
      invariant SecondPassInv(guess, answer, i, rem, feedbackNum)
      invariant Tallies(counts[..], rem)
    {
      feedbackNum, rem := MarkYellowAt(guess, answer, counts, greenPositions, i, rem, feedbackNum);
    }
    SecondPassEnd(guess, answer, rem, feedbackNum);
  }

  /** The body of `get_feedback` after a memo miss: count every answer
      letter, mark greens and take their copies, then hand out yellows left
      to right while copies remain. */
  method ComputeFeedback(guess: Word, answer: Word) returns (feedbackNum: nat)
    requires IsLower(guess) && IsLower(answer) && |guess| <= |answer|
    ensures feedbackNum == Code(guess, answer)
  {
    var counts := CountLetters(answer);
    var greenPositions;
    feedbackNum, greenPositions := MarkGreens(guess, answer, counts);
    feedbackNum := MarkYellows(guess, answer, counts, greenPositions, feedbackNum);
  }

  /** Second pass of `old_get_feedback` on the digit array: as
      `SecondPassInv`, with the digits held in `ds` instead of packed. */
  ghost predicate DigitPassInv(guess: Word, ans: Word, i: nat, rem: multiset<char>, ds: seq<int>)
    requires |guess| == |ans|
  {
    var ms, fp := Marks(guess, ans), FirstPassDigits(guess, ans, |guess|);
    && i <= |guess|
    && ms[i..] == Pass2(guess[i..], ans[i..], rem)
    && ds == ms[..i] + fp[i..]
  }

  lemma DigitPassStart(guess: Word, ans: Word)
    requires |guess| == |ans|
    ensures DigitPassInv(guess, ans, 0, Unmatched(guess, ans), FirstPassDigits(guess, ans, |guess|))
  {
    var ms, fp := Marks(guess, ans), FirstPassDigits(guess, ans, |guess|);
    assert guess[0..] == guess && ans[..|guess|] == ans[0..] == ans && ms[0..] == ms && ms[..0] + fp[0..] == fp;
  }

  lemma DigitPassEnd(guess: Word, ans: Word, rem: multiset<char>, ds: seq<int>)
    requires |guess| == |ans| && DigitPassInv(guess, ans, |guess|, rem, ds)
    ensures ds == Marks(guess, ans)
  {
    var ms, fp := Marks(guess, ans), FirstPassDigits(guess, ans, |guess|);
    assert ms[..|guess|] + fp[|guess|..] == ms;
  }

  lemma DigitPassStep(guess: Word, ans: Word, i: nat, rem: multiset<char>, ds: seq<int>)
    requires |guess| == |ans| && i < |guess| && DigitPassInv(guess, ans, i, rem, ds)
    ensures |ds| == |guess| && (ds[i] == 0 <==> guess[i] != ans[i])
    ensures guess[i] != ans[i] && guess[i] in rem ==>
      DigitPassInv(guess, ans, i + 1, rem - multiset{guess[i]}, ds[i := Yellow])
    ensures !(guess[i] != ans[i] && guess[i] in rem) ==>
      DigitPassInv(guess, ans, i + 1, rem, ds)
  {
    var ms, fp := Marks(guess, ans), FirstPassDigits(guess, ans, |guess|);
    assert ans[..|guess|] == ans;
    assert guess[i..][1..] == guess[i + 1..];
    assert ans[i..][1..] == ans[i + 1..];
    assert ms[i..][1..] == ms[i + 1..];
    assert ms[i] == ms[i..][0];
    assert ds[i] == fp[i];
    assert ds[i := ms[i]] == ms[..i + 1] + fp[i + 1..];
    if !(guess[i] != ans[i] && guess[i] in rem) {
      assert ds[i := ms[i]] == ds;
    }
  }

  /** One position of the first pass of `old_get_feedback`: where the
      letters agree, write 2 and take that copy. */
  method OldMarkGreenAt(guess: Word, answer: Word, ghost ans: Word, counts: array<int>, digits: array<int>, i: nat,
                        ghost cs0: seq<int>)
    requires IsLower(guess) && i < |guess| <= |answer| && ans == answer[..|guess|]
    requires |cs0| == 26 && digits.Length == |guess|
    requires digits[..] == FirstPassDigits(guess, ans, i)
    requires counts[..] == GreenCounts(guess, ans, cs0, i)
    requires counts != digits
    modifies counts, digits
    ensures digits[..] == FirstPassDigits(guess, ans, i + 1)
    ensures counts[..] == GreenCounts(guess, ans, cs0, i + 1)
  {
    FirstPassStep(guess, ans, i);
    if guess[i] == answer[i] {
      digits[i] := Green;
      counts[Ord(guess[i])] := counts[Ord(guess[i])] - 1;
    }
  }

  /** First pass of `old_get_feedback`: write 2 into the digit array where
      the letters agree and take that copy from the counts. */
  method OldMarkGreens(guess: Word, answer: Word, counts: array<int>, digits: array<int>)
    requires IsLower(guess) && IsLower(answer) && |guess| <= |answer|
    requires digits.Length == |guess| && digits[..] == seq(|guess|, _ => 0)
    requires Tallies(counts[..], multiset(answer[..|guess|]))
    requires counts != digits
    modifies counts, digits
    ensures digits[..] == FirstPassDigits(guess, answer[..|guess|], |guess|)
    ensures Tallies(counts[..], Unmatched(guess, answer[..|guess|]))
  {
    ghost var ans := answer[..|guess|];
    ghost var cs0 := counts[..];
    assert FirstPassDigits(guess, ans, 0) == seq(|guess|, _ => 0);
    for i := 0 to |guess|
      invariant digits[..] == FirstPassDigits(guess, ans, i)
      invariant counts[..] == GreenCounts(guess, ans, cs0, i)
    {
      OldMarkGreenAt(guess, answer, ans, counts, digits, i, cs0);
    }
    GreenCountsLeft(guess, ans, cs0, |guess|);
    GreenLeftIs(guess, ans, |guess|);
    assert guess[..|guess|] == guess;
  }

  /** One position of the second pass of `old_get_feedback`: a digit still
      0 becomes 1 while a copy of its letter is left, and takes that copy. */
  method OldMarkYellowAt(guess: Word, ghost ans: Word, counts: array<int>, digits: array<int>, i: nat,
                         ghost rem: multiset<char>)
    returns (ghost rem': multiset<char>)
    requires IsLower(guess) && IsLower(ans) && i < |guess| == |ans| && digits.Length == |guess|
    requires DigitPassInv(guess, ans, i, rem, digits[..]) && Tallies(counts[..], rem)
    requires counts != digits
    modifies counts, digits
    ensures DigitPassInv(guess, ans, i + 1, rem', digits[..]) && Tallies(counts[..], rem')
  {
    rem' := rem;
    DigitPassStep(guess, ans, i, rem, digits[..]);
    if digits[i] == 0 {
      var idx := Ord(guess[i]);
      SlotPositive(counts[..], rem, guess[i]);
      if counts[idx] > 0 {
        SlotTake(counts[..], rem, guess[i]);
        digits[i] := Yellow;
        counts[idx] := counts[idx] - 1;
        rem' := rem - multiset{guess[i]};
      }
    }
  }

  /** Second pass of `old_get_feedback`, over every position in turn. */
  method OldMarkYellows(guess: Word, answer: Word, counts: array<int>, digits: array<int>)
    requires IsLower(guess) && IsLower(answer) && |guess| <= |answer|
    requires digits.Length == |guess| && digits[..] == FirstPassDigits(guess, answer[..|guess|], |guess|)
    requires Tallies(counts[..], Unmatched(guess, answer[..|guess|]))
    requires counts != digits
    modifies counts, digits
    ensures digits[..] == OldMarks(guess, answer)
  {
    ghost var ans := answer[..|guess|];
    ghost var rem := Unmatched(guess, ans);
    DigitPassStart(guess, ans);
    for i := 0 to |guess|
      invariant DigitPassInv(guess, ans, i, rem, digits[..])
      invariant Tallies(counts[..], rem)
    {
      rem := OldMarkYellowAt(guess, ans, counts, digits, i, rem);
    }
    DigitPassEnd(guess, ans, rem, digits[..]);
  }

  /** The body of `old_get_feedback` after a memo miss: count the first
      len(guess) answer letters, fill a digit array in two passes, then OR
      each digit into its 2-bit slot. */
  method ComputeOldFeedback(guess: Word, answer: Word) returns (feedbackNum: nat)
    requires IsLower(guess) && IsLower(answer) && |guess| <= |answer|
    ensures feedbackNum == OldCode(guess, answer)
  {
    var length := |guess|;
    feedbackNum := 0;
    var counts := CountLetters(answer[..length]);
    var digits := new int[length](_ => 0);
    assert digits[..] == seq(length, _ => 0);
    OldMarkGreens(guess, answer, counts, digits);
    OldMarkYellows(guess, answer, counts, digits);
    MarksAreDigits(guess, answer[..length]);
    feedbackNum := PackDigits(digits);
  }

  /** The final loop of `old_get_feedback`: OR each digit into its 2-bit
      slot. */
  method PackDigits(digits: array<int>) returns (feedbackNum: nat)
    requires forall i :: 0 <= i < digits.Length ==> 0 <= digits[i] < 4
    ensures IsDigits(digits[..]) && feedbackNum == Encode(digits[..])
  {
    feedbackNum := 0;
    for i := 0 to digits.Length
      invariant feedbackNum == Encode(digits[..i])
    {
      assert digits[..i + 1] == digits[..i] + [digits[i]];
      OrSnoc(digits[..i], digits[i]);
      feedbackNum := Or(feedbackNum, Shl(digits[i], i));
    }
    assert digits[..digits.Length] == digits[..];
  }

  // ---------------------------------------------------------------------
  // The memo table `_feedback_cache`, shared by both procedures

  /** What a memo entry may hold: the result of either procedure on its key. */
  ghost predicate SoundEntry(g: Word, a: Word, n: nat)
  {
    IsLower(g) && IsLower(a) && |g| <= |a| && (n == Code(g, a) || n == OldCode(g, a))
  }

  /** The module-level dictionary `_feedback_cache`, keyed on the ordered
      pair (guess, answer). */
  class FeedbackCache {
    var entries: map<(Word, Word), nat>

    ghost predicate Valid()
      reads this
    {
      forall k :: k in entries ==> SoundEntry(k.0, k.1, entries[k])
    }

    constructor()
      ensures Valid() && entries == map[]
    {
      entries := map[];
    }

    /** `get_feedback`: a hit returns the stored value untouched; a miss
        computes, stores and returns the verdict. */
    method GetFeedback(guess: Word, answer: Word) returns (r: nat)
      requires Valid() && IsLower(guess) && IsLower(answer) && |guess| <= |answer|
      modifies this
      ensures Valid()
      ensures (guess, answer) in old(entries) ==> r == old(entries)[(guess, answer)] && entries == old(entries)
      ensures (guess, answer) !in old(entries) ==> r == Code(guess, answer) && entries == old(entries)[(guess, answer) := r]
      ensures r == Code(guess, answer) || r == OldCode(guess, answer)
      ensures |guess| == |answer| ==> r == Code(guess, answer)
    {
      var cacheKey := (guess, answer);
      if cacheKey in entries {
        r := entries[cacheKey];
      } else {
        r := ComputeFeedback(guess, answer);
        entries := entries[cacheKey := r];
      }
      if |guess| == |answer| {
        OldCodeAgrees(guess, answer);
      }
    }

    /** `old_get_feedback`: the same memo protocol around the older
        procedure. */
    method OldGetFeedback(guess: Word, answer: Word) returns (r: nat)
      requires Valid() && IsLower(guess) && IsLower(answer) && |guess| <= |answer|
      modifies this
      ensures Valid()
      ensures (guess, answer) in old(entries) ==> r == old(entries)[(guess, answer)] && entries == old(entries)
      ensures (guess, answer) !in old(entries) ==> r == OldCode(guess, answer) && entries == old(entries)[(guess, answer) := r]
      ensures r == Code(guess, answer) || r == OldCode(guess, answer)
      ensures |guess| == |answer| ==> r == Code(guess, answer)
    {
      var cacheKey := (guess, answer);
      if cacheKey in entries {
        r := entries[cacheKey];
      } else {
        r := ComputeOldFeedback(guess, answer);
        entries := entries[cacheKey := r];
      }
      if |guess| == |answer| {
        OldCodeAgrees(guess, answer);
      }
    }
  }

  // ---------------------------------------------------------------------
  // Integer <-> string

  /** `format_feedback(feedback_num, length)`; `range` of a negative length
      is empty. */
  method FormatFeedback(feedbackNum: nat, length: int) returns (s: string)
    ensures s == FormatSpec(feedbackNum, Max(0, length))
  {
    var feedbackChars: seq<char> := [];
    for i := 0 to Max(0, length)
      invariant feedbackChars == FormatSpec(feedbackNum, i)
    {
      var digit := Digit(feedbackNum, i);
      if digit == 2 {
        feedbackChars := feedbackChars + ['g'];
      } else if digit == 1 {
        feedbackChars := feedbackChars + ['y'];
      } else {
        feedbackChars := feedbackChars + ['x'];
      }
      assert FormatSpec(feedbackNum, i + 1) == FormatSpec(feedbackNum, i) + [MarkChar(digit)];
    }
    s := feedbackChars;
  }

  /** `intify_feedback(feedback)`. */
  method IntifyFeedback(feedback: string) returns (feedbackNum: nat)
    ensures feedbackNum == IntifySpec(feedback)
  {
    feedbackNum := 0;
    for i := 0 to |feedback|
      invariant feedbackNum == Encode(StringDigits(feedback)[..i])
    {
      var digit: nat;
      if feedback[i] == 'g' {
        digit := 2;
      } else if feedback[i] == 'y' {
        digit := 1;
      } else {
        digit := 0;
      }
      assert StringDigits(feedback)[..i + 1] == StringDigits(feedback)[..i] + [digit];
      OrSnoc(StringDigits(feedback)[..i], digit);
      feedbackNum := Or(feedbackNum, Shl(digit, i));
    }
    assert StringDigits(feedback)[..|feedback|] == StringDigits(feedback);
  }
}
