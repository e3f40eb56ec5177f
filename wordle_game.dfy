/** The interactive game's helpers (wordle_solver/wordle.py, and the same
    code in wordle.py): the g/y/x verdict computed on character lists, guess
    validation, and the older way of feeding a verdict to a `Filter`. */
module WordleGame {
  import opened Common
  import opened Feedback
  import opened Codec
  import opened Filters
  import Retention

  // ---------------------------------------------------------------------
  // `answer_chars`: the answer's letters, consumed slots set to None

  /** The letters still held by a list of optional letters. */
  function Present(s: seq<Option<char>>): multiset<char>
  {
    if s == [] then multiset{}
    else Present(s[..|s| - 1]) + Slot(s[|s| - 1])
  }

  /** The letter one slot holds, if any. */
  function Slot(o: Option<char>): multiset<char> {
    if o.Some? then multiset{o.value} else multiset{}
  }

  lemma PresentLast(s: seq<Option<char>>)
    requires s != []
    ensures Present(s) == Present(s[..|s| - 1]) + Slot(s[|s| - 1])
  {
  }

  /** A letter is present exactly when some slot holds it. */
  lemma {:induction false} PresentHas(s: seq<Option<char>>, x: char)
    ensures x in Present(s) <==> Some(x) in s
  {
    if s != [] {
      PresentHas(s[..|s| - 1], x);
      assert s == s[..|s| - 1] + [s[|s| - 1]];
    }
  }

  /** Consuming a slot removes one copy of its letter. */
  lemma {:induction false} PresentClear(s: seq<Option<char>>, k: nat, x: char)
    requires k < |s| && s[k] == Some(x)
    ensures Present(s[k := None]) == Present(s) - multiset{x}
  {
    var n := |s| - 1;
    var t := s[k := None];
    PresentLast(s);
    PresentLast(t);
    if k == n {
      assert t[..n] == s[..n];
      assert Slot(t[n]) == multiset{} && Slot(s[n]) == multiset{x};
    } else {
      assert t[..n] == s[..n][k := None];
      assert t[n] == s[n];
      PresentClear(s[..n], k, x);
      PresentHas(s[..n], x);
      assert s[..n][k] == s[k];
      TakeOneFirst(Present(s[..n]), Slot(s[n]), x);
    }
  }

  lemma TakeOneFirst(m: multiset<char>, e: multiset<char>, x: char)
    requires x in m
    ensures (m - multiset{x}) + e == (m + e) - multiset{x}
  {
  }

  lemma TakeNothing(m: multiset<char>)
    ensures m - multiset{} == m
  {
  }

  /** `answer_chars` as first built: every slot holds its letter. */
  function AllSlots(a: Word): (s: seq<Option<char>>)
    ensures |s| == |a|
  {
    seq(|a|, (k: int) requires 0 <= k < |a| => Some(a[k]))
  }

  lemma {:induction false} PresentAll(a: Word)
    ensures Present(AllSlots(a)) == multiset(a)
  {
    if a != [] {
      var n := |a| - 1;
      PresentAll(a[..n]);
      assert AllSlots(a)[..n] == AllSlots(a[..n]);
      assert a == a[..n] + [a[n]];
    }
  }

  /** `answer_chars` once the first pass has covered positions before `i`:
      each green position's slot is emptied. */
  function Slots(g: Word, a: Word, i: nat): (s: seq<Option<char>>)
    requires i <= |g| <= |a|
    ensures |s| == |a|
  {
    if i == 0 then AllSlots(a)
    else if g[i - 1] == a[i - 1] then Slots(g, a, i - 1)[i - 1 := None]
    else Slots(g, a, i - 1)
  }

  /** The slots still filled are the letters no green has taken. */
  lemma {:induction false} SlotsLeft(g: Word, a: Word, i: nat)
    requires i <= |g| <= |a|
    ensures Present(Slots(g, a, i)) == GreenLeft(g, a, i)
  {
    if i == 0 {
      PresentAll(a);
    } else {
      SlotsLeft(g, a, i - 1);
      SlotsStep(g, a, i);
    }
  }

  lemma SlotsStep(g: Word, a: Word, i: nat)
    requires 0 < i <= |g| <= |a| && Present(Slots(g, a, i - 1)) == GreenLeft(g, a, i - 1)
    ensures Present(Slots(g, a, i)) == GreenLeft(g, a, i)
  {
    if g[i - 1] == a[i - 1] {
      assert Slots(g, a, i - 1)[i - 1] == Some(a[i - 1]) by { SlotsAt(g, a, i - 1, i - 1); }
      PresentClear(Slots(g, a, i - 1), i - 1, a[i - 1]);
    } else {
      TakeNothing(GreenLeft(g, a, i - 1));
    }
  }

  /** A slot at or after the covered prefix still holds its letter. */
  lemma {:induction false} SlotsAt(g: Word, a: Word, i: nat, k: nat)
    requires i <= |g| <= |a| && i <= k < |a|
    ensures Slots(g, a, i)[k] == Some(a[k])
  {
    if i > 0 { SlotsAt(g, a, i - 1, k); }
  }

  // ---------------------------------------------------------------------
  // The verdict string, position by position

  lemma CharsSet(ds: seq<nat>, i: nat, d: nat)
    requires i < |ds|
    ensures Chars(ds[i := d]) == Chars(ds)[i := MarkChar(d)]
  {
  }

  /** What the second pass keeps: positions before `i` carry their final
      mark, later ones the first-pass mark, and the verdict after `i` is the
      second pass from the letters `rem` still present. */
  ghost predicate YellowPassInv(g: Word, a: Word, i: nat, rem: multiset<char>, fb: seq<char>)
    requires |g| <= |a|
  {
    var ms, fp := Marks(g, a), FirstPassDigits(g, a, |g|);
    && i <= |g|
    && ms[i..] == Pass2(g[i..], a[i..|g|], rem)
    && fb == Chars(ms[..i] + fp[i..])
  }

  lemma YellowPassStart(g: Word, a: Word)
    requires |g| <= |a|
    ensures YellowPassInv(g, a, 0, Unmatched(g, a), Chars(FirstPassDigits(g, a, |g|)))
  {
    var ms, fp := Marks(g, a), FirstPassDigits(g, a, |g|);
    assert g[0..] == g && ms[0..] == ms && ms[..0] + fp[0..] == fp;
  }

  lemma YellowPassEnd(g: Word, a: Word, rem: multiset<char>, fb: seq<char>)
    requires |g| <= |a| && YellowPassInv(g, a, |g|, rem, fb)
    ensures fb == MarkString(g, a)
  {
    var ms, fp := Marks(g, a), FirstPassDigits(g, a, |g|);
    assert ms[..|g|] + fp[|g|..] == ms;
  }

  lemma YellowPassStep(g: Word, a: Word, i: nat, rem: multiset<char>, fb: seq<char>)
    requires |g| <= |a| && i < |g| && YellowPassInv(g, a, i, rem, fb)
    ensures |fb| == |g| && (fb[i] == 'x' <==> g[i] != a[i])
    ensures g[i] != a[i] && g[i] in rem ==>
      YellowPassInv(g, a, i + 1, rem - multiset{g[i]}, fb[i := 'y'])
    ensures !(g[i] != a[i] && g[i] in rem) ==>
      YellowPassInv(g, a, i + 1, rem, fb)
  {
    var ms, fp := Marks(g, a), FirstPassDigits(g, a, |g|);
    var ans := a[..|g|];
    assert a[i..|g|] == ans[i..] && a[i + 1..|g|] == ans[i + 1..];
    assert g[i..][1..] == g[i + 1..];
    assert ans[i..][1..] == ans[i + 1..];
    assert ms[i..][1..] == ms[i + 1..];
    assert ms[i] == ms[i..][0];
    var ds := ms[..i] + fp[i..];
    assert ds[i] == fp[i];
    assert ds[i := ms[i]] == ms[..i + 1] + fp[i + 1..];
    CharsSet(ds, i, ms[i]);
    if !(g[i] != a[i] && g[i] in rem) {
      assert ds[i := ms[i]] == ds;
    }
  }

  /** `answer_chars.index(x)`: the first slot holding `x`. */
  method IndexOf(s: array<Option<char>>, x: Option<char>) returns (j: nat)
    requires x in s[..]
    ensures j < s.Length && s[j] == x
    ensures forall k :: 0 <= k < j ==> s[k] != x
  {
    j := 0;
    while s[j] != x
      invariant j < s.Length && x in s[j..]
      invariant forall k :: 0 <= k < j ==> s[k] != x
      decreases s.Length - j
    {
      assert s[j..] == [s[j]] + s[j + 1..];
      j := j + 1;
    }
  }

  /** First pass: mark 'g' where the letters agree and empty that slot. */
  method MarkGreenChars(guess: Word, answer: Word, feedback: array<char>, answerChars: array<Option<char>>)
    requires |guess| <= |answer| && feedback.Length == |guess|
    requires feedback[..] == Chars(FirstPassDigits(guess, answer, 0))
    requires answerChars[..] == AllSlots(answer)
    modifies feedback, answerChars
    ensures feedback[..] == Chars(FirstPassDigits(guess, answer, |guess|))
    ensures Present(answerChars[..]) == Unmatched(guess, answer)
  {
    for i := 0 to |guess|
      invariant feedback[..] == Chars(FirstPassDigits(guess, answer, i))
      invariant answerChars[..] == Slots(guess, answer, i)
    {
      FirstPassStep(guess, answer, i);
      if guess[i] == answer[i] {
        CharsSet(FirstPassDigits(guess, answer, i), i, Green);
        feedback[i] := 'g';
        answerChars[i] := None;
      }
    }
    SlotsLeft(guess, answer, |guess|);
    GreenLeftIs(guess, answer, |guess|);
    assert guess[..|guess|] == guess;
  }

  /** Second pass: a position still 'x' whose letter some slot holds turns
      'y', and the first such slot is emptied. */
  method MarkYellowChars(guess: Word, answer: Word, feedback: array<char>, answerChars: array<Option<char>>)
    requires |guess| <= |answer| && feedback.Length == |guess|
    requires feedback[..] == Chars(FirstPassDigits(guess, answer, |guess|))
    requires Present(answerChars[..]) == Unmatched(guess, answer)
    modifies feedback, answerChars
    ensures feedback[..] == MarkString(guess, answer)
  {
    ghost var rem := Unmatched(guess, answer);
    YellowPassStart(guess, answer);
    for i := 0 to |guess|
      invariant YellowPassInv(guess, answer, i, rem, feedback[..])
      invariant Present(answerChars[..]) == rem
    {
      rem := MarkYellowCharAt(guess, answer, feedback, answerChars, i, rem);
    }
    YellowPassEnd(guess, answer, rem, feedback[..]);
  }

  /** One position of the second pass. */
  method MarkYellowCharAt(guess: Word, answer: Word, feedback: array<char>, answerChars: array<Option<char>>, i: nat, ghost rem: multiset<char>)
    returns (ghost rem': multiset<char>)
    requires |guess| <= |answer| && feedback.Length == |guess| && i < |guess|
    requires YellowPassInv(guess, answer, i, rem, feedback[..]) && Present(answerChars[..]) == rem
    modifies feedback, answerChars
    ensures YellowPassInv(guess, answer, i + 1, rem', feedback[..]) && Present(answerChars[..]) == rem'
  {
    ghost var fb, slots := feedback[..], answerChars[..];
    YellowPassStep(guess, answer, i, rem, fb);
    PresentHas(slots, guess[i]);
    rem' := rem;
    if feedback[i] == 'x' && Some(guess[i]) in answerChars[..] {
      feedback[i] := 'y';
      assert feedback[..] == fb[i := 'y'];
      var j := IndexOf(answerChars, Some(guess[i]));
      PresentClear(slots, j, guess[i]);
      answerChars[j] := None;
      assert answerChars[..] == slots[j := None];
      rem' := rem - multiset{guess[i]};
    }
  }

  /** `get_feedback(guess, answer)`, string form: mark greens and consume
      their slots, then mark a letter yellow while some slot still holds it,
      consuming the first such slot. */
  method GetFeedback(guess: Word, answer: Word) returns (r: string)
    requires |guess| <= |answer|
    ensures r == MarkString(guess, answer)
  {
    var feedback := new char[|guess|](_ => 'x');
    var answerChars := new Option<char>[|answer|](k requires 0 <= k < |answer| => Some(answer[k]));
    assert feedback[..] == Chars(FirstPassDigits(guess, answer, 0));
    MarkGreenChars(guess, answer, feedback, answerChars);
    MarkYellowChars(guess, answer, feedback, answerChars);
    r := feedback[..];
  }

  // ---------------------------------------------------------------------
  // `validate_guess`

  /** `str.isalpha()` on ASCII text: non-empty, every character a letter. */
  predicate IsAlpha(w: Word) {
    |w| > 0 && forall i :: 0 <= i < |w| ==> 'a' <= w[i] <= 'z' || 'A' <= w[i] <= 'Z'
  }

  /** `validate_guess(guess, filter)`, with `filter.length` as `length` and
      the word list `WORDS` as `words`; each failed check prints a message. */
  function ValidateGuess(guess: Word, length: int, words: seq<Word>): (ok: bool)
    ensures ok <==> IsAlpha(guess) && |guess| == length && guess in words
  {
    if !IsAlpha(guess) then false
    else if |guess| != length then false
    else guess in words
  }

  // ---------------------------------------------------------------------
  // `update_filter_with_feedback`

  /** One position: 'g' and 'y' as in `Filter.update`, but 'x' always greys. */
  function LegacyStep(c: Constraints, i: nat, ch: char, mark: char): Constraints
  {
    if mark == 'x' then c.(greys := c.greys + {ch}) else Step(c, i, ch, mark, map[])
  }

  function LegacyPass(c: Constraints, g: Word, f: string, n: nat): Constraints
    requires n <= |g| <= |f|
  {
    if n == 0 then c else LegacyStep(LegacyPass(c, g, f, n - 1), n - 1, g[n - 1], f[n - 1])
  }

  /** The constraints after `update_filter_with_feedback(filter, g, f)`. */
  function LegacyUpdate(c: Constraints, g: Word, f: string): Constraints
    requires |g| <= |f|
  {
    LegacyPass(c, g, f, |g|)
  }

  lemma LegacyStepAgrees(c: Constraints, p: Constraints, i: nat, ch: char, mark: char, gy: map<char, nat>)
    requires c.greens == p.greens && c.yellows == p.yellows
    ensures var l, s := LegacyStep(c, i, ch, mark), Step(p, i, ch, mark, gy);
      l.greens == s.greens && l.yellows == s.yellows &&
      l.minCounts == c.minCounts && l.maxCounts == c.maxCounts
  {
    if mark == 'g' {
      GreenStepAgrees(c, p, i, ch, gy);
    } else if mark == 'y' {
      YellowStepAgrees(c, p, i, ch, gy);
    }
  }

  lemma GreenStepAgrees(c: Constraints, p: Constraints, i: nat, ch: char, gy: map<char, nat>)
    requires c.greens == p.greens && c.yellows == p.yellows
    ensures var l, s := LegacyStep(c, i, ch, 'g'), Step(p, i, ch, 'g', gy);
      l.greens == s.greens && l.yellows == s.yellows &&
      l.minCounts == c.minCounts && l.maxCounts == c.maxCounts
  {
    assert LegacyStep(c, i, ch, 'g') == Step(c, i, ch, 'g', map[]);
  }

  lemma YellowStepAgrees(c: Constraints, p: Constraints, i: nat, ch: char, gy: map<char, nat>)
    requires c.greens == p.greens && c.yellows == p.yellows
    ensures var l, s := LegacyStep(c, i, ch, 'y'), Step(p, i, ch, 'y', gy);
      l.greens == s.greens && l.yellows == s.yellows &&
      l.minCounts == c.minCounts && l.maxCounts == c.maxCounts
  {
    assert LegacyStep(c, i, ch, 'y') == Step(c, i, ch, 'y', map[]);
  }

  /** Greens and yellows evolve as in `Filter.update`; the count bounds are
      never touched. */
  lemma {:induction false} LegacyPassAgrees(c: Constraints, g: Word, f: string, gy: map<char, nat>, n: nat)
    requires n <= |g| <= |f|
    ensures var l, p := LegacyPass(c, g, f, n), Pass(c, g, f, gy, n);
      l.greens == p.greens && l.yellows == p.yellows &&
      l.minCounts == c.minCounts && l.maxCounts == c.maxCounts
  {
    if n > 0 {
      LegacyPassAgrees(c, g, f, gy, n - 1);
      LegacyStepAgrees(LegacyPass(c, g, f, n - 1), Pass(c, g, f, gy, n - 1), n - 1, g[n - 1], f[n - 1], gy);
    }
  }

  lemma {:induction false} LegacyPassGreys(c: Constraints, g: Word, f: string, n: nat)
    requires n <= |g| <= |f|
    ensures var l := LegacyPass(c, g, f, n);
      c.greys <= l.greys && forall k :: 0 <= k < n && f[k] == 'x' ==> g[k] in l.greys
  {
    if n > 0 { LegacyPassGreys(c, g, f, n - 1); }
  }

  /** Every letter marked 'x' becomes grey, even one the same guess scored
      elsewhere; greens and yellows end as `Filter.update` leaves them, and
      the count bounds stay as they were. */
  lemma LegacyUpdateEffect(c: Constraints, g: Word, f: string)
    requires |g| <= |f|
    ensures var l, u := LegacyUpdate(c, g, f), UpdateSpec(c, g, f);
      l.greens == u.greens && l.yellows == u.yellows &&
      l.minCounts == c.minCounts && l.maxCounts == c.maxCounts &&
      c.greys <= l.greys && forall k :: 0 <= k < |g| && f[k] == 'x' ==> g[k] in l.greys
  {
    LegacyPassAgrees(c, g, f, ScoredCounts(g, f), |g|);
    LegacyPassGreys(c, g, f, |g|);
  }

  /** The mutating procedure itself. */
  method UpdateFilterWithFeedback(filter: Filter, guess: Word, feedback: string)
    requires |guess| <= |feedback|
    modifies filter
    ensures filter.State() == LegacyUpdate(old(filter.State()), guess, feedback)
    ensures filter.length == old(filter.length)
  {
    ghost var c0 := filter.State();
    for i := 0 to |guess|
      invariant filter.State() == LegacyPass(c0, guess, feedback, i)
      invariant filter.length == old(filter.length)
    {
      var ch := guess[i];
      if feedback[i] == 'g' {
        filter.greens := filter.greens[i := ch];
        if ch in filter.yellows {
          if i in filter.yellows[ch] {
            filter.yellows := filter.yellows[ch := filter.yellows[ch] - {i}];
          }
          if filter.yellows[ch] == {} {
            filter.yellows := filter.yellows - {ch};
          }
        }
      } else if feedback[i] == 'y' {
        if ch !in filter.yellows {
          filter.yellows := filter.yellows[ch := {}];
        }
        filter.yellows := filter.yellows[ch := filter.yellows[ch] + {i}];
      } else if feedback[i] == 'x' {
        if ch !in filter.greys {
          filter.greys := filter.greys + {ch};
        }
      }
    }
  }

  /** The older update can rule out the very answer that produced the
      verdict: "sells" against "spelt" is "gyxgx", its third letter 'l' is
      marked 'x', and 'l' becomes grey although "spelt" contains it, while
      `Filter.update` keeps "spelt". */
  lemma LegacyUpdateLosesAnswer()
    ensures var c := Constraints(map[], map[], {}, map[], map[]);
      MarkString("sells", "spelt") == "gyxgx" &&
      !Admits(LegacyUpdate(c, "sells", "gyxgx"), "spelt") &&
      Admits(UpdateSpec(c, "sells", "gyxgx"), "spelt")
  {
    var c := Constraints(map[], map[], {}, map[], map[]);
    SellsGyxgx();
    LegacyGreysL(c);
    Retention.UpdateRetainsAnswer(c, "sells", "spelt");
  }

  lemma SellsGyxgx()
    ensures MarkString("sells", "spelt") == "gyxgx"
  {
    SellsSpelt();
    CharsGYXGX();
  }

  lemma LegacyGreysL(c: Constraints)
    ensures !Admits(LegacyUpdate(c, "sells", "gyxgx"), "spelt")
  {
    var g, f := "sells", "gyxgx";
    LegacyPassGreys(c, g, f, |g|);
    assert f[2] == 'x' && g[2] == 'l';
    var l := LegacyUpdate(c, g, f);
    assert 'l' in l.greys;
    assert "spelt"[3] == 'l';
  }
}
