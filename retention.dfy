/** The answer survives its own feedback: after `Filter.update(guess,
    feedback)` with the true feedback of `guess` against `answer`, the answer
    still passes `filter_candidates`. The game loops rely on this. */
module Retention {
  import opened Common
  import opened Feedback
  import opened Filters

  /** The 'g'/'y' tally of the true feedback is the per-letter count of
      scored positions. */
  lemma {:induction false} GYLettersMarks(gs: Word, ms: seq<nat>, ch: char)
    requires |gs| == |ms|
    ensures GYLetters(gs, Chars(ms))[ch] == MarkCount(gs, ms, ch, Green) + MarkCount(gs, ms, ch, Yellow)
  {
    if gs != [] {
      assert Chars(ms)[1..] == Chars(ms[1..]);
      GYLettersMarks(gs[1..], ms[1..], ch);
    }
  }

  /** For the true feedback, the tally of letter `ch` is
      min(copies in the guess, copies in the answer). */
  lemma TallyIsScored(g: Word, a: Word, ch: char)
    requires |g| <= |a|
    ensures GYLetters(g, MarkString(g, a))[ch] == Scored(g, a, ch) == Min(Count(g, ch), Count(a, ch))
  {
    GYLettersMarks(g, Marks(g, a), ch);
    LetterTally(g, a, ch);
  }

  /** A green step only adds a green the answer has and drops a forbidden
      position. */
  lemma GreenStepRetains(p: Constraints, i: nat, ch: char, gy: map<char, nat>, a: Word)
    requires Admits(p, a) && i < |a| && a[i] == ch
    ensures Admits(Step(p, i, ch, 'g', gy), a)
  {
    var s := Step(p, i, ch, 'g', gy);
    forall l | l in s.yellows ensures l in a && forall pos :: pos in s.yellows[l] ==> pos < |a| && a[pos] != l {
      assert l in p.yellows && s.yellows[l] <= p.yellows[l];
    }
  }

  /** A yellow step forbids a position the answer holds some other letter at,
      for a letter the answer has. */
  lemma YellowStepRetains(p: Constraints, i: nat, ch: char, gy: map<char, nat>, a: Word)
    requires Admits(p, a) && i < |a| && a[i] != ch && ch in a
    ensures Admits(Step(p, i, ch, 'y', gy), a)
  {
  }

  /** A grey step caps a letter at no less than the answer holds, or greys a
      letter the answer lacks. */
  lemma GreyStepRetains(p: Constraints, i: nat, ch: char, gy: map<char, nat>, a: Word)
    requires Admits(p, a)
    requires ch in gy ==> Count(a, ch) <= gy[ch]
    requires ch !in gy ==> ch !in a
    ensures Admits(Step(p, i, ch, 'x', gy), a)
  {
  }

  /** One position of the second loop of `update` keeps the answer admitted. */
  lemma StepRetains(p: Constraints, g: Word, a: Word, i: nat)
    requires i < |g| <= |a| && Admits(p, a)
    ensures var f := MarkString(g, a);
      Admits(Step(p, i, g[i], f[i], ScoredCounts(g, f)), a)
  {
    var f, ms := MarkString(g, a), Marks(g, a);
    var gy := ScoredCounts(g, f);
    var ch := g[i];
    MarksAreDigits(g, a);
    if ms[i] == Green {
      MarkAt(g, a, i);
      GreenStepRetains(p, i, ch, gy, a);
    } else if ms[i] == Yellow {
      YellowPresent(g, a, i);
      YellowStepRetains(p, i, ch, gy, a);
    } else {
      TallyIsScored(g, a, ch);
      GreyExhausts(g, a, i);
      assert ch !in gy ==> Count(a, ch) == 0;
      GreyStepRetains(p, i, ch, gy, a);
    }
  }

  lemma {:induction false} PassRetains(c: Constraints, g: Word, a: Word, n: nat)
    requires n <= |g| <= |a| && Admits(c, a)
    ensures var f := MarkString(g, a); Admits(Pass(c, g, f, ScoredCounts(g, f), n), a)
  {
    if n > 0 {
      var f := MarkString(g, a);
      var gy := ScoredCounts(g, f);
      PassRetains(c, g, a, n - 1);
      var p := Pass(c, g, f, gy, n - 1);
      StepRetains(p, g, a, n - 1);
      assert Pass(c, g, f, gy, n) == Step(p, n - 1, g[n - 1], f[n - 1], gy);
    }
  }

  /** Retention: feeding `update` the true feedback never rules out the
      answer that produced it. */
  lemma UpdateRetainsAnswer(c: Constraints, guess: Word, answer: Word)
    requires |guess| <= |answer| && Admits(c, answer)
    ensures Admits(UpdateSpec(c, guess, MarkString(guess, answer)), answer)
  {
    var f := MarkString(guess, answer);
    var gy := ScoredCounts(guess, f);
    PassRetains(c, guess, answer, |guess|);
    var p := Pass(c, guess, f, gy, |guess|);
    var u := UpdateSpec(c, guess, f);
    forall l | l in u.minCounts ensures Count(answer, l) >= u.minCounts[l] {
      if l in gy {
        TallyIsScored(guess, answer, l);
      }
    }
  }
}
