/** Whose answer a good code is: late answers to commands that were completed without one (lib/ddcb_capi.c). */
module DdcbAnswers {
  import opened DdcbSpec
  import opened DdcbProofs

  /** The card stores a RETC only to answer a submission of that slot, and each submission once. */
  ghost predicate Answers(s: State, step: Step) {
    step.Card? && step.retc != 0 ==>
      step.about < |s.submitted| && SlotOf(step.about) == step.slot && !s.submitted[step.about].answered
  }

  /** An earlier command of the same slot was completed without an answer. */
  ghost predicate LateBefore(s: State, m: nat) {
    exists k | 0 <= k < m && k < |s.completed| :: SlotOf(k) == SlotOf(m) && !s.completed[k].answered
  }

  /** What is stored for a submission is its own answer, or that of an earlier one which came late. */
  ghost predicate OwnAnswers(s: State) {
    && |s.completed| <= |s.submitted|
    && (forall k | 0 <= k < |s.completed| :: s.completed[k].answered ==> s.submitted[k].answered)
    && (forall m | 0 <= m < |s.submitted| :: s.submitted[m].written ==> s.submitted[m].answered || LateBefore(s, m))
    && (forall m | 0 <= m < |s.completed| :: s.completed[m].code == Ok ==> s.completed[m].answered || LateBefore(s, m))
  }

  lemma LateStays(s: State, r: State, m: nat)
    requires LateBefore(s, m) && s.completed <= r.completed
    ensures LateBefore(r, m)
  {
    var k :| 0 <= k < m && k < |s.completed| && SlotOf(k) == SlotOf(m) && !s.completed[k].answered;
    assert SlotOf(k) == SlotOf(m) && !r.completed[k].answered;
  }

  /** An answer for another submission than the one in the slot comes late. */
  lemma AnswerIsOwnOrLate(s: State, slot: nat, about: nat)
    requires Inv(s) && OwnAnswers(s) && slot < NUM_DDCBS
    requires about < |s.submitted| && SlotOf(about) == slot && !s.submitted[about].answered
    ensures Occupant(s, slot) < |s.submitted| ==> about == Occupant(s, slot) || LateBefore(s, Occupant(s, slot))
  {
    var m := Occupant(s, slot);
    OccupantSlot(s, slot);
    hide SlotOf, SeqOf, SlotHolds, Recorded, Waits, Holders, Occupant;
    if |s.completed| <= about < m {
      OtherSlot(about, m);
    } else if m < about {
      OtherSlot(m, about);
    }
    if about < |s.completed| {
      assert !s.completed[about].answered;
    }
  }

  lemma CardKeepsOwn(s: State, slot: nat, retc: nat, c0: nat, about: nat)
    requires Inv(s) && OwnAnswers(s) && slot < NUM_DDCBS && Answers(s, Card(slot, retc, c0, about))
    ensures OwnAnswers(DoCard(s, slot, retc, c0, about))
  {
    var r, o := DoCard(s, slot, retc, c0, about), Occupant(s, slot);
    if retc != 0 {
      AnswerIsOwnOrLate(s, slot, about);
      hide LateBefore, Inv, SlotOf, Occupant;
      forall m | 0 <= m < |r.submitted| && r.submitted[m].written
        ensures r.submitted[m].answered || LateBefore(r, m)
      {
        if LateBefore(s, m) {
          LateStays(s, r, m);
        }
      }
      forall m | 0 <= m < |r.completed| && r.completed[m].code == Ok
        ensures r.completed[m].answered || LateBefore(r, m)
      {
        if LateBefore(s, m) {
          LateStays(s, r, m);
        }
      }
    }
  }

  lemma PostKeepsOwn(s: State, code: Code, elapsed: bool)
    requires Inv(s) && OwnAnswers(s)
    ensures OwnAnswers(DoPost(s, code, elapsed))
  {
    var r, n := DoPost(s, code, elapsed), |s.completed|;
    if Judge(s, code, elapsed).Complete? {
      PostFindsOldest(s, code, elapsed);
      hide LateBefore, Recorded, Waits, SlotOf, SeqOf;
      forall m | 0 <= m < |r.submitted| && r.submitted[m].written
        ensures r.submitted[m].answered || LateBefore(r, m)
      {
        if LateBefore(s, m) {
          LateStays(s, r, m);
        }
      }
      forall m | 0 <= m < |r.completed| && r.completed[m].code == Ok
        ensures r.completed[m].answered || LateBefore(r, m)
      {
        if LateBefore(s, m) {
          LateStays(s, r, m);
        }
      }
    }
  }

  lemma OtherKeepsOwn(s: State, step: Step)
    requires Inv(s) && OwnAnswers(s) && Enabled(s, step) && !step.Card? && !step.Post?
    ensures OwnAnswers(Next(s, step))
  {
    var r := Next(s, step);
    assert r.completed == s.completed && s.submitted <= r.submitted;
    hide Inv, LateBefore;
    forall m | 0 <= m < |r.submitted| && r.submitted[m].written
      ensures r.submitted[m].answered || LateBefore(r, m)
    {
      assert m < |s.submitted| && r.submitted[m] == s.submitted[m];
      if LateBefore(s, m) {
        LateStays(s, r, m);
      }
    }
    forall m | 0 <= m < |r.completed| && r.completed[m].code == Ok
      ensures r.completed[m].answered || LateBefore(r, m)
    {
      if LateBefore(s, m) {
        LateStays(s, r, m);
      }
    }
  }

  lemma StepKeepsOwn(s: State, step: Step)
    requires Inv(s) && OwnAnswers(s) && Enabled(s, step) && Answers(s, step)
    ensures OwnAnswers(Next(s, step))
  {
    hide OwnAnswers;
    if step.Card? {
      CardKeepsOwn(s, step.slot, step.retc, step.rsvdC0, step.about);
    } else if step.Post? {
      PostKeepsOwn(s, step.code, step.elapsed);
    } else {
      OtherKeepsOwn(s, step);
    }
  }

  /** An interleaving in which the card stores nothing but answers. */
  ghost predicate AnswerTrace(s: State, steps: seq<Step>)
    decreases |steps|
  {
    s.Shaped()
    && (steps == [] || (Enabled(s, steps[0]) && Answers(s, steps[0]) && AnswerTrace(Next(s, steps[0]), steps[1..])))
  }

  lemma {:induction false} AnswerTraceIsTrace(s: State, steps: seq<Step>)
    requires AnswerTrace(s, steps)
    ensures Trace(s, steps)
    decreases |steps|
  {
    if steps != [] {
      AnswerTraceIsTrace(Next(s, steps[0]), steps[1..]);
    }
  }

  lemma {:induction false} TraceKeepsOwn(s: State, steps: seq<Step>)
    requires Inv(s) && OwnAnswers(s) && AnswerTrace(s, steps)
    ensures Trace(s, steps) && OwnAnswers(After(s, steps))
    decreases |steps|
  {
    hide Inv, OwnAnswers, Answers;
    AnswerTraceIsTrace(s, steps);
    if steps != [] {
      StepKeepsInv(s, steps[0]);
      StepKeepsOwn(s, steps[0]);
      TraceKeepsOwn(Next(s, steps[0]), steps[1..]);
    }
  }

  /** After every interleaving, a command that was completed with a good code had been answered itself, unless an
      earlier command of its slot was completed without an answer. */
  lemma GoodCodeIsOwnAnswer(handles: set<Handle>, steps: seq<Step>, m: nat)
    requires AnswerTrace(Initial(handles), steps)
    ensures Trace(Initial(handles), steps)
    ensures var s := After(Initial(handles), steps);
            m < |s.completed| && s.completed[m].code == Ok && !LateBefore(s, m) ==> s.completed[m].answered
  {
    InitialInv(handles);
    TraceKeepsOwn(Initial(handles), steps);
    hide LateBefore;
  }

  /** The exception is real: if the oldest command stands in the slot of one that was completed without an answer, that
      one's answer completes it with a good code, whatever sequence number the card echoes. */
  lemma LateAnswerTaken(s: State, k: nat, retc: nat, c0: nat)
    requires Inv(s) && k < |s.completed| < |s.submitted| && !s.submitted[k].answered
    requires SlotOf(k) == SlotOf(|s.completed|) && !s.submitted[|s.completed|].answered && retc != 0
    ensures var card := Card(SlotOf(k), retc, c0, k);
            && Enabled(s, card) && Answers(s, card)
            && var r := Next(s, card);
               && r.Shaped() && r.ddcb[r.ddcbOut].rsvdC0 == c0 && r.ddcb[r.ddcbOut].rsvd0e == SeqOf(|s.completed|)
               && Next(r, Post(Ok, false)).completed ==
                  s.completed + [Done(s.submitted[|s.completed|].ttx, s.submitted[|s.completed|].cmd, Ok, retc, false)]
  {
    var m := |s.completed|;
    var r := Next(s, Card(SlotOf(k), retc, c0, k));
    assert SlotHolds(s, m);
    assert s.ddcbOut == SlotOf(m);
    hide SlotOf, SeqOf, Holders, Recorded, Waits;
    assert r.submitted[m].answered == s.submitted[m].answered;
  }

  // ---- a run in which it happens ----

  ghost predicate Reachable(s: State) {
    exists steps :: AnswerTrace(Initial({0}), steps) && Trace(Initial({0}), steps) && After(Initial({0}), steps) == s
  }

  lemma {:induction false} OneStepMore(s: State, steps: seq<Step>, step: Step)
    requires AnswerTrace(s, steps) && Trace(s, steps)
    requires Enabled(After(s, steps), step) && Answers(After(s, steps), step)
    requires After(s, steps).Shaped() && Next(After(s, steps), step).Shaped()
    ensures AnswerTrace(s, steps + [step]) && Trace(s, steps + [step])
    ensures After(s, steps + [step]) == Next(After(s, steps), step)
    decreases |steps|
  {
    hide Answers, Enabled;
    var more := steps + [step];
    if steps == [] {
      assert more[1..] == [];
    } else {
      assert more[0] == steps[0] && more[1..] == steps[1..] + [step];
      OneStepMore(Next(s, steps[0]), steps[1..], step);
    }
  }

  lemma Reaches(s: State, step: Step)
    requires Reachable(s) && Inv(s) && Enabled(s, step) && Answers(s, step)
    ensures s.Shaped() && Reachable(Next(s, step)) && Inv(Next(s, step))
  {
    StepKeepsInv(s, step);
    var steps :| AnswerTrace(Initial({0}), steps) && Trace(Initial({0}), steps) && After(Initial({0}), steps) == s;
    hide AnswerTrace, Trace, After, Next, Answers, Enabled;
    OneStepMore(Initial({0}), steps, step);
  }

  /** n commands were submitted, k of them completed, none answered, and left wait for their turn. */
  ghost predicate Underway(s: State, n: nat, k: nat, left: nat) {
    && Reachable(s) && Inv(s)
    && |s.submitted| == n && |s.completed| == k && s.freeSem == NUM_DDCBS - (n - k)
    && (forall i | 0 <= i < n :: !s.submitted[i].answered)
    && 0 in s.ttxs && (left > 0 ==> s.ttxs[0].phase.Want? && |s.ttxs[0].phase.rest| == left)
  }

  lemma Starts(chain: seq<Cmd>) returns (s: State)
    requires chain != []
    ensures Underway(s, 0, 0, |chain|)
  {
    InitialInv({0});
    var s0 := Initial({0});
    assert AnswerTrace(s0, []) && Trace(s0, []) && After(s0, []) == s0;
    hide Reachable, Inv;
    Reaches(s0, Call(0, chain));
    s := Next(s0, Call(0, chain));
  }

  lemma SubmitsNext(s: State, n: nat, k: nat, left: nat) returns (r: State)
    requires Underway(s, n, k, left) && left > 0 && s.freeSem > 0
    ensures Underway(r, n + 1, k, left - 1)
  {
    hide Reachable, Inv;
    Reaches(s, TakeToken(0));
    var t := Next(s, TakeToken(0));
    Reaches(t, Submit(0));
    r := Next(t, Submit(0));
  }

  lemma TimesOut(s: State, n: nat, k: nat, left: nat) returns (r: State)
    requires Underway(s, n, k, left) && k < n
    ensures Underway(r, n, k + 1, left)
  {
    assert SlotHolds(s, k);
    hide Reachable, SlotOf, SeqOf, Holders, Recorded, Waits;
    Reaches(s, Post(IrqTimeout, true));
    r := Next(s, Post(IrqTimeout, true));
  }

  /** Four commands time out, the fifth takes the slot of the first, and the first answer that comes is the first
      command's: the fifth completes with a good code and without an answer. */
  lemma UnansweredGoodCode() returns (s: State)
    ensures Reachable(s) && |s.completed| == 5 && s.completed[4].code == Ok && !s.completed[4].answered
  {
    hide Underway;
    s := Starts([1, 2, 3, 4, 5]);
    s := Submits(s, 4);
    s := TimeOuts(s, 4);
    assert s.freeSem > 0 by { Unfold(s, 4, 4, 1); }
    s := SubmitsNext(s, 4, 4, 1);
    Unfold(s, 5, 4, 0);
    hide Reachable, Inv;
    var card := Card(SlotOf(0), 0x102, SeqOf(0), 0);
    LateAnswerTaken(s, 0, 0x102, SeqOf(0));
    Reaches(s, card);
    var t := Next(s, card);
    Reaches(t, Post(Ok, false));
    s := Next(t, Post(Ok, false));
  }

  lemma Unfold(s: State, n: nat, k: nat, left: nat)
    requires Underway(s, n, k, left)
    ensures Reachable(s) && Inv(s) && |s.submitted| == n && |s.completed| == k && s.freeSem == NUM_DDCBS - (n - k)
    ensures forall i | 0 <= i < n :: !s.submitted[i].answered
  {
  }

  lemma {:induction false} Submits(s: State, n: nat) returns (r: State)
    requires n <= 4 && Underway(s, 4 - n, 0, 1 + n)
    ensures Underway(r, 4, 0, 1)
    decreases n
  {
    Unfold(s, 4 - n, 0, 1 + n);
    hide Underway;
    r := s;
    if n > 0 {
      r := SubmitsNext(s, 4 - n, 0, 1 + n);
      r := Submits(r, n - 1);
    }
  }

  lemma {:induction false} TimeOuts(s: State, n: nat) returns (r: State)
    requires n <= 4 && Underway(s, 4, 4 - n, 1)
    ensures Underway(r, 4, 4, 1)
    decreases n
  {
    hide Underway;
    r := s;
    if n > 0 {
      r := TimesOut(s, 4, 4 - n, 1);
      r := TimeOuts(r, n - 1);
    }
  }
}
