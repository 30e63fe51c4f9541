/** Every interleaving keeps the queue invariant; what follows from it for submitters and waiters. */
module DdcbProofs {
  import opened DdcbSpec

  lemma OtherSlot(a: nat, b: nat)
    requires a < b < a + NUM_DDCBS
    ensures SlotOf(a) != SlotOf(b)
  {
  }

  lemma SeqAdvances(m: nat)
    ensures SeqOf(m + 1) == (SeqOf(m) + 1) % SEQ_RANGE
  {
  }

  lemma SlotDistance(k: nat, slot: nat)
    requires slot < NUM_DDCBS
    ensures 0 <= (slot - k) % NUM_DDCBS < NUM_DDCBS
    ensures (slot - SlotOf(k)) % NUM_DDCBS == (slot - k) % NUM_DDCBS
    ensures SlotOf(k + (slot - k) % NUM_DDCBS) == slot
  {
  }

  lemma OccupantSlot(s: State, slot: nat)
    requires slot < NUM_DDCBS
    ensures |s.completed| <= Occupant(s, slot) < |s.completed| + NUM_DDCBS
    ensures SlotOf(Occupant(s, slot)) == slot
  {
    SlotDistance(|s.completed|, slot);
  }

  lemma SlotAdvances(m: nat)
    ensures SlotOf(m + 1) == (SlotOf(m) + 1) % NUM_DDCBS
    ensures SlotOf(m + NUM_DDCBS) == SlotOf(m)
  {
  }

  lemma InitialInv(handles: set<Handle>)
    ensures Inv(Initial(handles))
  {
    var s := Initial(handles);
    assert Holders(s.ttxs) == {};
  }

  // ---- holders ----

  lemma HoldersGain(ttxs: map<Handle, Ttx>, t: Handle, x: Ttx)
    requires t in ttxs && !ttxs[t].phase.Hold? && x.phase.Hold?
    ensures |Holders(ttxs[t := x])| == |Holders(ttxs)| + 1
  {
    assert Holders(ttxs[t := x]) == Holders(ttxs) + {t};
  }

  lemma HoldersLose(ttxs: map<Handle, Ttx>, t: Handle, x: Ttx)
    requires t in ttxs && ttxs[t].phase.Hold? && !x.phase.Hold?
    ensures |Holders(ttxs[t := x])| == |Holders(ttxs)| - 1
  {
    assert Holders(ttxs) == Holders(ttxs[t := x]) + {t};
  }

  lemma HoldersSame(ttxs: map<Handle, Ttx>, t: Handle, x: Ttx)
    requires t in ttxs && ttxs[t].phase.Hold? == x.phase.Hold?
    ensures Holders(ttxs[t := x]) == Holders(ttxs)
  {
  }

  lemma NoHolders(ttxs: map<Handle, Ttx>)
    requires forall t | t in ttxs :: !ttxs[t].phase.Hold?
    ensures Holders(ttxs) == {}
  {
    assert Holders(ttxs) <= ttxs.Keys;
    assert forall t | t in ttxs.Keys :: t !in Holders(ttxs);
  }

  /** A thread that holds a token finds a free slot: it never overwrites an outstanding command. */
  lemma TokenMeansRoom(s: State, t: Handle)
    requires Ring(s) && Tokens(s) && t in s.ttxs && s.ttxs[t].phase.Hold?
    ensures s.Outstanding() < NUM_DDCBS && !s.waitq[s.ddcbIn].busy && !s.waitq[s.ddcbIn].threadWait
  {
    assert t in Holders(s.ttxs);
    assert |Holders(s.ttxs)| > 0;
    var m := |s.submitted|;
    assert !s.waitq[SlotOf(m)].busy;
  }

  // ---- ring ----

  lemma SubmitKeepsRing(s: State, t: Handle)
    requires Ring(s) && Tokens(s) && Enabled(s, Submit(t))
    ensures Ring(DoSubmit(s, t))
  {
    TokenMeansRoom(s, t);
    var r, n := DoSubmit(s, t), |s.submitted|;
    SeqAdvances(n);
    SlotAdvances(n);
    hide SlotOf, SeqOf, Holders;
    forall m | |r.completed| <= m < |r.submitted|
      ensures SlotHolds(r, m)
    {
      if m < n {
        OtherSlot(m, n);
        assert SlotHolds(s, m);
      }
    }
    forall m | |r.submitted| <= m < |r.completed| + NUM_DDCBS
      ensures !r.waitq[SlotOf(m)].busy && !r.waitq[SlotOf(m)].threadWait
    {
      OtherSlot(n, m);
    }
  }

  lemma CardKeepsRing(s: State, slot: nat, retc: nat, c0: nat, about: nat)
    requires Ring(s) && slot < NUM_DDCBS
    ensures Ring(DoCard(s, slot, retc, c0, about))
  {
    var r, o := DoCard(s, slot, retc, c0, about), Occupant(s, slot);
    OccupantSlot(s, slot);
    hide SlotOf, SeqOf, Occupant;
    forall m | |r.completed| <= m < |r.submitted|
      ensures SlotHolds(r, m)
    {
      assert SlotHolds(s, m);
      if SlotOf(m) == slot && m != o {
        OtherSlot(if m < o then m else o, if m < o then o else m);
      }
    }
  }

  lemma PostKeepsRing(s: State, code: Code, elapsed: bool)
    requires Ring(s)
    ensures Ring(DoPost(s, code, elapsed))
  {
    var r, k := DoPost(s, code, elapsed), |s.completed|;
    if Judge(s, code, elapsed).Complete? {
      PostFindsOldest(s, code, elapsed);
      SlotAdvances(k);
      hide SlotOf, SeqOf;
      forall m | |r.completed| <= m < |r.submitted|
        ensures SlotHolds(r, m)
      {
        OtherSlot(k, m);
        assert SlotHolds(s, m);
      }
      forall m | |r.submitted| <= m < |r.completed| + NUM_DDCBS
        ensures !r.waitq[SlotOf(m)].busy && !r.waitq[SlotOf(m)].threadWait
      {
        if m < k + NUM_DDCBS {
          OtherSlot(k, m);
        }
      }
    }
  }

  /** What a completing post finds in its slot. */
  lemma PostFindsOldest(s: State, code: Code, elapsed: bool)
    requires Ring(s) && Judge(s, code, elapsed).Complete?
    ensures |s.completed| < |s.submitted| && SlotHolds(s, |s.completed|)
  {
  }

  /** Steps that leave slots and history alone. */
  lemma SlotsStay(s: State, r: State)
    requires Ring(s) && r == s.(freeSem := r.freeSem, ttxs := r.ttxs)
    ensures Ring(r)
  {
    assert forall m | |s.completed| <= m < |s.submitted| :: SlotHolds(s, m) ==> SlotHolds(r, m);
  }

  lemma StepKeepsRing(s: State, step: Step)
    requires Inv(s) && Enabled(s, step)
    ensures Ring(Next(s, step))
  {
    match step
    case Submit(t) => SubmitKeepsRing(s, t);
    case Card(slot, retc, c0, about) => CardKeepsRing(s, slot, retc, c0, about);
    case Post(code, elapsed) => PostKeepsRing(s, code, elapsed);
    case Call(t, chain) => SlotsStay(s, DoCall(s, t, chain));
    case TakeToken(t) => SlotsStay(s, DoTakeToken(s, t));
    case Return(t) => SlotsStay(s, DoReturn(s, t));
  }

  // ---- tokens ----

  lemma StepKeepsTokens(s: State, step: Step)
    requires Inv(s) && Enabled(s, step)
    ensures Tokens(Next(s, step))
  {
    var r := Next(s, step);
    match step
    case Call(t, chain) => HoldersSame(s.ttxs, t, r.ttxs[t]);
    case TakeToken(t) => HoldersGain(s.ttxs, t, r.ttxs[t]);
    case Submit(t) => HoldersLose(s.ttxs, t, r.ttxs[t]);
    case Card(_, _, _, _) =>
    case Post(code, elapsed) =>
      if Judge(s, code, elapsed).Complete? {
        var t := s.waitq[s.ddcbOut].ttx;
        if t in s.ttxs {
          HoldersSame(s.ttxs, t, r.ttxs[t]);
        }
      }
    case Return(t) => HoldersSame(s.ttxs, t, r.ttxs[t]);
  }

  // ---- order ----

  lemma StepKeepsOrder(s: State, step: Step)
    requires Inv(s) && Enabled(s, step)
    ensures InOrder(Next(s, step))
  {
    if step.Post? && Judge(s, step.code, step.elapsed).Complete? {
      PostFindsOldest(s, step.code, step.elapsed);
    }
  }

  // ---- threads ----

  /** Steps that leave the history alone and touch one idle-or-waiting handle. */
  lemma CallKeepsThreads(s: State, t: Handle, chain: seq<Cmd>)
    requires Inv(s) && Enabled(s, Call(t, chain))
    ensures Threads(DoCall(s, t, chain))
  {
    var r := DoCall(s, t, chain);
    forall u | u in r.ttxs
      ensures Recorded(r, u, r.ttxs[u]) && Waits(r, r.ttxs[u])
    {
      assert Recorded(s, u, s.ttxs[u]) && Waits(s, s.ttxs[u]);
    }
  }

  lemma TakeTokenKeepsThreads(s: State, t: Handle)
    requires Inv(s) && Enabled(s, TakeToken(t))
    ensures Threads(DoTakeToken(s, t))
  {
    var r := DoTakeToken(s, t);
    forall u | u in r.ttxs
      ensures Recorded(r, u, r.ttxs[u]) && Waits(r, r.ttxs[u])
    {
      assert Recorded(s, u, s.ttxs[u]) && Waits(s, s.ttxs[u]);
    }
  }

  /** What other handles know about history survives a new submission. */
  lemma SubmitKeepsOthers(s: State, t: Handle, u: Handle)
    requires Inv(s) && Enabled(s, Submit(t)) && u in s.ttxs && u != t
    ensures Recorded(DoSubmit(s, t), u, s.ttxs[u]) && Waits(DoSubmit(s, t), s.ttxs[u])
  {
    hide Ring, Tokens;
    assert Recorded(s, u, s.ttxs[u]) && Waits(s, s.ttxs[u]);
  }

  lemma SubmitKeepsOwn(s: State, t: Handle)
    requires Inv(s) && Enabled(s, Submit(t))
    ensures Recorded(DoSubmit(s, t), t, DoSubmit(s, t).ttxs[t]) && Waits(DoSubmit(s, t), DoSubmit(s, t).ttxs[t])
  {
    hide SlotHolds, SlotOf, SeqOf, Holders;
    assert Recorded(s, t, s.ttxs[t]) && Waits(s, s.ttxs[t]);
  }

  lemma SubmitKeepsThreads(s: State, t: Handle)
    requires Inv(s) && Enabled(s, Submit(t))
    ensures Threads(DoSubmit(s, t))
  {
    var r := DoSubmit(s, t);
    forall u | u in r.ttxs
      ensures Recorded(r, u, r.ttxs[u]) && Waits(r, r.ttxs[u])
    {
      if u == t {
        SubmitKeepsOwn(s, t);
      } else {
        SubmitKeepsOthers(s, t, u);
      }
    }
    hide SlotHolds, SlotOf, SeqOf, Holders, Recorded, Waits;
    var n, subs := |s.submitted|, r.ttxs[t].subs;
    assert subs[|subs| - 1] == n;
    forall m | |r.completed| <= m < |r.submitted|
      ensures r.submitted[m].ttx in r.ttxs && m in r.ttxs[r.submitted[m].ttx].subs
              && r.ttxs[r.submitted[m].ttx].phase != Idle
    {
      if m < n {
        assert s.submitted[m].ttx in s.ttxs && m in s.ttxs[s.submitted[m].ttx].subs;
      }
    }
  }

  lemma CardKeepsThreads(s: State, slot: nat, retc: nat, c0: nat, about: nat)
    requires Inv(s) && slot < NUM_DDCBS
    ensures Threads(DoCard(s, slot, retc, c0, about))
  {
    var r := DoCard(s, slot, retc, c0, about);
    forall u | u in r.ttxs
      ensures Recorded(r, u, r.ttxs[u]) && Waits(r, r.ttxs[u])
    {
      assert Recorded(s, u, s.ttxs[u]) && Waits(s, s.ttxs[u]);
    }
  }

  /** The handle of an outstanding submission has not been woken, and is woken only by its last one. */
  lemma OwnerWaits(s: State, m: nat)
    requires Inv(s) && |s.completed| <= m < |s.submitted|
    ensures var x := s.ttxs[s.submitted[m].ttx];
            && x.waitSem == 0 && x.posts == 0
            && (s.submitted[m].last <==> x.phase.Blocked? && x.subs[|x.subs| - 1] == m)
  {
    var t := s.submitted[m].ttx;
    var x := s.ttxs[t];
    assert Recorded(s, t, x) && Waits(s, x);
    var i :| 0 <= i < |x.subs| && x.subs[i] == m;
    if i < |x.subs| - 1 {
      assert x.subs[i] < x.subs[|x.subs| - 1];
    }
  }

  lemma PostKeepsThreads(s: State, code: Code, elapsed: bool)
    requires Inv(s)
    ensures Threads(DoPost(s, code, elapsed))
  {
    var r, k := DoPost(s, code, elapsed), |s.completed|;
    if Judge(s, code, elapsed).Complete? {
      PostFindsOldest(s, code, elapsed);
      OwnerWaits(s, k);
      forall u | u in r.ttxs
        ensures Recorded(r, u, r.ttxs[u]) && Waits(r, r.ttxs[u])
      {
        assert Recorded(s, u, s.ttxs[u]) && Waits(s, s.ttxs[u]);
      }
    }
  }

  lemma ReturnKeepsThreads(s: State, t: Handle)
    requires Inv(s) && Enabled(s, Return(t))
    ensures Threads(DoReturn(s, t))
  {
    var r := DoReturn(s, t);
    forall u | u in r.ttxs
      ensures Recorded(r, u, r.ttxs[u]) && Waits(r, r.ttxs[u])
    {
      assert Recorded(s, u, s.ttxs[u]) && Waits(s, s.ttxs[u]);
    }
    forall m | |r.completed| <= m < |r.submitted|
      ensures r.submitted[m].ttx != t
    {
      OwnerWaits(s, m);
    }
  }

  // ---- runs ----

  /** Every step of every thread and of the card keeps the invariant. */
  lemma StepKeepsInv(s: State, step: Step)
    requires Inv(s) && Enabled(s, step)
    ensures Inv(Next(s, step))
  {
    StepKeepsRing(s, step);
    StepKeepsTokens(s, step);
    StepKeepsOrder(s, step);
    match step
    case Call(t, chain) => CallKeepsThreads(s, t, chain);
    case TakeToken(t) => TakeTokenKeepsThreads(s, t);
    case Submit(t) => SubmitKeepsThreads(s, t);
    case Card(slot, retc, c0, about) => CardKeepsThreads(s, slot, retc, c0, about);
    case Post(code, elapsed) => PostKeepsThreads(s, code, elapsed);
    case Return(t) => ReturnKeepsThreads(s, t);
  }

  /** An interleaving: each step is enabled where it happens. */
  ghost predicate Trace(s: State, steps: seq<Step>)
    decreases |steps|
  {
    s.Shaped() && (steps == [] || (Enabled(s, steps[0]) && Trace(Next(s, steps[0]), steps[1..])))
  }

  ghost function After(s: State, steps: seq<Step>): State
    requires Trace(s, steps)
    decreases |steps|
  {
    if steps == [] then s else After(Next(s, steps[0]), steps[1..])
  }

  lemma {:induction false} TraceKeepsInv(s: State, steps: seq<Step>)
    requires Inv(s) && Trace(s, steps)
    ensures Inv(After(s, steps))
    decreases |steps|
  {
    if steps != [] {
      StepKeepsInv(s, steps[0]);
      TraceKeepsInv(Next(s, steps[0]), steps[1..]);
    }
  }

  /** The queue is consistent after every interleaving of every set of handles. */
  lemma ReachableInv(handles: set<Handle>, steps: seq<Step>)
    requires Trace(Initial(handles), steps)
    ensures Inv(After(Initial(handles), steps))
  {
    InitialInv(handles);
    TraceKeepsInv(Initial(handles), steps);
  }

  /** Steps of the other threads and of the card while the done thread does not hold the lock; a step that is not
      enabled when its turn comes does not happen. */
  function Meanwhile(s: State, steps: seq<Step>): (r: State)
    requires Inv(s)
    ensures Inv(r) && r.completed == s.completed && |s.submitted| <= |r.submitted|
    decreases |steps|
  {
    if steps == [] then s
    else if steps[0].Post? || !Enabled(s, steps[0]) then Meanwhile(s, steps[1..])
    else
      StepKeepsInv(s, steps[0]);
      StepExtendsHistory(s, steps[0]);
      Meanwhile(Next(s, steps[0]), steps[1..])
  }

  // ---- what users of the queue rely on ----

  /** The DDCB_IN slots are exactly the cyclic run from ddcbOut to ddcbIn. */
  lemma BusySlotsAreCyclicRun(s: State, slot: nat)
    requires Ring(s) && slot < NUM_DDCBS
    ensures s.waitq[slot].busy <==> (slot - s.ddcbOut) % NUM_DDCBS < s.Outstanding()
    ensures s.ddcbIn == (s.ddcbOut + s.Outstanding()) % NUM_DDCBS
  {
    SlotDistance(|s.completed|, slot);
    OccupantSlot(s, slot);
    OccupantOnly(s, slot, Occupant(s, slot));
    SlotAfter(|s.completed|, s.Outstanding());
    hide SlotOf, SlotHolds, SeqOf;
  }

  lemma SlotAfter(k: nat, d: nat)
    ensures SlotOf(k + d) == (SlotOf(k) + d) % NUM_DDCBS
  {
  }

  lemma OccupantOnly(s: State, slot: nat, m: nat)
    requires Ring(s) && |s.completed| <= m < |s.completed| + NUM_DDCBS && SlotOf(m) == slot
    ensures s.waitq[slot].busy <==> m < |s.submitted|
  {
    hide SlotOf, SeqOf;
    if m < |s.submitted| {
      assert SlotHolds(s, m);
    }
  }

  /** A slot can be told from the sequence number in it, also when the 16-bit counter has wrapped. */
  lemma SlotFromSeq(s: State, slot: nat)
    requires Ring(s) && slot < NUM_DDCBS && s.waitq[slot].busy
    ensures slot == (s.waitq[slot].seqnum - FIRST_SEQ) % NUM_DDCBS
    ensures s.ddcb[slot].seqnum == s.waitq[slot].seqnum < SEQ_RANGE
  {
    var m := Occupant(s, slot);
    OccupantSlot(s, slot);
    OccupantOnly(s, slot, m);
    assert SlotHolds(s, m);
    hide Occupant;
  }

  /** Outstanding commands carry consecutive sequence numbers. */
  lemma ConsecutiveSeqs(s: State, m: nat)
    requires Ring(s) && |s.completed| <= m && m + 1 < |s.submitted|
    ensures s.waitq[SlotOf(m + 1)].seqnum == (s.waitq[SlotOf(m)].seqnum + 1) % SEQ_RANGE
  {
    assert SlotHolds(s, m) && SlotHolds(s, m + 1);
    SeqAdvances(m);
  }

  /** A woken thread was woken once, all its commands are complete, and it sees the code of the last one. */
  lemma ReturnSeesWholeChain(s: State, t: Handle)
    requires Inv(s) && Enabled(s, Return(t))
    ensures var x := s.ttxs[t];
            && x.posts == 1 && x.waitSem == 1 && |x.subs| == |x.chain| > 0
            && (forall i | 0 <= i < |x.chain| ::
                  x.subs[i] < |s.completed| && s.completed[x.subs[i]].ttx == t
                  && s.completed[x.subs[i]].cmd == x.chain[i])
            && x.complCode == s.completed[x.subs[|x.subs| - 1]].code
  {
    var x := s.ttxs[t];
    assert Recorded(s, t, x) && Waits(s, x);
    forall i | 0 <= i < |x.subs| - 1
      ensures x.subs[i] < x.subs[|x.subs| - 1]
    {
    }
  }

  /** Completion happens in submission order, one at a time, and is never undone. */
  lemma StepExtendsHistory(s: State, step: Step)
    requires Inv(s) && Enabled(s, step)
    ensures var r := Next(s, step);
            && s.completed <= r.completed && |r.completed| <= |s.completed| + 1
            && |s.submitted| <= |r.submitted|
            && forall m | 0 <= m < |s.submitted| :: 
                 r.submitted[m].(written := false, answered := false) ==
                 s.submitted[m].(written := false, answered := false)
  {
  }

  /** Only a non-zero RETC from the card, stored while the submission is outstanding, is recorded as written for it. */
  lemma WrittenByCardOnly(s: State, step: Step, m: nat)
    requires Inv(s) && Enabled(s, step)
    requires m < |Next(s, step).submitted| && Next(s, step).submitted[m].written
    requires m < |s.submitted| ==> !s.submitted[m].written
    ensures step.Card? && step.retc != 0 && step.slot == SlotOf(m) && |s.completed| <= m < |s.submitted|
  {
    if step.Card? {
      OccupantSlot(s, step.slot);
    }
    hide SlotOf, SeqOf, SlotHolds, Recorded, Waits, Occupant;
  }

  /** With an error code a post stops only when nothing is outstanding. */
  lemma ErrorPostStops(s: State, code: Code, elapsed: bool)
    requires Ring(s) && code != Ok && code != IrqTimeout
    ensures Judge(s, code, elapsed) == Stop <==> s.Outstanding() == 0
    ensures Judge(s, code, elapsed) != Continue
  {
    if s.Outstanding() > 0 {
      assert SlotHolds(s, |s.completed|);
    }
  }

  lemma SubmitKeepsInv(s: State, t: Handle)
    requires Inv(s) && Enabled(s, Submit(t))
    ensures s.Shaped() && Inv(DoSubmit(s, t))
  {
    StepKeepsInv(s, Submit(t));
  }

  lemma PostKeepsInv(s: State, code: Code, elapsed: bool)
    requires Inv(s)
    ensures s.Shaped() && Inv(DoPost(s, code, elapsed))
    ensures s.waitq[s.ddcbOut].busy ==> s.waitq[s.ddcbOut].ttx in s.ttxs
  {
    StepKeepsInv(s, Post(code, elapsed));
    if s.Outstanding() > 0 {
      assert SlotHolds(s, |s.completed|);
    }
  }

  /** Nothing is outstanding, or the wait for it is not over, or it has no return code yet. */
  predicate NothingToPost(s: State, code: Code, elapsed: bool)
    requires s.Shaped()
  {
    |s.completed| == |s.submitted| || (code == IrqTimeout && !elapsed)
    || (code == Ok && s.ddcb[|s.completed| % 4].retc == 0)
  }

  /** A post leaves everything as it is, or completes exactly the oldest command: its slot and a token are free again,
      and its thread sees the code and is woken if it was the last of its chain. An error code becomes the one for a
      failed command if the echoed number is another one. */
  lemma PostOutcome(s: State, code: Code, elapsed: bool)
    requires Inv(s)
    ensures s.Shaped() && NothingToPost(s, code, elapsed) ==> Next(s, Post(code, elapsed)) == s
    ensures s.Shaped() && !NothingToPost(s, code, elapsed) ==>
              var (r, n) := (Next(s, Post(code, elapsed)), |s.completed|);
              && n < |s.submitted| && s.submitted[n].ttx in s.ttxs
              && var (u, d) := (s.submitted[n], s.ddcb[n % 4]);
                 var seen := if code != Ok && d.rsvdC0 != (0xf00d + n) % 0x1_0000 then ExecDdcb else code;
                 var (x, wake) := (s.ttxs[u.ttx], if u.last then 1 else 0);
                 && r.completed == s.completed + [Done(u.ttx, u.cmd, seen, d.retc, u.answered)]
                 && r.ttxs ==
                    s.ttxs[u.ttx := x.(complCode := seen, waitSem := x.waitSem + wake, posts := x.posts + wake)]
                 && r.waitq == s.waitq[n % 4 := s.waitq[n % 4].(busy := false, threadWait := false)]
                 && r == s.(completed := r.completed, ttxs := r.ttxs, waitq := r.waitq, freeSem := s.freeSem + 1,
                            ddcbOut := (n + 1) % 4)
  {
    hide Recorded, Waits, Holders;
    var n := |s.completed|;
    SlotAdvances(n);
    if n < |s.submitted| {
      assert SlotHolds(s, n);
    } else {
      assert !s.waitq[SlotOf(n)].busy;
    }
  }

  /** A timeout changes nothing before its time. */
  lemma TimeoutWaits(s: State)
    requires Inv(s)
    ensures s.Shaped() && Next(s, Post(IrqTimeout, false)) == s
  {
    PostOutcome(s, IrqTimeout, false);
  }

  /** A command completes with a timeout only in a step whose time was over. */
  lemma {:induction false} TimeoutsElapsed(s: State, steps: seq<Step>)
    requires Inv(s) && Trace(s, steps) && Post(IrqTimeout, true) !in steps
    ensures var r := After(s, steps);
            forall m | |s.completed| <= m < |r.completed| :: r.completed[m].code != IrqTimeout
    decreases |steps|
  {
    hide Inv, Next, NothingToPost;
    if steps != [] {
      var t := Next(s, steps[0]);
      StepKeepsInv(s, steps[0]);
      NoTimeout(s, steps[0]);
      TimeoutsElapsed(t, steps[1..]);
      CompletedStays(t, steps[1..]);
    }
  }

  lemma NoTimeout(s: State, step: Step)
    requires Inv(s) && Enabled(s, step) && step != Post(IrqTimeout, true)
    ensures var r := Next(s, step);
            && s.completed <= r.completed
            && forall m | |s.completed| <= m < |r.completed| :: r.completed[m].code != IrqTimeout
  {
    if step.Post? {
      PostOutcome(s, step.code, step.elapsed);
    }
    hide Inv;
  }

  lemma {:induction false} CompletedStays(s: State, steps: seq<Step>)
    requires Inv(s) && Trace(s, steps)
    ensures s.completed <= After(s, steps).completed
    decreases |steps|
  {
    hide Inv, Next;
    if steps != [] {
      StepKeepsInv(s, steps[0]);
      StepExtendsHistory(s, steps[0]);
      CompletedStays(Next(s, steps[0]), steps[1..]);
    }
  }

  function OldestRetc(s: State): nat {
    if s.ddcbOut < |s.ddcb| then s.ddcb[s.ddcbOut].retc else 0
  }

  /** The loop goes on unless nothing is outstanding or the oldest command has no return code yet. */
  lemma PostGoesOn(s: State, code: Code, elapsed: bool)
    requires Inv(s)
    ensures s.Shaped()
    ensures Judge(s, code, elapsed) != Stop <==> s.Outstanding() > 0 && (code != Ok || OldestRetc(s) != 0)
  {
    hide Recorded, Waits, Holders;
    if s.Outstanding() > 0 {
      assert SlotHolds(s, |s.completed|);
    }
  }

  /** A post other than for a timeout completes the oldest command, or stops because there is none or, with a good
      code, because the card has not answered it. */
  lemma PostEffect(s: State, code: Code, elapsed: bool)
    requires Inv(s) && code != IrqTimeout
    ensures s.Shaped() && DoPost(s, code, elapsed).Shaped()
    ensures var r := DoPost(s, code, elapsed);
            && r.submitted == s.submitted
            && if Judge(s, code, elapsed) == Stop then
                 r == s && (s.Outstanding() == 0 || (code == Ok && OldestRetc(s) == 0))
               else
                 && s.Outstanding() > 0 && |r.completed| == |s.completed| + 1 && s.completed <= r.completed
                 && var c := r.completed[|s.completed|];
                    (c.code == code || (code != Ok && c.code == ExecDdcb)) && (code == Ok ==> c.retc != 0)
  {
    if s.Outstanding() > 0 {
      assert SlotHolds(s, |s.completed|);
    }
  }

  /** No interleaving gets stuck: while an execute is under way, a thread can move or an outstanding command can
      complete. */
  lemma NeverStuck(s: State, t: Handle)
    requires Inv(s) && t in s.ttxs && s.ttxs[t].phase != Idle
    ensures Enabled(s, TakeToken(t)) || Enabled(s, Submit(t)) || Enabled(s, Return(t)) || s.Outstanding() > 0
            || exists u :: Enabled(s, Submit(u))
  {
    var x := s.ttxs[t];
    assert Recorded(s, t, x) && Waits(s, x);
    if x.phase.Want? && s.freeSem == 0 && s.Outstanding() == 0 {
      if forall u | u in s.ttxs :: !s.ttxs[u].phase.Hold? {
        NoHolders(s.ttxs);
        assert false;
      }
      var u :| u in s.ttxs && s.ttxs[u].phase.Hold?;
      assert Recorded(s, u, s.ttxs[u]) && Waits(s, s.ttxs[u]);
      assert Enabled(s, Submit(u));
    }
  }
}
