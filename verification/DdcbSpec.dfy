/** The DDCB queue as atomic steps of submitting threads, the done thread and the card (lib/ddcb_capi.c). */
module DdcbSpec {

  const NUM_DDCBS := 4
  const FIRST_SEQ := 0xf00d
  const SEQ_RANGE := 0x1_0000

  type Handle = int
  type Cmd = int

  datatype Code = Ok | IrqTimeout | SelectFail | EventFail | ExecDdcb

  /** One waitq entry; busy stands for DDCB_IN. */
  datatype Slot = Slot(busy: bool, ttx: Handle, cmd: Cmd, seqnum: nat, threadWait: bool)

  /** The memory the card shares: it may write retc and rsvdC0 whenever it likes. */
  datatype Ddcb = Ddcb(seqnum: nat, rsvd0e: nat, rsvdC0: nat, retc: nat)

  /** Where a thread is inside __ddcb_execute_multi. */
  datatype Phase =
    | Idle
    | Want(rest: seq<Cmd>)   // at sem_wait on free_sem
    | Hold(rest: seq<Cmd>)   // has a token, not yet the lock
    | Blocked                // at sem_wait on wait_sem

  /** One handle. chain, subs and posts record the current execute: its commands, their submission numbers, its
      wake-ups. */
  datatype Ttx = Ttx(phase: Phase, waitSem: nat, complCode: Code, chain: seq<Cmd>, subs: seq<nat>, posts: nat)

  /** History of one submission. written: a non-zero RETC was stored in its slot while it was outstanding; answered: the
      card stored one for this very submission, at whatever time. */
  datatype Sub = Sub(ttx: Handle, cmd: Cmd, last: bool, written: bool, answered: bool)

  /** History of one completion; answered: the card had answered that submission before. */
  datatype Done = Done(ttx: Handle, cmd: Cmd, code: Code, retc: nat, answered: bool)

  datatype State = State(waitq: seq<Slot>, ddcb: seq<Ddcb>, ddcbIn: nat, ddcbOut: nat, seqnum: nat, freeSem: nat,
                         ttxs: map<Handle, Ttx>, submitted: seq<Sub>, completed: seq<Done>)
  {
    ghost predicate Shaped() {
      |waitq| == NUM_DDCBS && |ddcb| == NUM_DDCBS && ddcbIn < NUM_DDCBS && ddcbOut < NUM_DDCBS
    }

    function Outstanding(): int {
      |submitted| - |completed|
    }
  }

  function Initial(handles: set<Handle>): State {
    State(seq(NUM_DDCBS, _ => Slot(false, 0, 0, 0, false)), seq(NUM_DDCBS, _ => Ddcb(0, 0, 0, 0)), 0, 0, FIRST_SEQ,
          NUM_DDCBS, map t | t in handles :: Ttx(Idle, 0, Ok, [], [], 0), [], [])
  }

  // ---- the steps ----

  datatype Step =
    | Call(t: Handle, chain: seq<Cmd>)
    | TakeToken(t: Handle)
    | Submit(t: Handle)
    | Card(slot: nat, retc: nat, rsvdC0: nat, about: nat)  // about: the submission it means to answer
    | Post(code: Code, elapsed: bool)
    | Return(t: Handle)

  predicate Enabled(s: State, step: Step) {
    match step
    case Call(t, chain) => t in s.ttxs && s.ttxs[t].phase == Idle && chain != []
    case TakeToken(t) => t in s.ttxs && s.ttxs[t].phase.Want? && s.freeSem > 0
    case Submit(t) => t in s.ttxs && s.ttxs[t].phase.Hold? && s.ttxs[t].phase.rest != []
    case Card(slot, _, _, _) => slot < NUM_DDCBS
    case Post(_, _) => true
    case Return(t) => t in s.ttxs && s.ttxs[t].phase.Blocked? && s.ttxs[t].waitSem > 0
  }

  function DoCall(s: State, t: Handle, chain: seq<Cmd>): State
    requires t in s.ttxs
  {
    s.(ttxs := s.ttxs[t := s.ttxs[t].(phase := Want(chain), chain := chain, subs := [], posts := 0)])
  }

  function DoTakeToken(s: State, t: Handle): State
    requires t in s.ttxs && s.ttxs[t].phase.Want? && s.freeSem > 0
  {
    s.(freeSem := s.freeSem - 1, ttxs := s.ttxs[t := s.ttxs[t].(phase := Hold(s.ttxs[t].phase.rest))])
  }

  /** The critical section of a submission: fill the slot, start the card, go on to the next command. */
  function DoSubmit(s: State, t: Handle): State
    requires s.Shaped() && t in s.ttxs && s.ttxs[t].phase.Hold? && s.ttxs[t].phase.rest != []
  {
    var x := s.ttxs[t];
    var rest := x.phase.rest;
    var last := |rest| == 1;
    s.(waitq := s.waitq[s.ddcbIn := Slot(true, t, rest[0], s.seqnum, s.waitq[s.ddcbIn].threadWait || last)],
       ddcb := s.ddcb[s.ddcbIn := s.ddcb[s.ddcbIn].(seqnum := s.seqnum, rsvd0e := s.seqnum, retc := 0)],
       ddcbIn := (s.ddcbIn + 1) % NUM_DDCBS,
       seqnum := (s.seqnum + 1) % SEQ_RANGE,
       ttxs := s.ttxs[t := x.(phase := if last then Blocked else Want(rest[1..]), subs := x.subs + [|s.submitted|])],
       submitted := s.submitted + [Sub(t, rest[0], last, false, false)])
  }

  /** The submission that occupies a slot, if there is one. */
  function Occupant(s: State, slot: nat): nat {
    |s.completed| + (slot - |s.completed|) % NUM_DDCBS
  }

  /** The history after a non-zero RETC was stored in a slot; m is the submission that occupies it. */
  function Note(subs: seq<Sub>, slot: nat, m: nat, about: nat): (r: seq<Sub>)
    ensures |r| == |subs|
    ensures forall i | 0 <= i < |subs| ::
              r[i] == subs[i].(written := subs[i].written || i == m,
                               answered := subs[i].answered || (i == about && SlotOf(i) == slot))
  {
    seq(|subs|, i requires 0 <= i < |subs| =>
      subs[i].(written := subs[i].written || i == m,
               answered := subs[i].answered || (i == about && SlotOf(i) == slot)))
  }

  function DoCard(s: State, slot: nat, retc: nat, rsvdC0: nat, about: nat): State
    requires s.Shaped() && slot < NUM_DDCBS
  {
    s.(ddcb := s.ddcb[slot := s.ddcb[slot].(retc := retc, rsvdC0 := rsvdC0)],
       submitted := if retc != 0 then Note(s.submitted, slot, Occupant(s, slot), about) else s.submitted)
  }

  /** Why __ddcb_done_post goes on or stops. */
  datatype Outcome = Stop | Continue | Complete(code: Code)

  function Judge(s: State, code: Code, elapsed: bool): Outcome
    requires s.Shaped()
  {
    var d := s.ddcb[s.ddcbOut];
    if !s.waitq[s.ddcbOut].busy then Stop
    else if code == IrqTimeout && !elapsed then Continue
    else if code == Ok && d.retc == 0 then Stop
    else if d.rsvd0e != d.rsvdC0 && code != Ok then Complete(ExecDdcb)
    else Complete(code)
  }

  /** The critical section of __ddcb_done_post. */
  function DoPost(s: State, code: Code, elapsed: bool): State
    requires s.Shaped()
  {
    var o := Judge(s, code, elapsed);
    if !o.Complete? then s
    else
      var q := s.waitq[s.ddcbOut];
      var wake := if q.threadWait then 1 else 0;
      s.(waitq := s.waitq[s.ddcbOut := q.(busy := false, threadWait := false)],
         ddcbOut := (s.ddcbOut + 1) % NUM_DDCBS,
         freeSem := s.freeSem + 1,
         ttxs := if q.ttx in s.ttxs then
                   s.ttxs[q.ttx := s.ttxs[q.ttx].(complCode := o.code, waitSem := s.ttxs[q.ttx].waitSem + wake,
                                                  posts := s.ttxs[q.ttx].posts + wake)]
                 else s.ttxs,
         completed := s.completed + [Done(q.ttx, q.cmd, o.code, s.ddcb[s.ddcbOut].retc,
                                      |s.completed| < |s.submitted| && s.submitted[|s.completed|].answered)])
  }

  function DoReturn(s: State, t: Handle): State
    requires t in s.ttxs && s.ttxs[t].waitSem > 0
  {
    s.(ttxs := s.ttxs[t := s.ttxs[t].(phase := Idle, waitSem := s.ttxs[t].waitSem - 1)])
  }

  function Next(s: State, step: Step): State
    requires s.Shaped() && Enabled(s, step)
  {
    match step
    case Call(t, chain) => DoCall(s, t, chain)
    case TakeToken(t) => DoTakeToken(s, t)
    case Submit(t) => DoSubmit(s, t)
    case Card(slot, retc, c0, about) => DoCard(s, slot, retc, c0, about)
    case Post(code, elapsed) => DoPost(s, code, elapsed)
    case Return(t) => DoReturn(s, t)
  }

  // ---- the invariant ----

  function Holders(ttxs: map<Handle, Ttx>): set<Handle> {
    set t | t in ttxs && ttxs[t].phase.Hold?
  }

  /** Slot of submission m. */
  function SlotOf(m: nat): (i: nat)
    ensures i < NUM_DDCBS
  {
    m % NUM_DDCBS
  }

  /** Sequence number of submission m. */
  function SeqOf(m: nat): nat {
    (FIRST_SEQ + m) % SEQ_RANGE
  }

  ghost predicate SlotHolds(s: State, m: nat)
    requires s.Shaped() && m < |s.submitted|
  {
    var q, d, u := s.waitq[SlotOf(m)], s.ddcb[SlotOf(m)], s.submitted[m];
    && q == Slot(true, u.ttx, u.cmd, SeqOf(m), u.last)
    && d.seqnum == SeqOf(m) && d.rsvd0e == SeqOf(m)
    && (d.retc != 0 ==> u.written)
  }

  /** The outstanding submissions are the cyclic run from ddcbOut to ddcbIn, in submission order. */
  ghost predicate Ring(s: State) {
    && s.Shaped()
    && 0 <= s.Outstanding() <= NUM_DDCBS
    && s.ddcbIn == SlotOf(|s.submitted|) && s.ddcbOut == SlotOf(|s.completed|)
    && s.seqnum == SeqOf(|s.submitted|)
    && (forall m | |s.completed| <= m < |s.submitted| :: SlotHolds(s, m))
    && (forall m | |s.submitted| <= m < |s.completed| + NUM_DDCBS ::
          !s.waitq[SlotOf(m)].busy && !s.waitq[SlotOf(m)].threadWait)
  }

  /** Tokens are neither lost nor duplicated. */
  ghost predicate Tokens(s: State) {
    s.freeSem + |Holders(s.ttxs)| + s.Outstanding() == NUM_DDCBS
  }

  /** Completions are the submissions in order; a good code means that a non-zero RETC was stored in the slot while the
      submission was outstanding. */
  ghost predicate InOrder(s: State) {
    && |s.completed| <= |s.submitted|
    && forall m | 0 <= m < |s.completed| ::
         && s.completed[m].ttx == s.submitted[m].ttx && s.completed[m].cmd == s.submitted[m].cmd
         && (s.completed[m].code == Ok ==> s.submitted[m].written)
  }

  /** The submissions recorded for an execute are its commands, in order. */
  ghost predicate Recorded(s: State, t: Handle, x: Ttx) {
    && |x.subs| <= |x.chain|
    && (forall i | 0 <= i < |x.subs| :: x.subs[i] < |s.submitted| && s.submitted[x.subs[i]].ttx == t
          && s.submitted[x.subs[i]].cmd == x.chain[i] && (s.submitted[x.subs[i]].last <==> i == |x.chain| - 1))
    && (forall i, j | 0 <= i < j < |x.subs| :: x.subs[i] < x.subs[j])
  }

  /** Phase, semaphore and completion code agree. */
  ghost predicate Waits(s: State, x: Ttx) {
    match x.phase
    case Idle => x.waitSem == 0
    case Want(rest) => rest != [] && |x.subs| + |rest| == |x.chain| && rest == x.chain[|x.subs|..]
                       && x.waitSem == 0 && x.posts == 0
    case Hold(rest) => rest != [] && |x.subs| + |rest| == |x.chain| && rest == x.chain[|x.subs|..]
                       && x.waitSem == 0 && x.posts == 0
    case Blocked =>
      && x.subs != [] && |x.subs| == |x.chain|
      && var last := x.subs[|x.subs| - 1];
         if last < |s.completed| then x.waitSem == 1 && x.posts == 1 && x.complCode == s.completed[last].code
         else x.waitSem == 0 && x.posts == 0
  }

  ghost predicate Threads(s: State) {
    && (forall t | t in s.ttxs :: Recorded(s, t, s.ttxs[t]) && Waits(s, s.ttxs[t]))
    && (forall m | |s.completed| <= m < |s.submitted| ::
          && s.submitted[m].ttx in s.ttxs
          && m in s.ttxs[s.submitted[m].ttx].subs
          && s.ttxs[s.submitted[m].ttx].phase != Idle)
  }

  ghost predicate Inv(s: State) {
    Ring(s) && Tokens(s) && InOrder(s) && Threads(s)
  }
}
