/** The device context and its critical sections (lib/ddcb_capi.c). */
module Ddcb {
  import opened DdcbSpec
  import opened DdcbProofs

  class DevCtx {
    const waitq: array<Slot>
    const ddcb: array<DdcbSpec.Ddcb>
    var ddcbIn: nat
    var ddcbOut: nat
    var ddcbSeqnum: nat
    var freeSem: nat
    var ttxs: map<Handle, Ttx>          // the handles that wait entries point to
    var submitted: seq<Sub>             // histories, for the record only
    var completed: seq<Done>

    ghost function Snapshot(): State
      reads this, waitq, ddcb
    {
      State(waitq[..], ddcb[..], ddcbIn, ddcbOut, ddcbSeqnum, freeSem, ttxs, submitted, completed)
    }

    constructor (handles: set<Handle>)
      ensures Snapshot() == Initial(handles) && Inv(Snapshot())
      ensures fresh(waitq) && fresh(ddcb)
    {
      waitq := new Slot[NUM_DDCBS](_ => Slot(false, 0, 0, 0, false));
      ddcb := new DdcbSpec.Ddcb[NUM_DDCBS](_ => DdcbSpec.Ddcb(0, 0, 0, 0));
      ddcbIn, ddcbOut, ddcbSeqnum, freeSem := 0, 0, FIRST_SEQ, NUM_DDCBS;
      ttxs := map t | t in handles :: Ttx(Idle, 0, Ok, [], [], 0);
      submitted, completed := [], [];
      new;
      InitialInv(handles);
      assert waitq[..] == Initial(handles).waitq && ddcb[..] == Initial(handles).ddcb;
    }

    /** cmd_2_ddcb: the fields that matter for completion. */
    method Cmd2Ddcb(idx: nat, seq_: nat)
      requires idx < ddcb.Length
      modifies ddcb
      ensures ddcb[..] == old(ddcb[..])[idx := old(ddcb[idx]).(seqnum := seq_, rsvd0e := seq_, retc := 0)]
    {
      ddcb[idx] := ddcb[idx].(rsvd0e := seq_);
      ddcb[idx] := ddcb[idx].(seqnum := seq_);
      ddcb[idx] := ddcb[idx].(retc := 0);
    }

    /** One round of the submission loop, between lock and unlock. */
    method ExecuteLocked(t: Handle)
      requires Inv(Snapshot()) && Enabled(Snapshot(), Submit(t))
      modifies this, waitq, ddcb
      ensures Snapshot() == DoSubmit(old(Snapshot()), t) && Inv(Snapshot())
    {
      hide Inv;
      ghost var before := Snapshot();
      SubmitKeepsInv(before, t);
      var rest := ttxs[t].phase.rest;
      var idx := ddcbIn;
      var seqno := ddcbSeqnum;
      waitq[idx] := waitq[idx].(ttx := t, busy := true, cmd := rest[0], seqnum := seqno);
      ddcbSeqnum := (ddcbSeqnum + 1) % SEQ_RANGE;
      ddcbIn := (ddcbIn + 1) % NUM_DDCBS;
      Cmd2Ddcb(idx, seqno);
      if |rest| == 1 {
        waitq[idx] := waitq[idx].(threadWait := true);
      }
      ttxs := ttxs[t := ttxs[t].(phase := if |rest| == 1 then Blocked else Want(rest[1..]),
                                 subs := ttxs[t].subs + [|submitted|])];
      submitted := submitted + [Sub(t, rest[0], |rest| == 1, false, false)];
      ghost var after := DoSubmit(before, t);
      assert waitq[..] == after.waitq && ddcb[..] == after.ddcb;
    }

    /** ddcb_2_cmd: whether the card copied the number written for this submission. */
    predicate Ddcb2Cmd(idx: nat)
      requires idx < ddcb.Length
      reads ddcb
    {
      ddcb[idx].rsvd0e == ddcb[idx].rsvdC0
    }

    /** One call of the completion function, between lock and unlock. */
    method DonePost(code: Code, elapsed: bool) returns (goOn: bool)
      requires Inv(Snapshot())
      modifies this, waitq
      ensures Snapshot() == DoPost(old(Snapshot()), code, elapsed) && Inv(Snapshot())
      ensures goOn <==> Judge(old(Snapshot()), code, elapsed) != Stop
      ensures goOn <==> old(Snapshot()).Outstanding() > 0 && (code != Ok || OldestRetc(old(Snapshot())) != 0)
    {
      hide Inv;
      ghost var before := Snapshot();
      PostKeepsInv(before, code, elapsed);
      PostGoesOn(before, code, elapsed);
      var idx := ddcbOut;
      var txq := waitq[idx];
      if !txq.busy {
        return false;
      }
      if code == IrqTimeout && !elapsed {
        return true;
      }
      if code == Ok && ddcb[idx].retc == 0 {
        return false;
      }
      var complCode := code;
      if !Ddcb2Cmd(idx) {
        if complCode != Ok {
          complCode := ExecDdcb;
        }
      }
      assert Judge(before, code, elapsed) == Complete(complCode);
      var ttx := ttxs[txq.ttx];
      ttx := ttx.(complCode := complCode);
      freeSem := freeSem + 1;
      if txq.threadWait {
        ttx := ttx.(waitSem := ttx.waitSem + 1, posts := ttx.posts + 1);
        waitq[idx] := waitq[idx].(threadWait := false);
      }
      ttxs := ttxs[txq.ttx := ttx];
      ddcbOut := (ddcbOut + 1) % NUM_DDCBS;
      waitq[idx] := waitq[idx].(busy := false);
      var answered := |completed| < |submitted| && submitted[|completed|].answered;
      completed := completed + [Done(txq.ttx, txq.cmd, complCode, ddcb[idx].retc, answered)];
      assert waitq[..] == before.waitq[idx := txq.(busy := false, threadWait := false)];
      return true;
    }

    /** The lock is free, and others take their steps. */
    method Others(steps: seq<Step>)
      requires Inv(Snapshot())
      modifies this, waitq, ddcb
      ensures Snapshot() == Meanwhile(old(Snapshot()), steps) && Inv(Snapshot())
    {
      hide Inv, Meanwhile;
      InvShape(Snapshot());
      var s := Meanwhile(State(waitq[..], ddcb[..], ddcbIn, ddcbOut, ddcbSeqnum, freeSem, ttxs, submitted, completed),
                         steps);
      InvShape(s);
      forall i | 0 <= i < waitq.Length {
        waitq[i] := s.waitq[i];
      }
      forall i | 0 <= i < ddcb.Length {
        ddcb[i] := s.ddcb[i];
      }
      assert waitq[..] == s.waitq && ddcb[..] == s.ddcb;
      ddcbIn, ddcbOut, ddcbSeqnum, freeSem := s.ddcbIn, s.ddcbOut, s.seqnum, s.freeSem;
      ttxs, submitted, completed := s.ttxs, s.submitted, s.completed;
    }

    /** The empty loop of the error paths, with steps of others between its rounds: when it stops nothing is
        outstanding, and every command it completed got an error. */
    method Drain(code: Code, others: seq<seq<Step>>) returns (n: nat)
      requires Inv(Snapshot()) && (code == SelectFail || code == EventFail)
      modifies this, waitq, ddcb
      ensures Inv(Snapshot()) && Snapshot().Outstanding() == 0
      ensures others == [] ==> submitted == old(submitted)
      ensures old(completed) <= completed && |completed| == |old(completed)| + n
      ensures forall m | |old(completed)| <= m < |completed| ::
              completed[m].code == code || completed[m].code == ExecDdcb
    {
      hide Inv, DoPost, Judge, Meanwhile;
      n := 0;
      var k := 0;
      PostEffect(Snapshot(), code, false);
      var goOn := DonePost(code, false);
      while goOn
        invariant Inv(Snapshot()) && old(completed) <= completed && k <= |others|
        invariant |completed| == |old(completed)| + n + (if goOn then 1 else 0)
        invariant !goOn ==> Snapshot().Outstanding() == 0
        invariant others == [] ==> submitted == old(submitted)
        invariant forall m | |old(completed)| <= m < |completed| ::
                  completed[m].code == code || completed[m].code == ExecDdcb
        decreases |others| - k, Snapshot().Outstanding(), goOn
      {
        n := n + 1;
        if k < |others| {
          Others(others[k]);
          k := k + 1;
        }
        PostEffect(Snapshot(), code, false);
        goOn := DonePost(code, false);
      }
    }

    /** The loop of interrupt and polling mode, with steps of others between its rounds: it completes answered commands,
        oldest first, until the oldest one left has no answer. */
    method ProcessAnswered(others: seq<seq<Step>>) returns (tasks: nat)
      requires Inv(Snapshot())
      modifies this, waitq, ddcb
      ensures Inv(Snapshot()) && old(completed) <= completed && |completed| == |old(completed)| + tasks
      ensures others == [] ==> submitted == old(submitted)
      ensures forall m | |old(completed)| <= m < |completed| :: completed[m].code == Ok && completed[m].retc != 0
      ensures Snapshot().Outstanding() > 0 ==> OldestRetc(Snapshot()) == 0
    {
      hide Inv, DoPost, Judge, OldestRetc, Meanwhile;
      tasks := 0;
      var k := 0;
      PostEffect(Snapshot(), Ok, false);
      var goOn := DonePost(Ok, false);
      while goOn
        invariant Inv(Snapshot()) && old(completed) <= completed && k <= |others|
        invariant |completed| == |old(completed)| + tasks + (if goOn then 1 else 0)
        invariant !goOn ==> Snapshot().Outstanding() == 0 || OldestRetc(Snapshot()) == 0
        invariant others == [] ==> submitted == old(submitted)
        invariant forall m | |old(completed)| <= m < |completed| :: completed[m].code == Ok && completed[m].retc != 0
        decreases |others| - k, Snapshot().Outstanding(), goOn
      {
        tasks := tasks + 1;
        if k < |others| {
          Others(others[k]);
          k := k + 1;
        }
        PostEffect(Snapshot(), Ok, false);
        goOn := DonePost(Ok, false);
      }
    }
  }

  lemma InvShape(s: State)
    requires Inv(s)
    ensures s.Shaped()
  {
  }
}
