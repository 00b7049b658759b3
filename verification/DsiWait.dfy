/**
  Waiting for DSI replies (dsi.c): any number of senders, each going through
  the steps of dsi_send after its write, interleaved in any order with one receiver
  that processes replies as dsi_recv does. Headers are set up and queued in one
  step; the receiver looks up, records, signals and releases the mutex in one
  step, which needs the request's mutex. There are no spurious wake-ups.
 */
module DsiWait {
  import opened DsiQueue

  datatype Outcome = Code(code: int) | TimedOut

  /** Where a sender stands. `timed` tells pthread_cond_timedwait from pthread_cond_wait. */
  datatype Pc =
    | Written                   // message sent, about to look at wait
    | Timing                    // wait > 0 seen, deadline computed
    | Locking(timed: bool)      // about to take waiting_mutex
    | Holding(timed: bool)      // holds it, about to look at done_waiting
    | Sleeping(timed: bool)     // holds it, saw done_waiting == 0, about to wait
    | Blocked(timed: bool)      // inside the wait, mutex released
    | Woken                     // signalled, about to get the mutex back
    | Expired                   // deadline passed, about to get the mutex back
    | Unlocking(expired: bool)  // holds it, about to release it
    | Finishing                 // about to read return_code and leave
    | GivingUp                  // about to leave with ETIMEDOUT
    | Returned(out: Outcome)

  /** wait0 is the caller's argument; the receiver may set wait to 0 at any time. */
  datatype Req = Req(wait0: int, wait: int, done: bool, code: int, pc: Pc)

  /** `heard` records every reply the receiver has processed, as (id, code). */
  datatype State = State(issued: nat, queue: seq<nat>, pending: int, reqs: map<nat, Req>, heard: seq<(nat, int)>)

  datatype Label =
    | Send(wait: int)
    | Skip                          // a header set up but never sent
    | Advance(k: nat)               // sender k takes its next step
    | Timeout(k: nat)               // sender k's deadline passes
    | Reply(id: nat, code: int)     // the receiver processes a reply

  const START: State := State(0, [], 0, map[], [])

  predicate HoldsMutex(pc: Pc) {
    pc.Holding? || pc.Sleeping? || pc.Unlocking?
  }

  predicate Enabled(s: State, l: Label) {
    match l
    case Send(_) => true
    case Skip => true
    case Advance(k) => k in s.reqs && !s.reqs[k].pc.Blocked? && !s.reqs[k].pc.Returned?
    case Timeout(k) => k in s.reqs && s.reqs[k].pc == Blocked(true)
    case Reply(id, _) =>
      var i := Find(s.queue, id);
      i < |s.queue| && s.queue[i] in s.reqs && s.reqs[s.queue[i]].wait != 0 ==> !HoldsMutex(s.reqs[s.queue[i]].pc)
  }

  /** dsi_remove_from_request_queue by identity. */
  function Without(q: seq<nat>, k: nat): (r: seq<nat>)
    ensures Increasing(q) ==> Increasing(r)
    ensures Increasing(q) ==> forall j :: j in r <==> j in q && j != k
    ensures forall j :: j in r ==> j in q
    ensures |r| == if k in q then |q| - 1 else |q|
  {
    if q == [] then []
    else if q[0] == k then q[1..]
    else
      var rest := Without(q[1..], k);
      assert forall j :: j in q <==> j == q[0] || j in q[1..];
      assert forall i :: 0 <= i < |rest| ==> rest[i] in q[1..];
      [q[0]] + rest
  }

  function Remove(s: State, k: nat): (r: State) {
    if k in s.queue then s.(queue := Without(s.queue, k), pending := s.pending - 1) else s
  }

  function At(s: State, k: nat, pc: Pc): (r: State)
    requires k in s.reqs
  {
    s.(reqs := s.reqs[k := s.reqs[k].(pc := pc)])
  }

  /** The sender's next step, in the order of dsi_send. */
  function StepOf(s: State, k: nat): (r: State)
    requires k in s.reqs
  {
    var q := s.reqs[k];
    match q.pc
    case Written => At(s, k, if q.wait < 0 then Locking(false) else if q.wait > 0 then Timing else Finishing)
    case Timing => At(s, k, if q.wait == 0 then Finishing else Locking(true))
    case Locking(timed) => At(s, k, Holding(timed))
    case Holding(timed) => At(s, k, if !q.done then Sleeping(timed) else Unlocking(false))
    case Sleeping(timed) => At(s, k, Blocked(timed))
    case Woken => At(s, k, Unlocking(false))
    case Expired => At(s, k, Unlocking(true))
    case Unlocking(expired) => At(s, k, if expired then GivingUp else Finishing)
    case Finishing => Remove(At(s, k, Returned(Code(q.code))), k)
    case GivingUp => Remove(At(s, k, Returned(TimedOut)), k)
    case Blocked(_) => s
    case Returned(_) => s
  }

  /** The receiver's step for a reply that carries `id`. */
  function Receive(s: State, id: nat, code: int): (r: State) {
    var i := Find(s.queue, id);
    var s1 := s.(heard := s.heard + [(id, code)]);
    if i == |s.queue| || s.queue[i] !in s.reqs then s1
    else
      var k := s.queue[i];
      var q := s.reqs[k].(code := code);
      if q.wait != 0 then
        s1.(reqs := s.reqs[k := q.(wait := 0, done := true, pc := if q.pc.Blocked? then Woken else q.pc)])
      else
        Remove(s1.(reqs := s.reqs[k := q]), k)
  }

  function Next(s: State, l: Label): (r: State)
    requires Enabled(s, l)
  {
    match l
    case Send(wait) =>
      var k := s.issued + 1;
      State(k, s.queue + [k], s.pending + 1, s.reqs[k := Req(wait, wait, false, 0, Written)], s.heard)
    case Skip => s.(issued := s.issued + 1)
    case Advance(k) => StepOf(s, k)
    case Timeout(k) => At(s, k, Expired)
    case Reply(id, code) => Receive(s, id, code)
  }

  // ----- what every step keeps -----

  ghost predicate Heard(s: State, k: nat, code: int) {
    (Id(k), code) in s.heard
  }

  /** One request. In particular a blocked sender has not been answered. */
  ghost predicate ReqInv(s: State, k: nat, q: Req) {
    && (q.done <==> q.wait0 != 0 && q.wait == 0)
    && (!q.done ==> q.wait == q.wait0)
    && (q.done ==> Heard(s, k, q.code))
    && (q.wait0 != 0 && !q.done && !q.pc.Returned? ==> k in s.queue)
    && match q.pc
       case Written => true
       case Timing => q.wait0 > 0
       case Locking(timed) => q.wait0 != 0 && timed == (q.wait0 > 0)
       case Holding(timed) => q.wait0 != 0 && timed == (q.wait0 > 0)
       case Sleeping(timed) => q.wait0 != 0 && timed == (q.wait0 > 0) && !q.done
       case Blocked(timed) => q.wait0 != 0 && timed == (q.wait0 > 0) && !q.done
       case Woken => q.done
       case Expired => q.wait0 > 0
       case Unlocking(expired) => if expired then q.wait0 > 0 else q.done
       case Finishing => q.wait0 == 0 || q.done
       case GivingUp => q.wait0 > 0
       case Returned(out) =>
         && k !in s.queue
         && (out.TimedOut? ==> q.wait0 > 0)
         && (out.Code? && q.wait0 != 0 ==> Heard(s, k, out.code))
  }

  ghost predicate Inv(s: State) {
    && Increasing(s.queue) && Within(s.queue, 1, s.issued)
    && s.pending == |s.queue|
    && (forall k :: k in s.queue ==> k in s.reqs)
    && (forall k :: k in s.reqs ==> 1 <= k <= s.issued && ReqInv(s, k, s.reqs[k]))
  }

  /** Only sender k changed, its queue entry may be gone, and nothing heard was forgotten. */
  lemma InvOfOne(s: State, k: nat, q: Req, s': State)
    requires Inv(s) && k in s.reqs
    requires s'.reqs == s.reqs[k := q] && s'.issued == s.issued && s.heard <= s'.heard
    requires (s'.queue == s.queue && s'.pending == s.pending)
             || (k in s.queue && s'.queue == Without(s.queue, k) && s'.pending == s.pending - 1)
    requires ReqInv(s', k, q)
    ensures Inv(s')
  {
    forall j | j in s'.reqs ensures ReqInv(s', j, s'.reqs[j]) {
      if j != k {
        assert ReqInv(s, j, s.reqs[j]);
        assert forall c :: Heard(s, j, c) ==> Heard(s', j, c);
      }
    }
    assert forall i :: 0 <= i < |s'.queue| ==> s'.queue[i] in s'.queue;
    assert forall i :: 0 <= i < |s.queue| ==> s.queue[i] in s.queue;
  }

  lemma SendKeepsInv(s: State, wait: int)
    requires Inv(s)
    ensures Inv(Next(s, Send(wait)))
  {
    var s' := Next(s, Send(wait));
    forall j | j in s'.reqs ensures ReqInv(s', j, s'.reqs[j]) {
      if j in s.reqs {
        assert ReqInv(s, j, s.reqs[j]);
      }
    }
  }

  lemma AdvanceKeepsInv(s: State, k: nat)
    requires Inv(s) && Enabled(s, Advance(k))
    ensures Inv(StepOf(s, k))
  {
    assert ReqInv(s, k, s.reqs[k]);
    var s' := StepOf(s, k);
    InvOfOne(s, k, s'.reqs[k], s');
  }

  lemma TimeoutKeepsInv(s: State, k: nat)
    requires Inv(s) && Enabled(s, Timeout(k))
    ensures Inv(Next(s, Timeout(k)))
  {
    assert ReqInv(s, k, s.reqs[k]);
    var s' := At(s, k, Expired);
    InvOfOne(s, k, s'.reqs[k], s');
  }

  lemma ReplyKeepsInv(s: State, id: nat, code: int)
    requires Inv(s) && Enabled(s, Reply(id, code))
    ensures Inv(Receive(s, id, code))
  {
    var s' := Receive(s, id, code);
    var i := Find(s.queue, id);
    assert (id, code) in s'.heard;
    if i < |s.queue| {
      var k := s.queue[i];
      assert k in s.queue;
      assert ReqInv(s, k, s.reqs[k]);
      InvOfOne(s, k, s'.reqs[k], s');
    } else {
      forall j | j in s'.reqs ensures ReqInv(s', j, s'.reqs[j]) {
        assert ReqInv(s, j, s.reqs[j]);
      }
    }
  }

  lemma NextKeepsInv(s: State, l: Label)
    requires Inv(s) && Enabled(s, l)
    ensures Inv(Next(s, l))
  {
    match l
    case Send(wait) => SendKeepsInv(s, wait);
    case Skip =>
      forall j | j in s.reqs ensures ReqInv(Next(s, l), j, s.reqs[j]) {
        assert ReqInv(s, j, s.reqs[j]);
      }
    case Advance(k) => AdvanceKeepsInv(s, k);
    case Timeout(k) => TimeoutKeepsInv(s, k);
    case Reply(id, code) => ReplyKeepsInv(s, id, code);
  }

  // ----- whole runs -----

  predicate IsRun(s: State, ls: seq<Label>)
    decreases |ls|
  {
    ls == [] || (Enabled(s, ls[0]) && IsRun(Next(s, ls[0]), ls[1..]))
  }

  function After(s: State, ls: seq<Label>): (r: State)
    requires IsRun(s, ls)
    decreases |ls|
  {
    if ls == [] then s else After(Next(s, ls[0]), ls[1..])
  }

  lemma {:induction false} RunKeepsInv(s: State, ls: seq<Label>)
    requires Inv(s) && IsRun(s, ls)
    ensures Inv(After(s, ls))
    decreases |ls|
  {
    if ls != [] {
      NextKeepsInv(s, ls[0]);
      RunKeepsInv(Next(s, ls[0]), ls[1..]);
    }
  }

  /** Request k, sent when n replies had been heard, only ever took its code from a reply heard later. */
  ghost predicate OwnReply(s: State, k: nat, wait: int, n: nat) {
    && n <= |s.heard| && k in s.reqs && s.reqs[k].wait0 == wait
    && (s.reqs[k].done ==> (Id(k), s.reqs[k].code) in s.heard[n..])
    && (s.reqs[k].pc.Returned? && s.reqs[k].pc.out.Code? ==> (Id(k), s.reqs[k].pc.out.code) in s.heard[n..])
  }

  lemma OwnReplyAdvance(s: State, j: nat, k: nat, wait: int, n: nat)
    requires Inv(s) && Enabled(s, Advance(j)) && OwnReply(s, k, wait, n) && wait != 0
    ensures OwnReply(StepOf(s, j), k, wait, n)
  {
    assert ReqInv(s, k, s.reqs[k]);
    if j != k {
      assert StepOf(s, j).reqs[k] == s.reqs[k];
    }
  }

  lemma OwnReplyHeard(s: State, id: nat, code: int, k: nat, wait: int, n: nat)
    requires Inv(s) && OwnReply(s, k, wait, n)
    ensures OwnReply(Receive(s, id, code), k, wait, n)
  {
    var s' := Receive(s, id, code);
    assert s'.heard[n..] == s.heard[n..] + [(id, code)];
    assert (id, code) in s'.heard[n..];
  }

  lemma OwnReplyKept(s: State, l: Label, k: nat, wait: int, n: nat)
    requires Inv(s) && Enabled(s, l) && OwnReply(s, k, wait, n) && wait != 0
    ensures OwnReply(Next(s, l), k, wait, n)
  {
    assert ReqInv(s, k, s.reqs[k]);
    match l
    case Send(_) =>
    case Skip =>
    case Advance(j) => OwnReplyAdvance(s, j, k, wait, n);
    case Timeout(j) =>
    case Reply(id, code) => OwnReplyHeard(s, id, code, k, wait, n);
  }

  lemma {:induction false} OwnReplyRun(s: State, ls: seq<Label>, k: nat, wait: int, n: nat)
    requires Inv(s) && IsRun(s, ls) && OwnReply(s, k, wait, n) && wait != 0
    ensures OwnReply(After(s, ls), k, wait, n)
    decreases |ls|
  {
    if ls != [] {
      OwnReplyKept(s, ls[0], k, wait, n);
      NextKeepsInv(s, ls[0]);
      OwnReplyRun(Next(s, ls[0]), ls[1..], k, wait, n);
    }
  }

  function RepliesOf(ls: seq<Label>): (r: seq<(nat, int)>) {
    if ls == [] then []
    else (if ls[0].Reply? then [(ls[0].id, ls[0].code)] else []) + RepliesOf(ls[1..])
  }

  lemma {:induction false} RepliesIn(ls: seq<Label>, id: nat, code: int)
    requires (id, code) in RepliesOf(ls)
    ensures Reply(id, code) in ls
  {
    if ls[0] != Reply(id, code) {
      RepliesIn(ls[1..], id, code);
    }
  }

  /** What is heard during a run is its replies, in order. */
  lemma {:induction false} HeardWasSent(s: State, ls: seq<Label>)
    requires IsRun(s, ls)
    ensures After(s, ls).heard == s.heard + RepliesOf(ls)
    decreases |ls|
  {
    if ls != [] {
      HeardWasSent(Next(s, ls[0]), ls[1..]);
    }
  }

  /** What a request whose code is its own may return. */
  lemma OwnReturn(s: State, k: nat, wait: int, n: nat, after: seq<Label>)
    requires Inv(s) && OwnReply(s, k, wait, n) && wait != 0 && s.heard[n..] == RepliesOf(after)
    requires s.reqs[k].pc.Returned?
    ensures match s.reqs[k].pc.out
            case Code(code) => Reply(Id(k), code) in after
            case TimedOut => wait > 0
  {
    assert ReqInv(s, k, s.reqs[k]);
    if s.reqs[k].pc.out.Code? {
      RepliesIn(after, Id(k), s.reqs[k].pc.out.code);
    }
  }

  /** The state after a request was sent and anything else happened. */
  lemma SentThenRun(s: State, wait: int, after: seq<Label>)
    requires Inv(s) && wait != 0 && IsRun(Next(s, Send(wait)), after)
    ensures var s1 := Next(s, Send(wait));
            var s' := After(s1, after);
            Inv(s') && OwnReply(s', s1.issued, wait, |s1.heard|) && s'.heard[|s1.heard|..] == RepliesOf(after)
  {
    var s1 := Next(s, Send(wait));
    NextKeepsInv(s, Send(wait));
    OwnReplyRun(s1, after, s1.issued, wait, |s1.heard|);
    RunKeepsInv(s1, after);
    HeardWasSent(s1, after);
  }

  /**
    In every interleaving a send that asks to wait returns the code of a reply that carries its id
    and is processed after it was sent, or ETIMEDOUT if it set a deadline; and the pending counter
    is always the length of the queue, which is in send order.
   */
  lemma WaitingSendReturns(before: seq<Label>, wait: int, after: seq<Label>)
    requires IsRun(START, before) && wait != 0
    requires IsRun(Next(After(START, before), Send(wait)), after)
    ensures var s := After(Next(After(START, before), Send(wait)), after);
            var k := After(START, before).issued + 1;
            && s.pending == |s.queue| && Increasing(s.queue)
            && k in s.reqs
            && (s.reqs[k].pc.Returned? ==>
                  match s.reqs[k].pc.out
                  case Code(code) => Reply(Id(k), code) in after
                  case TimedOut => wait > 0)
  {
    RunKeepsInv(START, before);
    var s1 := Next(After(START, before), Send(wait));
    SentThenRun(After(START, before), wait, after);
    if After(s1, after).reqs[s1.issued].pc.Returned? {
      OwnReturn(After(s1, after), s1.issued, wait, |s1.heard|, after);
    }
  }

  /** Request k does not wait; its code is 0 or that of a reply heard after the first n. */
  ghost predicate OwnCode(s: State, k: nat, n: nat) {
    && n <= |s.heard| && k in s.reqs && s.reqs[k].wait0 == 0
    && (s.reqs[k].code == 0 || (Id(k), s.reqs[k].code) in s.heard[n..])
    && (s.reqs[k].pc.Returned? && s.reqs[k].pc.out.Code? ==>
          s.reqs[k].pc.out.code == 0 || (Id(k), s.reqs[k].pc.out.code) in s.heard[n..])
  }

  lemma OwnCodeAdvance(s: State, j: nat, k: nat, n: nat)
    requires Inv(s) && Enabled(s, Advance(j)) && OwnCode(s, k, n)
    ensures OwnCode(StepOf(s, j), k, n)
  {
    if j != k {
      assert StepOf(s, j).reqs[k] == s.reqs[k];
    }
  }

  lemma OwnCodeHeard(s: State, id: nat, code: int, k: nat, n: nat)
    requires Inv(s) && OwnCode(s, k, n)
    ensures OwnCode(Receive(s, id, code), k, n)
  {
    var s' := Receive(s, id, code);
    assert s'.heard[n..] == s.heard[n..] + [(id, code)];
    assert (id, code) in s'.heard[n..];
  }

  lemma OwnCodeKept(s: State, l: Label, k: nat, n: nat)
    requires Inv(s) && Enabled(s, l) && OwnCode(s, k, n)
    ensures OwnCode(Next(s, l), k, n)
  {
    assert ReqInv(s, k, s.reqs[k]);
    match l
    case Send(_) =>
    case Skip =>
    case Advance(j) => OwnCodeAdvance(s, j, k, n);
    case Timeout(j) =>
    case Reply(id, code) => OwnCodeHeard(s, id, code, k, n);
  }

  lemma {:induction false} OwnCodeRun(s: State, ls: seq<Label>, k: nat, n: nat)
    requires Inv(s) && IsRun(s, ls) && OwnCode(s, k, n)
    ensures OwnCode(After(s, ls), k, n)
    decreases |ls|
  {
    if ls != [] {
      OwnCodeKept(s, ls[0], k, n);
      NextKeepsInv(s, ls[0]);
      OwnCodeRun(Next(s, ls[0]), ls[1..], k, n);
    }
  }

  /**
    A send that does not wait: whenever it has returned, it has returned 0 or the code of a reply
    that carries its id and was processed after it was sent. It never blocks and never times out.
   */
  lemma NoWaitReturns(before: seq<Label>, after: seq<Label>)
    requires IsRun(START, before) && IsRun(Next(After(START, before), Send(0)), after)
    ensures var s := After(Next(After(START, before), Send(0)), after);
            var k := After(START, before).issued + 1;
            && k in s.reqs && !s.reqs[k].pc.Blocked?
            && (s.reqs[k].pc.Returned? ==>
                  match s.reqs[k].pc.out
                  case Code(code) => code == 0 || Reply(Id(k), code) in after
                  case TimedOut => false)
  {
    RunKeepsInv(START, before);
    var s1 := Next(After(START, before), Send(0));
    var k, n := s1.issued, |s1.heard|;
    NextKeepsInv(After(START, before), Send(0));
    OwnCodeRun(s1, after, k, n);
    NoWaitReturn(s1, after, k, n);
  }

  lemma NoWaitReturn(s1: State, after: seq<Label>, k: nat, n: nat)
    requires Inv(s1) && IsRun(s1, after) && n == |s1.heard| && OwnCode(After(s1, after), k, n)
    ensures var q := After(s1, after).reqs[k];
            && !q.pc.Blocked?
            && (q.pc.Returned? ==> q.pc.out.Code? && (q.pc.out.code == 0 || Reply(Id(k), q.pc.out.code) in after))
  {
    RunKeepsInv(s1, after);
    HeardWasSent(s1, after);
    var s := After(s1, after);
    assert s.heard[n..] == RepliesOf(after);
    assert ReqInv(s, k, s.reqs[k]);
    if s.reqs[k].pc.Returned? && s.reqs[k].pc.out.Code? && s.reqs[k].pc.out.code != 0 {
      RepliesIn(after, Id(k), s.reqs[k].pc.out.code);
    }
  }

  /** Own steps an answered sender still has to take. */
  function Rank(pc: Pc): (n: nat)
    requires !pc.Sleeping? && !pc.Blocked?
  {
    match pc
    case Written => 2
    case Timing => 2
    case Locking(_) => 4
    case Holding(_) => 3
    case Woken => 3
    case Expired => 3
    case Unlocking(_) => 2
    case Finishing => 1
    case GivingUp => 1
    case Returned(_) => 0
  }

  predicate Answered(s: State, k: nat) {
    k in s.reqs && s.reqs[k].done
  }

  lemma AnsweredAdvance(s: State, j: nat, k: nat)
    requires Inv(s) && Enabled(s, Advance(j)) && Answered(s, k)
    ensures Answered(StepOf(s, j), k)
    ensures var (pc, pc') := (s.reqs[k].pc, StepOf(s, j).reqs[k].pc);
            && !pc.Sleeping? && !pc.Blocked? && !pc'.Sleeping? && !pc'.Blocked?
            && Rank(pc) == Rank(pc') + if j == k then 1 else 0
  {
    assert ReqInv(s, k, s.reqs[k]);
    if j != k {
      assert StepOf(s, j).reqs[k] == s.reqs[k];
    }
  }

  lemma AnsweredReply(s: State, id: nat, code: int, k: nat)
    requires Inv(s) && Enabled(s, Reply(id, code)) && Answered(s, k)
    ensures Answered(Receive(s, id, code), k)
    ensures s.reqs[k].pc == Receive(s, id, code).reqs[k].pc
  {
    assert ReqInv(s, k, s.reqs[k]);
  }

  /** An answered sender stays answered, only its own steps move it, and each brings it one step nearer. */
  lemma AnsweredStep(s: State, l: Label, k: nat)
    requires Inv(s) && Enabled(s, l) && Answered(s, k)
    ensures Answered(Next(s, l), k)
    ensures var (pc, pc') := (s.reqs[k].pc, Next(s, l).reqs[k].pc);
            && !pc.Sleeping? && !pc.Blocked? && !pc'.Sleeping? && !pc'.Blocked?
            && Rank(pc) == Rank(pc') + if l == Advance(k) then 1 else 0
  {
    assert ReqInv(s, k, s.reqs[k]);
    match l
    case Send(_) =>
    case Skip =>
    case Advance(j) => AnsweredAdvance(s, j, k);
    case Timeout(j) =>
    case Reply(id, code) => AnsweredReply(s, id, code, k);
  }

  function OwnSteps(ls: seq<Label>, k: nat): (n: nat) {
    if ls == [] then 0 else (if ls[0] == Advance(k) then 1 else 0) + OwnSteps(ls[1..], k)
  }

  lemma {:induction false} AnsweredRun(s: State, ls: seq<Label>, k: nat)
    requires Inv(s) && IsRun(s, ls) && Answered(s, k)
    ensures Answered(After(s, ls), k)
    ensures var (pc, pc') := (s.reqs[k].pc, After(s, ls).reqs[k].pc);
            && !pc.Sleeping? && !pc.Blocked? && !pc'.Sleeping? && !pc'.Blocked?
            && Rank(pc) == Rank(pc') + OwnSteps(ls, k)
    decreases |ls|
  {
    assert ReqInv(s, k, s.reqs[k]);
    if ls != [] {
      AnsweredStep(s, ls[0], k);
      NextKeepsInv(s, ls[0]);
      AnsweredRun(Next(s, ls[0]), ls[1..], k);
    }
  }

  lemma ReplyAnswers(s: State, k: nat, code: int)
    requires Inv(s) && Enabled(s, Reply(Id(k), code))
    requires k in s.queue && s.issued - s.queue[0] < ID_COUNT && s.reqs[k].wait != 0
    ensures Inv(Receive(s, Id(k), code)) && Answered(Receive(s, Id(k), code), k)
  {
    ReplyReachesItsRequest(s.queue, s.issued, k);
    ReplyKeepsInv(s, Id(k), code);
  }

  /**
    No lost wake-up. Take any run, let the receiver process the reply to a
    queued waiting request k issued fewer than 65536 headers ago, and continue in any
    way: k is never blocked again, it can always take a step until it has
    returned, and four steps of its own are enough.
   */
  lemma NoLostWakeup(before: seq<Label>, k: nat, code: int, after: seq<Label>)
    requires IsRun(START, before)
    requires var s := After(START, before);
             && k in s.queue && s.issued - s.queue[0] < ID_COUNT
             && k in s.reqs && s.reqs[k].wait != 0
             && Enabled(s, Reply(Id(k), code)) && IsRun(Next(s, Reply(Id(k), code)), after)
    ensures var s := After(Next(After(START, before), Reply(Id(k), code)), after);
            && k in s.reqs && !s.reqs[k].pc.Blocked? && !s.reqs[k].pc.Sleeping?
            && OwnSteps(after, k) <= 4
            && (Enabled(s, Advance(k)) || s.reqs[k].pc.Returned?)
            && (OwnSteps(after, k) == 4 ==> s.reqs[k].pc.Returned?)
  {
    RunKeepsInv(START, before);
    var s := After(START, before);
    ReplyAnswers(s, k, code);
    AnsweredRun(Receive(s, Id(k), code), after, k);
  }

  /** Own steps a sender whose deadline has passed still has to take. */
  function ExpiredRank(pc: Pc): (n: int) {
    match pc
    case Expired => 3
    case Unlocking(expired) => if expired then 2 else -1
    case GivingUp => 1
    case Returned(out) => if out.TimedOut? then 0 else -1
    case _ => -1
  }

  lemma ExpiredStep(s: State, l: Label, k: nat)
    requires Inv(s) && Enabled(s, l) && k in s.reqs && ExpiredRank(s.reqs[k].pc) >= 0
    ensures k in Next(s, l).reqs
    ensures ExpiredRank(s.reqs[k].pc) == ExpiredRank(Next(s, l).reqs[k].pc) + if l == Advance(k) then 1 else 0
    ensures ExpiredRank(Next(s, l).reqs[k].pc) >= 0
  {
    assert ReqInv(s, k, s.reqs[k]);
    if l.Advance? && l.k != k {
      assert StepOf(s, l.k).reqs[k] == s.reqs[k];
    }
  }

  lemma {:induction false} ExpiredRun(s: State, ls: seq<Label>, k: nat)
    requires Inv(s) && IsRun(s, ls) && k in s.reqs && ExpiredRank(s.reqs[k].pc) >= 0
    ensures k in After(s, ls).reqs && ExpiredRank(After(s, ls).reqs[k].pc) >= 0
    ensures ExpiredRank(s.reqs[k].pc) == ExpiredRank(After(s, ls).reqs[k].pc) + OwnSteps(ls, k)
    decreases |ls|
  {
    if ls != [] {
      ExpiredStep(s, ls[0], k);
      NextKeepsInv(s, ls[0]);
      ExpiredRun(Next(s, ls[0]), ls[1..], k);
    }
  }

  /**
    A deadline is kept: once it has passed while the sender was blocked, whatever happens next, a
    late reply included, the send returns ETIMEDOUT after three steps of its own.
   */
  lemma DeadlineKept(before: seq<Label>, k: nat, after: seq<Label>)
    requires IsRun(START, before) && Enabled(After(START, before), Timeout(k))
    requires IsRun(Next(After(START, before), Timeout(k)), after)
    ensures var s := After(Next(After(START, before), Timeout(k)), after);
            && k in s.reqs && OwnSteps(after, k) <= 3
            && (OwnSteps(after, k) == 3 <==> s.reqs[k].pc == Returned(TimedOut))
  {
    RunKeepsInv(START, before);
    NextKeepsInv(After(START, before), Timeout(k));
    ExpiredRun(Next(After(START, before), Timeout(k)), after, k);
  }

  // ----- leaving the queue -----

  /** How often request k left the queue during a run. */
  function Departures(s: State, ls: seq<Label>, k: nat): (n: nat)
    requires IsRun(s, ls)
    decreases |ls|
  {
    if ls == [] then 0
    else
      var s1 := Next(s, ls[0]);
      (if k in s.queue && k !in s1.queue then 1 else 0) + Departures(s1, ls[1..], k)
  }

  lemma NeverReenters(s: State, l: Label, k: nat)
    requires Inv(s) && Enabled(s, l)
    requires k <= s.issued && k !in s.queue
    ensures k <= Next(s, l).issued && k !in Next(s, l).queue
  {
  }

  lemma {:induction false} DeparturesCounted(s: State, ls: seq<Label>, k: nat)
    requires Inv(s) && IsRun(s, ls) && k <= s.issued
    ensures Departures(s, ls, k) == if k in s.queue && k !in After(s, ls).queue then 1 else 0
    ensures k !in s.queue ==> k !in After(s, ls).queue
    decreases |ls|
  {
    if ls != [] {
      NextKeepsInv(s, ls[0]);
      DeparturesCounted(Next(s, ls[0]), ls[1..], k);
      if k !in s.queue {
        NeverReenters(s, ls[0], k);
      }
    }
  }

  /** A request that was queued has left the queue exactly once by the time its send returns. */
  lemma LeavesExactlyOnce(before: seq<Label>, k: nat, after: seq<Label>)
    requires IsRun(START, before) && k in After(START, before).queue
    requires IsRun(After(START, before), after)
    requires var s := After(After(START, before), after); k in s.reqs && s.reqs[k].pc.Returned?
    ensures Departures(After(START, before), after, k) == 1
  {
    RunKeepsInv(START, before);
    var s := After(START, before);
    assert exists i :: 0 <= i < |s.queue| && s.queue[i] == k;
    RunKeepsInv(s, after);
    var s' := After(s, after);
    assert ReqInv(s', k, s'.reqs[k]);
    DeparturesCounted(s, after, k);
  }
}
