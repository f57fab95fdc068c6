/** The protocol's promises over whole runs. */
module Transparency {
  import opened Options
  import opened Bytes
  import opened Messages
  import opened Posting
  import opened Protocol
  import opened Reference
  import opened ProtocolInvariant

  // ---------------------------------------------------------------- transparency

  /** A call returned what the kernel answers to the i-th of some system calls: result, errno, bytes
      read, and the output block where its handler sends one. A READ without a buffer is the one case
      that `set_req_sock` turns down by itself. */
  predicate Answers<S>(k: Kernel<S>, sys: seq<Sys>, i: nat, c: Call, out: Outcome)
    requires i < |sys|
  {
    var a := AnswerAt(k, sys, i);
    && (c.op in {EPOLL_WAIT, POLL, GETSOCKOPT, GETPEERNAME, GETSOCKNAME} && a.value >= 0 ==> a.payload <= out.block)
    && (c.op in {SELECT, READ} && a.value > 0 ==> a.payload <= out.block)
    && if c.op == READ && !c.hasBuf then
         out.value == -1 && out.errno == None && out.copied == []
       else
         && out.value == a.value
         && out.errno == (if a.value < 0 then Some(a.errno) else None)
         && out.copied == (if c.op == READ then a.payload else [])
         && (c.op == READ ==> |out.copied| <= c.bufSz)
  }

  /** The i-th call returned what the kernel answers when the same calls are made directly. */
  ghost predicate Transparent<S>(k: Kernel<S>, calls: seq<Call>, i: nat, out: Outcome)
    requires AllWellFormed(calls) && i < |calls|
  {
    Answers(k, Direct(calls), i, calls[i], out)
  }

  lemma MatchingIsTransparent<S(!new)>(k: Kernel<S>, r0: RtnMsg, sys: seq<Sys>, i: nat, c: Call, out: Outcome)
    requires KernelOk(k) && InBound(c) && Matches(k, r0, sys, i, c, out)
    requires c.op == sys[i].op && (c.op == READ ==> sys[i].len == c.bufSz)
    ensures c.op != SETSOCKOPT && c.op != GETSOCKOPT ==> Answers(k, sys, i, c, out)
    ensures c.op == SETSOCKOPT || c.op == GETSOCKOPT ==> (Answers(k, sys, i, c, out) <==> StaleAgrees(k, r0, sys, i))
    ensures var a := AnswerAt(k, sys, i);
            && (c.op in {EPOLL_WAIT, POLL, GETSOCKOPT, GETPEERNAME, GETSOCKNAME} && a.value >= 0 ==> a.payload <= out.block)
            && (c.op in {SELECT, READ} && a.value > 0 ==> a.payload <= out.block)
  {
    assert AnswerOk(sys[i], AnswerAt(k, sys, i));
  }

  /** A socket option call returns the value that the calls before it left in the reply buffer; this
      says that the kernel's own answer happens to be the same. */
  predicate StaleAgrees<S>(k: Kernel<S>, r0: RtnMsg, sys: seq<Sys>, i: nat)
    requires i < |sys|
  {
    var v, a := RestValue(k, r0.value, sys, i), AnswerAt(k, sys, i).value;
    if v < 0 then a == -1 else a >= 0 && a == ToInt32(v)
  }

  /** Every call of a run up to the i-th arrived as it was made. */
  ghost predicate AllDelivered(log: Log, i: nat)
    requires i < |log.posted| && i < |log.envs| && AllWellFormed(log.posted)
  {
    forall j :: 0 <= j <= i ==> Delivered(log.posted[j], log.envs[j])
  }

  /** The i-th result is the kernel's answer to the i-th system call: for all but socket options, for
      these exactly if the stale result agrees; and the output block comes along. */
  ghost predicate AnsweredAt<S>(k: Kernel<S>, r0: RtnMsg, log: Log, i: nat)
    requires i < |log.results| && i < |log.served| && i < |log.posted|
  {
    var c, out, a := log.posted[i], log.results[i], AnswerAt(k, log.served, i);
    && (if c.op == SETSOCKOPT || c.op == GETSOCKOPT
        then Answers(k, log.served, i, c, out) <==> StaleAgrees(k, r0, log.served, i)
        else Answers(k, log.served, i, c, out))
    && (c.op in {EPOLL_WAIT, POLL, GETSOCKOPT, GETPEERNAME, GETSOCKNAME} && a.value >= 0 ==> a.payload <= out.block)
    && (c.op in {SELECT, READ} && a.value > 0 ==> a.payload <= out.block)
  }

  /** In every run within the size bound, a call whose request was posted and that returned did so
      with the kernel's answer to the system call of its handler; the two socket option calls do
      exactly when the stale result happens to agree. */
  lemma CallsAreAnswered<S(!new)>(k: Kernel<S>, s: State<S>, steps: seq<Step>)
    requires KernelOk(k) && Init(k, s) && ValidRun(k, s, steps) && Bounded(steps)
    ensures var log := After(k, s, steps).log;
            && |log.results| <= |log.served| == |log.envs| <= |log.posted| <= |log.results| + 1
            && AllWellFormed(log.posted)
            && (forall i :: 0 <= i < |log.served| ==> ServedRight(log.posted[i], log.envs[i], log.served[i]))
            && forall i :: 0 <= i < |log.results| ==> AnsweredAt(k, s.s.rtn, log, i)
  {
    hide Do, Enabled, Delivered, Matches, Answers, StaleAgrees, Wakeups, RequestIntact, ReplyIntact;
    InitHolds(k, s);
    InvAlways(k, s.s.rtn, s, steps);
    var r := After(k, s, steps);
    forall i | 0 <= i < |r.log.results|
      ensures AnsweredAt(k, s.s.rtn, r.log, i)
    {
      ResultIsAnswer(k, s.s.rtn, r, i);
    }
  }

  lemma ResultIsAnswer<S(!new)>(k: Kernel<S>, r0: RtnMsg, r: State<S>, i: nat)
    requires KernelOk(k) && History(k, r0, r) && i < |r.log.results|
    ensures AnsweredAt(k, r0, r.log, i)
  {
    hide Delivered, Matches, Answers, StaleAgrees;
    var log := r.log;
    assert ServedRight(log.posted[i], log.envs[i], log.served[i]);
    ReadIsDelivered(log.posted[i], log.envs[i], log.served[i]);
    MatchingIsTransparent(k, r0, log.served, i, log.posted[i], log.results[i]);
  }

  /** The same against the calls made directly. */
  ghost predicate TransparentAt<S>(k: Kernel<S>, r0: RtnMsg, log: Log, i: nat)
    requires AllWellFormed(log.posted) && i < |log.results| && i < |log.posted|
  {
    var c, out, a := log.posted[i], log.results[i], AnswerAt(k, Direct(log.posted), i);
    && (if c.op == SETSOCKOPT || c.op == GETSOCKOPT
        then Transparent(k, log.posted, i, out) <==> StaleAgrees(k, r0, Direct(log.posted), i)
        else Transparent(k, log.posted, i, out))
    && (c.op in {EPOLL_WAIT, POLL, GETSOCKOPT, GETPEERNAME, GETSOCKNAME} && a.value >= 0 ==> a.payload <= out.block)
    && (c.op in {SELECT, READ} && a.value > 0 ==> a.payload <= out.block)
  }

  /** And as long as every call arrives as it was made, these are the answers of the kernel when the
      calls are made on it directly. */
  lemma CallsAreTransparent<S(!new)>(k: Kernel<S>, s: State<S>, steps: seq<Step>)
    requires KernelOk(k) && Init(k, s) && ValidRun(k, s, steps) && Bounded(steps)
    ensures var log := After(k, s, steps).log;
            && |log.results| <= |log.envs| <= |log.posted| <= |log.results| + 1 && AllWellFormed(log.posted)
            && forall i :: 0 <= i < |log.results| && AllDelivered(log, i) ==> TransparentAt(k, s.s.rtn, log, i)
  {
    hide Do, Enabled, Answers, StaleAgrees;
    CallsAreAnswered(k, s, steps);
    var log := After(k, s, steps).log;
    forall i | 0 <= i < |log.results| && AllDelivered(log, i)
      ensures TransparentAt(k, s.s.rtn, log, i)
    {
      assert forall j :: 0 <= j <= i ==> ServedRight(log.posted[j], log.envs[j], log.served[j]);
      assert AnsweredAt(k, s.s.rtn, log, i);
      SameAnswers(k, s.s.rtn, log.served, Direct(log.posted), i, log.posted[i], log.results[i]);
    }
  }

  lemma SameAnswers<S>(k: Kernel<S>, r0: RtnMsg, a: seq<Sys>, b: seq<Sys>, i: nat, c: Call, out: Outcome)
    requires i < |a| && i < |b| && forall j :: 0 <= j <= i ==> a[j] == b[j]
    ensures Answers(k, a, i, c, out) <==> Answers(k, b, i, c, out)
    ensures StaleAgrees(k, r0, a, i) <==> StaleAgrees(k, r0, b, i)
    ensures AnswerAt(k, a, i) == AnswerAt(k, b, i)
  {
    SameKernel(k, a, b, i);
    SameRest(k, r0.value, a, b, i);
  }

  /** The calls a run makes, and the call that is still on its way to the wire. */
  function CallsOf(steps: seq<Step>): seq<Call> {
    if steps == [] then []
    else (if steps[0].StartCall? then [steps[0].call] else []) + CallsOf(steps[1..])
  }

  function Unposted<S>(s: State<S>): seq<Call> {
    var p := s.h.phase;
    if p.Filled? || p.Posting? || p.Draining? || p.Exited? then [s.h.call] else []
  }

  lemma PostedStep<S>(k: Kernel<S>, s: State<S>, step: Step)
    requires Sized(s) && Enabled(s, step)
    ensures var t := Do(k, s, step);
            && t.log.gaveUp >= s.log.gaveUp
            && (t.log.gaveUp == s.log.gaveUp ==>
                  s.log.posted + Unposted(s) + (if step.StartCall? then [step.call] else [])
                  == t.log.posted + Unposted(t))
  {
    hide Fill, ClientResult, ServerSys, Reply, ClearRtn, ClearReq;
    if step.StartCall? {
      assert s.log.posted + [] + [step.call] == s.log.posted + [step.call];
    } else {
      var all := s.log.posted + Unposted(s);
      assert all + [] == all;
      if step.PostOk? {
        var t := Do(k, s, step);
        assert t.log.posted + Unposted(t) == t.log.posted;
      } else {
        PostedElsewhere(k, s, step);
      }
    }
  }

  lemma PostedElsewhere<S>(k: Kernel<S>, s: State<S>, step: Step)
    requires Sized(s) && Enabled(s, step) && !step.StartCall? && !step.PostOk?
    ensures var t := Do(k, s, step);
            && t.log.posted == s.log.posted
            && (t.log.gaveUp == s.log.gaveUp + 1 || (t.log.gaveUp == s.log.gaveUp && Unposted(t) == Unposted(s)))
  {
    hide Fill, ClientResult, ServerSys, Reply, ClearRtn, ClearReq;
  }

  lemma Regroup(a: seq<Call>, b: seq<Call>, c: seq<Call>)
    ensures a + (b + c) == a + b + c
  {
  }

  /** Unless a call gives up, the posted calls are the calls made, in order. */
  lemma {:induction false} PostedAreTheCalls<S>(k: Kernel<S>, s: State<S>, steps: seq<Step>)
    requires Sized(s) && ValidRun(k, s, steps)
    ensures var r := After(k, s, steps);
            && r.log.gaveUp >= s.log.gaveUp
            && (r.log.gaveUp == s.log.gaveUp ==>
                  s.log.posted + Unposted(s) + CallsOf(steps) == r.log.posted + Unposted(r))
    decreases |steps|
  {
    if steps != [] {
      var t := Do(k, s, steps[0]);
      PostedStep(k, s, steps[0]);
      PostedAreTheCalls(k, t, steps[1..]);
      Regroup(s.log.posted + Unposted(s), if steps[0].StartCall? then [steps[0].call] else [], CallsOf(steps[1..]));
    }
  }

  // ---------------------------------------------------------------- one reply per request

  /** At most one message is under way; each delivered reply answers one posted request; posted
      receives run ahead of delivered replies by at most one, plus one for every call that gave
      up; a write never has to wait for a receive; and a reply on its way or unread is the reply to
      the oldest call that has not returned. */
  lemma OneReplyPerRequest<S(!new)>(k: Kernel<S>, s: State<S>, steps: seq<Step>)
    requires KernelOk(k) && Init(k, s) && ValidRun(k, s, steps) && Bounded(steps)
    ensures var r := After(k, s, steps);
            && InFlight(r) <= 1 && |r.toServer| <= 1
            && |r.log.results| <= r.log.delivered <= |r.log.posted| <= |r.log.results| + 1
            && r.log.gaveUp <= r.log.recvs - r.log.delivered <= r.log.gaveUp + 1
            && (r.toServer != [] ==> r.s.nic.credits > 0)
            && (r.toHost != [] ==> r.h.nic.credits > 0)
            && (forall w :: w in r.toHost ==> ReplyFor(k, s.s.rtn, r.log.served, |r.log.results|, w.rtn))
            && (Recvs(r.h.nic.cq) > 0 ==> ReplyFor(k, s.s.rtn, r.log.served, |r.log.results|, r.h.rtn))
  {
    InitHolds(k, s);
    InvAlways(k, s.s.rtn, s, steps);
  }

  /** A program blocked without a pending event has nothing to miss, and a drain throws away only
      completions of sends. */
  lemma NoLostWakeup<S(!new)>(k: Kernel<S>, s: State<S>, steps: seq<Step>)
    requires KernelOk(k) && Init(k, s) && ValidRun(k, s, steps) && Bounded(steps)
    ensures var r := After(k, s, steps);
            && (r.s.phase.SWaiting? && r.s.nic.events == 0 ==> r.s.nic.armed && r.s.nic.cq == [])
            && (r.h.phase.Waiting? && r.h.nic.events == 0 ==> r.h.nic.armed && SendsOnly(r.h.nic.cq))
            && (r.h.phase.Draining? ==> SendsOnly(r.h.nic.cq))
  {
    InitHolds(k, s);
    InvAlways(k, s.s.rtn, s, steps);
    RecvsZero(After(k, s, steps).h.nic.cq);
  }

  // ---------------------------------------------------------------- every call completes

  function HostRank(p: HostPhase): nat
    requires p.Posting? || p.Draining? ==> p.attempt <= MAX_RETRIES
  {
    match p
    case Idle | Exited | Waiting => 0
    case Filled => 31
    case Posting(a) => 24 + 2 * (MAX_RETRIES - a)
    case Draining(a, _) => 23 + 2 * (MAX_RETRIES - a)
    case Event => 2
    case Polling => 1
  }

  function ServerRank(p: ServerPhase): nat {
    match p
    case SWaiting => 0
    case SEvent | SClearing => 2
    case SPolling => 1
    case SHandling => 14
    case SReplying(left) => 11 * left + 2
  }

  /** How many more steps the system can make on its own. */
  function Rank<S>(s: State<S>): nat
    requires Tokens(s)
  {
    HostRank(s.h.phase) + ServerRank(s.s.phase)
    + 23 * |s.toServer| + 10 * |s.toHost| + 5 * (s.hAcks + s.sAcks)
    + 3 * (s.h.nic.events + s.s.nic.events)
    + |s.h.nic.cq| + |s.s.nic.cq| + 13 * Recvs(s.s.nic.cq)
  }

  lemma RankDecreases<S(!new)>(k: Kernel<S>, r0: RtnMsg, s: State<S>, step: Step)
    requires KernelOk(k) && Inv(k, r0, s) && Enabled(s, step) && !step.StartCall?
    ensures Tokens(Do(k, s, step)) && Rank(Do(k, s, step)) < Rank(s)
  {
    if step.SHandle? {
      HandleStep(k, r0, s, step.env);
    }
    TokensKept(k, s, step);
    RankStep(k, s, step);
  }

  lemma RankStep<S>(k: Kernel<S>, s: State<S>, step: Step)
    requires Sized(s) && Tokens(s) && Enabled(s, step) && !step.StartCall? && Tokens(Do(k, s, step))
    ensures Rank(Do(k, s, step)) < Rank(s)
  {
    hide Fill, ClientResult, ServerSys, Reply, ClearRtn, ClearReq;
    if IsHost(step) {
      RankHost(k, s, step);
    } else {
      match step {
        case DeliverRequest => RecvsAppend(s.s.nic.cq, RecvImm(s.toServer[0].imm));
        case AckServer => RecvsAppend(s.s.nic.cq, SendDone);
        case _ =>
      }
    }
  }

  lemma RankHost<S>(k: Kernel<S>, s: State<S>, step: Step)
    requires Sized(s) && Tokens(s) && Enabled(s, step) && !step.StartCall? && Tokens(Do(k, s, step))
    requires IsHost(step)
    ensures Rank(Do(k, s, step)) < Rank(s)
  {
    hide Fill, ClientResult, ServerSys, DirectSys, Reply, ClearRtn, ClearReq;
  }

  /** While a call is in progress some step other than a new call is possible. */
  lemma NeverStuck<S>(s: State<S>, e: Env) returns (step: Step)
    requires Tokens(s) && Wakeups(s) && !s.h.phase.Idle? && !s.h.phase.Exited?
    ensures Enabled(s, step) && !step.StartCall? && (step.SHandle? ==> step.env == e)
    ensures !s.h.phase.Draining? ==> !step.PostNoMemory? && !step.PostFatal? && !step.DrainEnd?
  {
    match s.h.phase {
      case Filled => step := PostRecv;
      case Posting(_) => step := PostOk;
      case Draining(_, _) => step := DrainEnd;
      case Event => step := HArm;
      case Polling =>
        step := if s.h.nic.cq == [] then HPollEmpty
                else if s.h.nic.cq[0].SendDone? then HPollSend else HPollRecv;
      case Waiting =>
        if s.h.nic.events > 0 {
          step := HGetEvent;
        } else if s.toHost != [] {
          step := DeliverReply;
        } else {
          step := ServerCanMove(s, e);
        }
    }
  }

  lemma ServerCanMove<S>(s: State<S>, e: Env) returns (step: Step)
    requires Tokens(s) && Wakeups(s) && Requested(s.h.phase) && s.toHost == [] && Recvs(s.h.nic.cq) == 0
    ensures Enabled(s, step) && !IsHost(step) && (step.SHandle? ==> step.env == e)
  {
    match s.s.phase {
      case SHandling => step := SHandle(e);
      case SReplying(_) => step := SPostReply;
      case SClearing => step := SClear;
      case SEvent => step := SArm;
      case SPolling =>
        step := if s.s.nic.cq == [] then SPollEmpty
                else if s.s.nic.cq[0].SendDone? then SPollSend else SPollRecv;
      case SWaiting =>
        step := if s.toServer != [] then DeliverRequest else SGetEvent;
    }
  }

  lemma {:induction false} RankBoundsRuns<S(!new)>(k: Kernel<S>, r0: RtnMsg, s: State<S>, steps: seq<Step>)
    requires KernelOk(k) && Inv(k, r0, s) && ValidRun(k, s, steps) && Internal(steps)
    ensures |steps| <= Rank(s)
    ensures Inv(k, r0, After(k, s, steps))
    decreases |steps|
  {
    if steps != [] {
      RankDecreases(k, r0, s, steps[0]);
      InvKept(k, r0, s, steps[0]);
      RankBoundsRuns(k, r0, Do(k, s, steps[0]), steps[1..]);
    }
  }

  /** After any run, a run without new calls is at most Rank steps long, whatever the schedule; and
      when no such step is possible any more, no call is left hanging: the host is outside
      `set_req_sock` or has exited. */
  lemma EveryCallCompletes<S(!new)>(k: Kernel<S>, s: State<S>, before: seq<Step>, steps: seq<Step>)
    requires KernelOk(k) && Init(k, s) && ValidRun(k, s, before) && Bounded(before)
    requires ValidRun(k, After(k, s, before), steps) && Internal(steps)
    ensures Tokens(After(k, s, before)) && |steps| <= Rank(After(k, s, before))
    ensures var r := After(k, After(k, s, before), steps);
            (forall t: Step :: Enabled(r, t) ==> t.StartCall?) ==> r.h.phase.Idle? || r.h.phase.Exited?
  {
    InitHolds(k, s);
    InvAlways(k, s.s.rtn, s, before);
    RankBoundsRuns(k, s.s.rtn, After(k, s, before), steps);
    var r := After(k, After(k, s, before), steps);
    if !r.h.phase.Idle? && !r.h.phase.Exited? {
      var t := NeverStuck(r, Env(0, 0, [], [], []));
    }
  }
}
