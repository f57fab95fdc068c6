/** What every step of the protocol keeps. */
module ProtocolInvariant {
  import opened Bytes
  import opened Messages
  import opened Posting
  import opened Protocol
  import opened Reference

  // ---------------------------------------------------------------- counting completions

  lemma {:induction false} RecvsAppend(cq: seq<WC>, wc: WC)
    ensures Recvs(cq + [wc]) == Recvs(cq) + (if wc.RecvImm? then 1 else 0)
  {
    if cq == [] {
      assert cq + [wc] == [wc];
    } else {
      RecvsAppend(cq[1..], wc);
      assert (cq + [wc])[1..] == cq[1..] + [wc];
    }
  }

  lemma SendsOnlySplits(cq: seq<WC>)
    requires cq != []
    ensures SendsOnly(cq) <==> cq[0].SendDone? && SendsOnly(cq[1..])
  {
    assert cq[0] in cq;
    assert forall wc :: wc in cq <==> wc == cq[0] || wc in cq[1..];
  }

  lemma {:induction false} RecvsZero(cq: seq<WC>)
    ensures Recvs(cq) == 0 <==> SendsOnly(cq)
  {
    if cq != [] {
      RecvsZero(cq[1..]);
      SendsOnlySplits(cq);
    }
  }

  // ---------------------------------------------------------------- the one token

  /** The host is waiting for the reply to a posted request. */
  predicate Requested(p: HostPhase) {
    p.Waiting? || p.Event? || p.Polling?
  }

  /** The host has posted the receive of its current call. */
  predicate HasReceive(p: HostPhase) {
    Requested(p) || p.Posting? || p.Draining? || p.Exited?
  }

  predicate Serving(p: ServerPhase) {
    p.SHandling? || p.SReplying?
  }

  /** Requests and replies anywhere between the two programs. */
  function InFlight<S>(s: State<S>): nat {
    |s.toServer| + Recvs(s.s.nic.cq) + (if Serving(s.s.phase) then 1 else 0)
    + |s.toHost| + Recvs(s.h.nic.cq)
  }

  predicate Tokens<S>(s: State<S>) {
    && InFlight(s) == (if Requested(s.h.phase) then 1 else 0)
    && (s.s.phase.SReplying? ==> s.s.phase.left == 1)
    && (s.s.phase.SClearing? ==> Recvs(s.s.nic.cq) == 0)
    && s.s.nic.credits + Recvs(s.s.nic.cq) == 1
    && s.h.nic.credits + Recvs(s.h.nic.cq) == s.log.gaveUp + (if HasReceive(s.h.phase) then 1 else 0)
    && s.log.recvs == s.log.delivered + s.h.nic.credits
    && s.log.delivered == |s.log.results| + Recvs(s.h.nic.cq)
    && |s.log.posted| == |s.log.results| + (if Requested(s.h.phase) then 1 else 0)
    && (s.h.phase.Posting? || s.h.phase.Draining? ==> s.h.phase.attempt <= MAX_RETRIES)
  }

  lemma TokensHost<S>(k: Kernel<S>, s: State<S>, step: Step)
    requires Sized(s) && Tokens(s) && Enabled(s, step) && IsHost(step)
    ensures Tokens(Do(k, s, step))
  {
    hide Fill, ClientResult, ServerSys, DirectSys, Reply, ClearRtn, ClearReq;
  }

  lemma TokensServer<S>(k: Kernel<S>, s: State<S>, step: Step)
    requires Sized(s) && Tokens(s) && Enabled(s, step) && IsServer(step)
    requires step.SHandle? ==> Do(k, s, step).s.phase == SReplying(1)
    ensures Tokens(Do(k, s, step))
  {
    hide Fill, ClientResult, ServerSys, DirectSys, Reply, ClearRtn, ClearReq;
  }

  lemma TokensNetwork<S>(k: Kernel<S>, s: State<S>, step: Step)
    requires Sized(s) && Tokens(s) && Enabled(s, step) && !IsHost(step) && !IsServer(step)
    ensures Tokens(Do(k, s, step))
  {
    hide Fill, ClientResult, ServerSys, DirectSys, Reply, ClearRtn, ClearReq;
    match step {
      case DeliverRequest => RecvsAppend(s.s.nic.cq, RecvImm(s.toServer[0].imm));
      case DeliverReply => RecvsAppend(s.h.nic.cq, RecvImm(s.toHost[0].imm));
      case AckHost => RecvsAppend(s.h.nic.cq, SendDone);
      case AckServer => RecvsAppend(s.s.nic.cq, SendDone);
    }
  }

  lemma TokensKept<S>(k: Kernel<S>, s: State<S>, step: Step)
    requires Sized(s) && Tokens(s) && Enabled(s, step)
    requires step.SHandle? ==> Do(k, s, step).s.phase == SReplying(1)
    ensures Tokens(Do(k, s, step))
  {
    hide Tokens, Do, Enabled;
    if IsHost(step) {
      TokensHost(k, s, step);
    } else if IsServer(step) {
      TokensServer(k, s, step);
    } else {
      TokensNetwork(k, s, step);
    }
  }

  // ---------------------------------------------------------------- wakeups

  predicate Wakeups<S>(s: State<S>) {
    && (!s.h.phase.Event? ==> s.h.nic.armed || s.h.nic.events > 0)
    && (s.h.phase.Waiting? && Recvs(s.h.nic.cq) > 0 ==> s.h.nic.events > 0)
    && (!s.s.phase.SEvent? ==> s.s.nic.armed || s.s.nic.events > 0)
    && (s.s.phase.SWaiting? && s.s.nic.cq != [] ==> s.s.nic.events > 0)
  }

  lemma WakeupsKept<S>(k: Kernel<S>, s: State<S>, step: Step)
    requires Sized(s) && Tokens(s) && Wakeups(s) && Enabled(s, step)
    ensures Wakeups(Do(k, s, step))
  {
    hide Fill, ClientResult, ServerSys, DirectSys, Reply, ClearRtn, ClearReq;
    match step {
      case DeliverReply => RecvsAppend(s.h.nic.cq, RecvImm(s.toHost[0].imm));
      case AckHost => RecvsAppend(s.h.nic.cq, SendDone);
      case _ =>
    }
  }

  // ---------------------------------------------------------------- contents

  /** The host's request has not reached the kernel yet. */
  predicate Unserved<S>(s: State<S>) {
    s.toServer != [] || Recvs(s.s.nic.cq) > 0 || s.s.phase.SHandling?
  }

  /** How many calls the kernel has executed. */
  function Served<S>(s: State<S>): nat {
    if Unserved(s) then |s.log.results| else |s.log.posted|
  }

  /** A handler made the direct call exactly if the call was delivered. */
  predicate ServedRight(c: Call, e: Env, sys: Sys) {
    WellFormed(c) && sys.op == c.op && (sys == DirectSys(c) <==> Delivered(c, e))
  }

  ghost predicate History<S>(k: Kernel<S>, r0: RtnMsg, s: State<S>) {
    var calls, sys, n := s.log.posted, s.log.served, |s.log.results|;
    && n <= |sys| <= |calls| && |sys| == |s.log.envs| == Served(s)
    && (forall i :: 0 <= i < |calls| ==> WellFormed(calls[i]) && InBound(calls[i]))
    && (forall i :: 0 <= i < |sys| ==> ServedRight(calls[i], s.log.envs[i], sys[i]))
    && (forall i :: 0 <= i < n ==> Matches(k, r0, sys, i, calls[i], s.log.results[i]))
    && s.s.kst == KernelAfter(k, sys, |sys|)
  }

  ghost predicate Reaches(req: ReqMsg, c: Call) {
    |req.data| == BUFFER_SIZE && forall e :: ServedRight(c, e, ServerSys(req, c.fd, e))
  }

  /** The request is the same wherever it is, and right for the kernel. */
  ghost predicate RequestIntact<S>(s: State<S>) {
    var h := s.h;
    && (h.phase.Filled? || HasReceive(h.phase) ==>
          WellFormed(h.call) && InBound(h.call) && h.req.op == h.call.op && Reaches(h.req, h.call))
    && (Requested(h.phase) && s.log.posted != [] ==> s.log.posted[|s.log.posted| - 1] == h.call)
    && (forall m :: m in s.toServer ==> m == RequestWrite(h.req, h.call.fd))
    && (forall wc :: wc in s.s.nic.cq && wc.RecvImm? ==> wc.imm == h.call.fd && s.s.req == h.req)
    && (s.s.phase.SHandling? ==> s.s.req == h.req && s.s.fd == h.call.fd)
  }

  /** The reply is the right one wherever it is, and the server's buffer is at rest otherwise. */
  predicate ReplyIntact<S>(k: Kernel<S>, r0: RtnMsg, s: State<S>) {
    var sys, n := s.log.served, |s.log.results|;
    var m := |sys|;
    && (match s.s.phase
        case SReplying(_) => ReplyFor(k, r0, sys, n, s.s.rtn) && s.s.req.op == sys[n].op
        case SClearing => m > 0 && s.s.req.op == sys[m - 1].op
                          && s.s.rtn.value == ReplyValue(k, r0.value, sys, m - 1)
        case _ => s.s.rtn.value == RestValue(k, r0.value, sys, m) && s.s.rtn.errno == RestErrno(r0.errno, m))
    && (forall w :: w in s.toHost ==> ReplyFor(k, r0, sys, n, w.rtn))
    && (Recvs(s.h.nic.cq) > 0 ==> ReplyFor(k, r0, sys, n, s.h.rtn))
  }

  ghost predicate Inv<S>(k: Kernel<S>, r0: RtnMsg, s: State<S>) {
    Sized(s) && Tokens(s) && Wakeups(s) && History(k, r0, s) && RequestIntact(s) && ReplyIntact(k, r0, s)
  }

  lemma InitHolds<S>(k: Kernel<S>, s: State<S>)
    requires Init(k, s)
    ensures Inv(k, s.s.rtn, s)
  {
    RecvsZero(s.h.nic.cq);
    RecvsZero(s.s.nic.cq);
  }

  predicate IsHost(step: Step) {
    match step
    case StartCall(_) | PostRecv | PostOk | PostNoMemory | PostFatal | DrainOne | DrainEnd
      | HGetEvent | HArm | HPollSend | HPollRecv | HPollEmpty => true
    case _ => false
  }

  predicate IsServer(step: Step) {
    match step
    case SGetEvent | SArm | SPollSend | SPollRecv | SPollEmpty | SHandle(_) | SPostReply | SClear => true
    case _ => false
  }

  lemma RequestIntactStart<S>(k: Kernel<S>, s: State<S>, c: Call)
    requires Sized(s) && Tokens(s) && RequestIntact(s) && Enabled(s, StartCall(c)) && InBound(c)
    ensures RequestIntact(Do(k, s, StartCall(c)))
  {
    var req := Fill(s.h.req.data, c);
    forall e
      ensures ServedRight(c, e, ServerSys(req, c.fd, e))
    {
      RequestReachesKernel(s.h.req.data, c, e);
    }
    assert Reaches(req, c);
    RecvsZero(s.s.nic.cq);
  }

  lemma RequestIntactHost<S>(k: Kernel<S>, s: State<S>, step: Step)
    requires Sized(s) && Tokens(s) && RequestIntact(s) && Enabled(s, step) && IsHost(step) && !step.StartCall?
    ensures RequestIntact(Do(k, s, step))
  {
    hide Fill, ClientResult, ServerSys, DirectSys, Reply, ClearRtn, ClearReq;
  }

  lemma RequestIntactServer<S>(k: Kernel<S>, s: State<S>, step: Step)
    requires Sized(s) && Tokens(s) && RequestIntact(s) && Enabled(s, step) && IsServer(step)
    ensures RequestIntact(Do(k, s, step))
  {
    var r := Do(k, s, step);
    assert forall wc :: wc in r.s.nic.cq ==> wc in s.s.nic.cq;
    if step.SClear? {
      RecvsZero(s.s.nic.cq);
    }
  }

  lemma RequestIntactNetwork<S>(k: Kernel<S>, s: State<S>, step: Step)
    requires Sized(s) && Tokens(s) && RequestIntact(s) && Enabled(s, step) && !IsHost(step) && !IsServer(step)
    ensures RequestIntact(Do(k, s, step))
  {
    RecvsZero(s.s.nic.cq);
    assert forall m :: m in Do(k, s, step).toServer ==> m in s.toServer;
    if step.DeliverRequest? {
      assert s.toServer[0] in s.toServer;
    }
  }

  // ---------------------------------------------------------------- histories and replies

  /** Serving a call adds a system call at the end and leaves the past alone. */
  lemma PastKept<S>(k: Kernel<S>, r0: RtnMsg, sys: seq<Sys>, x: Sys)
    ensures KernelAfter(k, sys + [x], |sys|) == KernelAfter(k, sys, |sys|)
    ensures RestValue(k, r0.value, sys + [x], |sys|) == RestValue(k, r0.value, sys, |sys|)
    ensures forall i, c, out :: 0 <= i < |sys| && Matches(k, r0, sys, i, c, out) ==>
              Matches(k, r0, sys + [x], i, c, out)
  {
    KernelAfterExtends(k, sys, x, |sys|);
    RestValueExtends(k, r0.value, sys, x, |sys|);
    forall i, c, out | 0 <= i < |sys| && Matches(k, r0, sys, i, c, out)
      ensures Matches(k, r0, sys + [x], i, c, out)
    {
      ReplyExtends(k, r0, sys, x, i);
    }
  }

  lemma ReadIsDelivered(c: Call, e: Env, sys: Sys)
    requires ServedRight(c, e, sys)
    ensures c.op == READ ==> sys.len == c.bufSz
  {
  }

  lemma OneReply(c: Call, e: Env, sys: Sys, a: Answer)
    requires ServedRight(c, e, sys) && InBound(c) && AnswerOk(sys, a)
    ensures ReplyCount(c.op, a.value) == 1
  {
    ReadIsDelivered(c, e, sys);
  }

  /** What the handler's step touches. */
  lemma HandleChanges<S>(k: Kernel<S>, s: State<S>, e: Env)
    requires Sized(s) && Enabled(s, SHandle(e))
    ensures var r, x := Do(k, s, SHandle(e)), ServerSys(s.s.req, s.s.fd, e);
            var (kst, a) := k.step(s.s.kst, x);
            && r.log.posted == s.log.posted && r.log.results == s.log.results
            && r.log.served == s.log.served + [x] && r.log.envs == s.log.envs + [e]
            && r.s.kst == kst && r.s.rtn == Reply(s.s.req.op, s.s.rtn, a) && r.s.req == s.s.req
            && r.s.phase == SReplying(ReplyCount(s.s.req.op, a.value)) && r.s.nic == s.s.nic
            && r.toHost == s.toHost && r.toServer == s.toServer && r.h == s.h
  {
  }

  /** The handler's step: the kernel executes the next call and the reply is the right one. */
  lemma HandleStep<S(!new)>(k: Kernel<S>, r0: RtnMsg, s: State<S>, e: Env)
    requires KernelOk(k) && Inv(k, r0, s) && Enabled(s, SHandle(e))
    ensures var r := Do(k, s, SHandle(e));
            r.s.phase == SReplying(1) && History(k, r0, r) && ReplyIntact(k, r0, r)
  {
    hide Do, ServerSys, Reply, Delivered, Matches, ReplyValue, ReplyErrno, RestValue, WellFormed, InBound, Wakeups, StoresErrno, WritesPayload;
    var calls, sys, n := s.log.posted, s.log.served, |s.log.results|;
    assert Requested(s.h.phase) && |calls| == n + 1 && calls[n] == s.h.call && |sys| == n;
    var x := ServerSys(s.s.req, s.s.fd, e);
    HandleChanges(k, s, e);
    assert ServedRight(calls[n], e, x);
    PastKept(k, r0, sys, x);
    var sys' := sys + [x];
    var a := AnswerAt(k, sys', n);
    assert a == k.step(s.s.kst, x).1 && AnswerOk(x, a);
    OneReply(calls[n], e, x, a);
    HandlerReplies(k, r0, sys', n, s.s.rtn);
    assert Served(Do(k, s, SHandle(e))) == n + 1;
  }

  predicate Resting(p: ServerPhase) {
    !p.SReplying? && !p.SClearing?
  }

  /** Steps that move no message and run no handler. */
  predicate Quiet(step: Step) {
    step !in {PostOk, HPollRecv, SPostReply, SClear, DeliverRequest, DeliverReply} && !step.SHandle?
  }

  lemma QuietChangesLittle<S>(k: Kernel<S>, s: State<S>, step: Step)
    requires Sized(s) && Tokens(s) && Enabled(s, step) && Quiet(step)
    ensures var r := Do(k, s, step);
            && r.log.posted == s.log.posted && r.log.results == s.log.results
            && r.log.served == s.log.served && r.log.envs == s.log.envs
            && r.s.kst == s.s.kst && r.s.rtn == s.s.rtn && r.s.req == s.s.req && r.toHost == s.toHost
            && r.h.rtn == s.h.rtn && (Recvs(r.h.nic.cq) > 0 ==> Recvs(s.h.nic.cq) > 0)
            && Unserved(r) == Unserved(s)
            && (r.s.phase == s.s.phase || (Resting(r.s.phase) && Resting(s.s.phase)))
  {
    hide Fill, ClientResult, ServerSys, DirectSys, Reply, ClearRtn, ClearReq;
    match step {
      case AckHost => RecvsAppend(s.h.nic.cq, SendDone);
      case AckServer => RecvsAppend(s.s.nic.cq, SendDone);
      case _ =>
    }
  }

  lemma QuietKept<S(!new)>(k: Kernel<S>, r0: RtnMsg, s: State<S>, step: Step)
    requires Inv(k, r0, s) && Enabled(s, step) && Quiet(step)
    ensures History(k, r0, Do(k, s, step)) && ReplyIntact(k, r0, Do(k, s, step))
  {
    hide Do, Enabled, Quiet, Matches, KernelAfter, ReplyFor, InBound;
    QuietChangesLittle(k, s, step);
    assert Served(Do(k, s, step)) == Served(s);
  }

  lemma PostKept<S(!new)>(k: Kernel<S>, r0: RtnMsg, s: State<S>)
    requires Inv(k, r0, s) && Enabled(s, PostOk)
    ensures History(k, r0, Do(k, s, PostOk)) && ReplyIntact(k, r0, Do(k, s, PostOk))
  {
    hide Matches, KernelAfter, RestValue, ReplyValue, ServerSys, DirectSys;
    assert Served(Do(k, s, PostOk)) == Served(s) == |s.log.posted|;
  }

  lemma ReturnKept<S(!new)>(k: Kernel<S>, r0: RtnMsg, s: State<S>)
    requires KernelOk(k) && Inv(k, r0, s) && Enabled(s, HPollRecv)
    ensures History(k, r0, Do(k, s, HPollRecv)) && ReplyIntact(k, r0, Do(k, s, HPollRecv))
  {
    hide Delivered, Matches, ReplyFor, RestValue, ClientResult;
    var calls, sys, n, r := s.log.posted, s.log.served, |s.log.results|, Do(k, s, HPollRecv);
    assert s.h.call == calls[n];
    assert ServedRight(calls[n], s.log.envs[n], sys[n]);
    ReadIsDelivered(calls[n], s.log.envs[n], sys[n]);
    ReplyGivesOutcome(k, r0, sys, n, calls[n], s.h.rtn);
    assert r.log.posted == calls && r.log.served == sys && r.log.results == s.log.results + [ClientResult(calls[n], s.h.rtn)];
    assert !Unserved(s) && !Unserved(r) && r.s == s.s && r.toHost == [] && Recvs(r.h.nic.cq) == 0;
  }

  lemma ReplyPostKept<S(!new)>(k: Kernel<S>, r0: RtnMsg, s: State<S>)
    requires Inv(k, r0, s) && Enabled(s, SPostReply)
    ensures History(k, r0, Do(k, s, SPostReply)) && ReplyIntact(k, r0, Do(k, s, SPostReply))
  {
    hide Matches, KernelAfter, ServerSys, DirectSys, ClientResult, ServedRight, WellFormed, InBound, ReplyErrno;
    assert Served(Do(k, s, SPostReply)) == Served(s);
  }

  lemma ClearKept<S(!new)>(k: Kernel<S>, r0: RtnMsg, s: State<S>)
    requires Inv(k, r0, s) && Enabled(s, SClear)
    ensures History(k, r0, Do(k, s, SClear)) && ReplyIntact(k, r0, Do(k, s, SClear))
  {
    hide Matches, KernelAfter, ServerSys, DirectSys, ClientResult, ServedRight, WellFormed, InBound, ReplyErrno;
    assert Served(Do(k, s, SClear)) == Served(s);
  }

  lemma RequestDeliveryKept<S(!new)>(k: Kernel<S>, r0: RtnMsg, s: State<S>)
    requires Inv(k, r0, s) && Enabled(s, DeliverRequest)
    ensures History(k, r0, Do(k, s, DeliverRequest)) && ReplyIntact(k, r0, Do(k, s, DeliverRequest))
  {
    hide Matches, KernelAfter, RestValue, ReplyValue, ReplyErrno, ServedRight, WellFormed, InBound;
    RecvsAppend(s.s.nic.cq, RecvImm(s.toServer[0].imm));
    assert Served(Do(k, s, DeliverRequest)) == Served(s);
  }

  lemma ReplyDeliveryKept<S(!new)>(k: Kernel<S>, r0: RtnMsg, s: State<S>)
    requires Inv(k, r0, s) && Enabled(s, DeliverReply)
    ensures History(k, r0, Do(k, s, DeliverReply)) && ReplyIntact(k, r0, Do(k, s, DeliverReply))
  {
    hide Matches, KernelAfter, RestValue, ReplyValue, ReplyErrno, ServedRight, WellFormed, InBound;
    RecvsAppend(s.h.nic.cq, RecvImm(s.toHost[0].imm));
    assert s.toHost[0] in s.toHost;
    assert Served(Do(k, s, DeliverReply)) == Served(s);
  }

  lemma RequestIntactKept<S>(k: Kernel<S>, s: State<S>, step: Step)
    requires Sized(s) && Tokens(s) && RequestIntact(s) && Enabled(s, step)
    requires step.StartCall? ==> InBound(step.call)
    ensures RequestIntact(Do(k, s, step))
  {
    if step.StartCall? {
      RequestIntactStart(k, s, step.call);
    } else if IsHost(step) {
      RequestIntactHost(k, s, step);
    } else if IsServer(step) {
      RequestIntactServer(k, s, step);
    } else {
      RequestIntactNetwork(k, s, step);
    }
  }

  lemma HistoryKept<S(!new)>(k: Kernel<S>, r0: RtnMsg, s: State<S>, step: Step)
    requires KernelOk(k) && Inv(k, r0, s) && Enabled(s, step)
    ensures History(k, r0, Do(k, s, step)) && ReplyIntact(k, r0, Do(k, s, step))
  {
    hide Inv, History, ReplyIntact, Do, Enabled;
    if Quiet(step) {
      QuietKept(k, r0, s, step);
    } else if step.PostOk? {
      PostKept(k, r0, s);
    } else if step.HPollRecv? {
      ReturnKept(k, r0, s);
    } else if step.SHandle? {
      HandleStep(k, r0, s, step.env);
    } else if step.SPostReply? {
      ReplyPostKept(k, r0, s);
    } else if step.SClear? {
      ClearKept(k, r0, s);
    } else if step.DeliverRequest? {
      RequestDeliveryKept(k, r0, s);
    } else {
      ReplyDeliveryKept(k, r0, s);
    }
  }

  /** The invariant is inductive. */
  lemma InvKept<S(!new)>(k: Kernel<S>, r0: RtnMsg, s: State<S>, step: Step)
    requires KernelOk(k) && Inv(k, r0, s) && Enabled(s, step)
    requires step.StartCall? ==> InBound(step.call)
    ensures Inv(k, r0, Do(k, s, step))
  {
    if step.SHandle? {
      HandleStep(k, r0, s, step.env);
    }
    TokensKept(k, s, step);
    WakeupsKept(k, s, step);
    RequestIntactKept(k, s, step);
    HistoryKept(k, r0, s, step);
  }

  lemma {:induction false} InvAlways<S(!new)>(k: Kernel<S>, r0: RtnMsg, s: State<S>, steps: seq<Step>)
    requires KernelOk(k) && Inv(k, r0, s) && ValidRun(k, s, steps) && Bounded(steps)
    ensures Inv(k, r0, After(k, s, steps))
    decreases |steps|
  {
    if steps != [] {
      InvKept(k, r0, s, steps[0]);
      InvAlways(k, r0, Do(k, s, steps[0]), steps[1..]);
    }
  }
}
