/** The request/reply protocol of one connection as a state machine. Every step is one action of
    the host thread, of the server thread or of the network, and steps interleave freely.

    What the machine takes for granted: a posted write carries the buffer as it was when it was
    posted; writes of one direction arrive in order; a write with immediate waits for a receive
    credit; no completion fails; and a request does not land between the posting of a reply and
    the clears that follow it in the handler (the host pauses before it posts). */
module Protocol {
  import opened Bytes
  import opened Messages
  import opened Posting

  // ---------------------------------------------------------------- completion queues

  datatype WC = SendDone | RecvImm(imm: int)

  /** One end of the queue pair: the completion queue shared by sends and receives, the
      notification it raises when it is armed, and the posted receives. */
  datatype Nic = Nic(cq: seq<WC>, armed: bool, events: nat, credits: nat)

  /** A completion arrives. Only an armed queue raises an event, and raising one disarms it. */
  function Complete(n: Nic, wc: WC): Nic {
    n.(cq := n.cq + [wc], armed := false, events := if n.armed then n.events + 1 else n.events)
  }

  /** However many completions arrive, an armed queue raises one event until it is armed again. */
  lemma NotificationIsOneShot(n: Nic, a: WC, b: WC)
    ensures Complete(Complete(n, a), b).events == n.events + (if n.armed then 1 else 0)
    ensures Complete(Complete(n, a), b).cq == n.cq + [a] + [b] && !Complete(n, a).armed
  {
  }

  function Recvs(cq: seq<WC>): nat {
    if cq == [] then 0 else (if cq[0].RecvImm? then 1 else 0) + Recvs(cq[1..])
  }

  // ---------------------------------------------------------------- states

  datatype HostPhase =
    | Idle                                  // outside set_req_sock
    | Filled                                // request written, receive not posted
    | Posting(attempt: nat)                 // about to call ibv_post_send
    | Draining(attempt: nat, polled: nat)   // ibv_post_send reported ENOMEM
    | Waiting                               // in ibv_get_cq_event
    | Event                                 // event taken and acknowledged
    | Polling                               // queue re-armed
    | Exited                                // the process called exit

  datatype Host = Host(phase: HostPhase, call: Call, req: ReqMsg, rtn: RtnMsg, nic: Nic)

  datatype ServerPhase =
    | SWaiting | SEvent | SPolling
    | SHandling                             // request polled, receive reposted
    | SReplying(left: nat)                  // handler done, replies left to post
    | SClearing                             // reply posted, clears to come

  datatype Server<S> = Server(phase: ServerPhase, req: ReqMsg, rtn: RtnMsg, fd: int, kst: S, nic: Nic)

  datatype RequestWrite = RequestWrite(req: ReqMsg, imm: int)
  datatype ReplyWrite = ReplyWrite(rtn: RtnMsg, imm: int)

  /** What has happened so far: calls whose request was posted, outcomes returned, calls that
      gave up before posting, host receives posted, replies delivered, system calls made by the
      handlers and what each handler found around it. */
  datatype Log = Log(posted: seq<Call>, results: seq<Outcome>, gaveUp: nat, recvs: nat, delivered: nat,
                     served: seq<Sys>, envs: seq<Env>)

  datatype State<S> = State(
    h: Host, s: Server<S>,
    toServer: seq<RequestWrite>, toHost: seq<ReplyWrite>,
    hAcks: nat, sAcks: nat,                 // delivered writes whose sender has no completion yet
    log: Log)

  predicate Sized<S>(s: State<S>) {
    && |s.h.req.data| == |s.s.req.data| == BUFFER_SIZE
    && WellSized(s.h.rtn) && WellSized(s.s.rtn)
    && (forall m :: m in s.toServer ==> |m.req.data| == BUFFER_SIZE)
    && (forall m :: m in s.toHost ==> WellSized(m.rtn))
  }

  // ---------------------------------------------------------------- steps

  datatype Step =
    // host
    | StartCall(call: Call) | PostRecv | PostOk | PostNoMemory | PostFatal | DrainOne | DrainEnd
    | HGetEvent | HArm | HPollSend | HPollRecv | HPollEmpty
    // server
    | SGetEvent | SArm | SPollSend | SPollRecv | SPollEmpty | SHandle(env: Env) | SPostReply | SClear
    // network
    | DeliverRequest | DeliverReply | AckHost | AckServer

  predicate Enabled<S>(s: State<S>, step: Step) {
    match step
    case StartCall(c) => s.h.phase.Idle? && WellFormed(c)
    case PostRecv => s.h.phase.Filled?
    case PostOk | PostNoMemory | PostFatal => s.h.phase.Posting?
    case DrainOne => s.h.phase.Draining? && s.h.phase.polled < POLL_ATTEMPTS && s.h.nic.cq != []
    case DrainEnd => s.h.phase.Draining?
    case HGetEvent => s.h.phase.Waiting? && s.h.nic.events > 0
    case HArm => s.h.phase.Event?
    case HPollSend => s.h.phase.Polling? && s.h.nic.cq != [] && s.h.nic.cq[0].SendDone?
    case HPollRecv => s.h.phase.Polling? && s.h.nic.cq != [] && s.h.nic.cq[0].RecvImm?
    case HPollEmpty => s.h.phase.Polling? && s.h.nic.cq == []
    case SGetEvent => s.s.phase.SWaiting? && s.s.nic.events > 0
    case SArm => s.s.phase.SEvent?
    case SPollSend => s.s.phase.SPolling? && s.s.nic.cq != [] && s.s.nic.cq[0].SendDone?
    case SPollRecv => s.s.phase.SPolling? && s.s.nic.cq != [] && s.s.nic.cq[0].RecvImm?
    case SPollEmpty => s.s.phase.SPolling? && s.s.nic.cq == []
    case SHandle(_) => s.s.phase.SHandling?
    case SPostReply => s.s.phase.SReplying? && s.s.phase.left > 0
    case SClear => s.s.phase.SClearing?
    case DeliverRequest => s.toServer != [] && s.s.nic.credits > 0 && !s.s.phase.SClearing?
    case DeliverReply => s.toHost != [] && s.h.nic.credits > 0
    case AckHost => s.hAcks > 0
    case AckServer => s.sAcks > 0
  }

  function Do<S>(k: Kernel<S>, s: State<S>, step: Step): (r: State<S>)
    requires Sized(s) && Enabled(s, step)
    ensures Sized(r)
  {
    var h, sv, log := s.h, s.s, s.log;
    match step
    // host/rdma_client.c: set_req_sock up to post_write_req
    case StartCall(c) =>
      s.(h := h.(phase := Filled, call := c, req := Fill(h.req.data, c)))
    case PostRecv =>
      s.(h := h.(phase := Posting(0), nic := h.nic.(credits := h.nic.credits + 1)),
         log := log.(recvs := log.recvs + 1))
    // post_write_req
    case PostOk =>
      s.(h := h.(phase := Waiting), toServer := s.toServer + [RequestWrite(h.req, h.call.fd)],
         log := log.(posted := log.posted + [h.call]))
    case PostNoMemory =>
      s.(h := h.(phase := Draining(h.phase.attempt, 0)))
    case PostFatal =>
      s.(h := h.(phase := Exited))
    case DrainOne =>
      s.(h := h.(phase := Draining(h.phase.attempt, h.phase.polled + 1), nic := Pop(h.nic)))
    case DrainEnd =>
      if h.phase.attempt < MAX_RETRIES
      then s.(h := h.(phase := Posting(h.phase.attempt + 1)))
      else s.(h := h.(phase := Idle), log := log.(gaveUp := log.gaveUp + 1))
    // process_rdma_get_cq_event and process_poll_cq_imm of the host
    case HGetEvent =>
      s.(h := h.(phase := Event, nic := h.nic.(events := h.nic.events - 1)))
    case HArm =>
      s.(h := h.(phase := Polling, nic := h.nic.(armed := true)))
    case HPollSend =>
      s.(h := h.(nic := Pop(h.nic)))
    case HPollRecv =>
      s.(h := h.(phase := Idle, nic := Pop(h.nic)),
         log := log.(results := log.results + [ClientResult(h.call, h.rtn)]))
    case HPollEmpty =>
      s.(h := h.(phase := Waiting))
    // process_poll_cq_imm of the server
    case SGetEvent =>
      s.(s := sv.(phase := SEvent, nic := sv.nic.(events := sv.nic.events - 1)))
    case SArm =>
      s.(s := sv.(phase := SPolling, nic := sv.nic.(armed := true)))
    case SPollSend =>
      s.(s := sv.(nic := Pop(sv.nic)))
    case SPollRecv =>
      s.(s := sv.(phase := SHandling, fd := sv.nic.cq[0].imm,
                  nic := Pop(sv.nic).(credits := sv.nic.credits + 1)))
    case SPollEmpty =>
      s.(s := sv.(phase := SWaiting))
    // rdma_req_event and write_msg_to_client
    case SHandle(env) =>
      var sys := ServerSys(sv.req, sv.fd, env);
      var (kst, a) := k.step(sv.kst, sys);
      s.(log := log.(served := log.served + [sys], envs := log.envs + [env]),
         s := sv.(phase := SReplying(ReplyCount(sv.req.op, a.value)), kst := kst,
                  rtn := Reply(sv.req.op, sv.rtn, a),
                  fd := if sv.req.op == EPOLL_CREATE1 && a.value >= 0 then a.value else sv.fd))
    case SPostReply =>
      s.(s := sv.(phase := if sv.phase.left > 1 then SReplying(sv.phase.left - 1) else SClearing),
         toHost := s.toHost + [ReplyWrite(sv.rtn, sv.fd)])
    case SClear =>
      s.(s := sv.(phase := SPolling, rtn := ClearRtn(sv.req.op, sv.rtn), req := ClearReq(sv.req)))
    // the network
    case DeliverRequest =>
      var m := s.toServer[0];
      s.(s := sv.(req := m.req, nic := Complete(sv.nic.(credits := sv.nic.credits - 1), RecvImm(m.imm))),
         toServer := s.toServer[1..], hAcks := s.hAcks + 1)
    case DeliverReply =>
      var m := s.toHost[0];
      s.(h := h.(rtn := m.rtn, nic := Complete(h.nic.(credits := h.nic.credits - 1), RecvImm(m.imm))),
         toHost := s.toHost[1..], sAcks := s.sAcks + 1,
         log := log.(delivered := log.delivered + 1))
    case AckHost =>
      s.(h := h.(nic := Complete(h.nic, SendDone)), hAcks := s.hAcks - 1)
    case AckServer =>
      s.(s := sv.(nic := Complete(sv.nic, SendDone)), sAcks := s.sAcks - 1)
  }

  /** A reply carries the descriptor of its request, or the one that `epoll_create1` has made. */
  lemma ReplyDescriptor<S>(k: Kernel<S>, s: State<S>, e: Env)
    requires Sized(s) && Enabled(s, SHandle(e))
    ensures var r, a := Do(k, s, SHandle(e)), k.step(s.s.kst, ServerSys(s.s.req, s.s.fd, e)).1;
            && Enabled(r, SPostReply)
            && Do(k, r, SPostReply).toHost[|s.toHost|].imm ==
               if s.s.req.op == EPOLL_CREATE1 && a.value >= 0 then a.value else s.s.fd
  {
  }

  /** A call gives up after its fourth attempt, and not before; a drain takes up to 32 completions. */
  lemma FourAttempts<S>(k: Kernel<S>, s: State<S>)
    requires Sized(s) && Enabled(s, DrainEnd)
    ensures Enabled(s, DrainOne) <==> s.h.phase.polled < 32 && s.h.nic.cq != []
    ensures Do(k, s, DrainEnd).h.phase == if s.h.phase.attempt < 3 then Posting(s.h.phase.attempt + 1) else Idle
  {
  }

  function Pop(n: Nic): Nic
    requires n.cq != []
  {
    n.(cq := n.cq[1..])
  }

  // ---------------------------------------------------------------- runs

  predicate SendsOnly(cq: seq<WC>) {
    forall wc :: wc in cq ==> wc.SendDone?
  }

  /** A connection right after `connect_server` and `connect_client_r_info`: both queues have been
      armed since their last event, the server has one receive posted, and completions of the
      metadata exchange may still be around. The reply buffer holds whatever memory held. */
  ghost predicate Init<S>(k: Kernel<S>, s: State<S>) {
    && Sized(s)
    && s.h.phase.Idle? && s.s.phase.SWaiting? && s.s.kst == k.init
    && SendsOnly(s.h.nic.cq) && SendsOnly(s.s.nic.cq)
    && (s.h.nic.armed || s.h.nic.events > 0)
    && (s.s.nic.armed || s.s.nic.events > 0) && (s.s.nic.cq != [] ==> s.s.nic.events > 0)
    && s.h.nic.credits == 0 && s.s.nic.credits == 1
    && s.toServer == [] && s.toHost == []
    && s.log == Log([], [], 0, 0, 0, [], [])
  }

  predicate ValidRun<S>(k: Kernel<S>, s: State<S>, steps: seq<Step>)
    requires Sized(s)
    decreases |steps|
  {
    steps == [] || (Enabled(s, steps[0]) && ValidRun(k, Do(k, s, steps[0]), steps[1..]))
  }

  function After<S>(k: Kernel<S>, s: State<S>, steps: seq<Step>): (r: State<S>)
    requires Sized(s) && ValidRun(k, s, steps)
    ensures Sized(r)
    decreases |steps|
  {
    if steps == [] then s else After(k, Do(k, s, steps[0]), steps[1..])
  }

  /** Every call of a run keeps to the size bound. */
  predicate Bounded(steps: seq<Step>) {
    forall t :: t in steps && t.StartCall? ==> InBound(t.call)
  }

  /** A run without a new call. */
  predicate Internal(steps: seq<Step>) {
    forall t :: t in steps ==> !t.StartCall?
  }
}
