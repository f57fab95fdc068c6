/** That the conditions of transparency are exact: a run for every list of calls, and kernels that tell
    a call that arrived from one that did not. */
module Exactness {
  import opened Options
  import opened Bytes
  import opened Messages
  import opened Posting
  import opened Protocol
  import opened Reference
  import opened ProtocolInvariant
  import opened Transparency
  import opened SizeBound

  // ---------------------------------------------------------------- every call can be run

  /** The call in progress has still to be served. */
  predicate ToServe<S>(s: State<S>) {
    s.h.phase.Filled? || s.h.phase.Posting? || Unserved(s)
  }

  predicate OnTrack(p: HostPhase) {
    !p.Draining? && !p.Exited?
  }

  /** A step on the way to the end of the call. */
  lemma StepOnTrack<S(!new)>(k: Kernel<S>, r0: RtnMsg, s: State<S>, t: Step)
    requires Inv(k, r0, s) && OnTrack(s.h.phase) && Enabled(s, t)
    requires !t.StartCall? && !t.PostNoMemory? && !t.PostFatal? && !t.DrainEnd?
    ensures var r := Do(k, s, t);
            && OnTrack(r.h.phase) && r.log.gaveUp == s.log.gaveUp
            && (t.SHandle? ==> ToServe(s) && !ToServe(r) && r.log.envs == s.log.envs + [t.env])
            && (!t.SHandle? ==> ToServe(r) == ToServe(s) && r.log.envs == s.log.envs)
  {
    hide Fill, ClientResult, ServerSys, DirectSys, Reply, ClearRtn, ClearReq;
    hide History, ReplyIntact, RequestIntact, Wakeups;
    match t {
      case DeliverRequest => RecvsAppend(s.s.nic.cq, RecvImm(s.toServer[0].imm));
      case AckServer => RecvsAppend(s.s.nic.cq, SendDone);
      case _ =>
    }
  }

  /** From any point of a call the call can be run to its end, with the environment e for its handler. */
  lemma {:induction false} FinishCall<S(!new)>(k: Kernel<S>, r0: RtnMsg, s: State<S>, e: Env) returns (steps: seq<Step>)
    requires KernelOk(k) && Inv(k, r0, s) && OnTrack(s.h.phase)
    ensures ValidRun(k, s, steps) && Internal(steps)
    ensures var r := After(k, s, steps);
            && Inv(k, r0, r) && r.h.phase.Idle?
            && r.log.posted == s.log.posted + Unposted(s)
            && r.log.envs == s.log.envs + (if ToServe(s) then [e] else [])
    decreases Rank(s)
  {
    hide Do, Enabled, History, RequestIntact, ReplyIntact;
    if s.h.phase.Idle? {
      steps := [];
      assert !ToServe(s);
    } else {
      var t := NeverStuck(s, e);
      var r := Do(k, s, t);
      RankDecreases(k, r0, s, t);
      InvKept(k, r0, s, t);
      StepOnTrack(k, r0, s, t);
      PostedStep(k, s, t);
      assert s.log.posted + Unposted(s) + [] == s.log.posted + Unposted(s);
      var more := FinishCall(k, r0, r, e);
      steps := [t] + more;
      Single(k, s, t);
      Join(k, s, [t], more);
    }
  }

  lemma RunCall<S(!new)>(k: Kernel<S>, r0: RtnMsg, s: State<S>, c: Call, e: Env) returns (steps: seq<Step>)
    requires KernelOk(k) && Inv(k, r0, s) && s.h.phase.Idle? && WellFormed(c) && InBound(c)
    ensures ValidRun(k, s, steps) && Bounded(steps)
    ensures var r := After(k, s, steps);
            Inv(k, r0, r) && r.h.phase.Idle? && r.log.posted == s.log.posted + [c] && r.log.envs == s.log.envs + [e]
  {
    var t := StartCall(c);
    var r := Do(k, s, t);
    InvKept(k, r0, s, t);
    var more := FinishCall(k, r0, r, e);
    steps := [t] + more;
    Single(k, s, t);
    Join(k, s, [t], more);
  }

  predicate Fine(calls: seq<Call>) {
    forall i :: 0 <= i < |calls| ==> WellFormed(calls[i]) && InBound(calls[i])
  }

  lemma BlankStarts(k: Kernel<int>)
    requires k.init == 0
    ensures Init(k, BLANK) && Inv(k, BLANK.s.rtn, BLANK)
    ensures BLANK.h.phase.Idle? && BLANK.log.posted == [] && BLANK.log.envs == [] && BLANK.log.results == []
  {
    InitHolds(k, BLANK);
  }

  /** For every list of calls, and every environment for each, there is a run. */
  lemma {:induction false} RunCalls(k: Kernel<int>, calls: seq<Call>, envs: seq<Env>) returns (steps: seq<Step>)
    requires KernelOk(k) && k.init == 0 && Fine(calls) && |envs| == |calls|
    ensures Init(k, BLANK) && ValidRun(k, BLANK, steps) && Bounded(steps)
    ensures var r := After(k, BLANK, steps);
            && Inv(k, BLANK.s.rtn, r) && r.h.phase.Idle?
            && r.log.posted == calls && r.log.envs == envs && |r.log.results| == |calls|
    decreases |calls|
  {
    hide Do, Enabled, History, RequestIntact, ReplyIntact, Wakeups, Init;
    BlankStarts(k);
    if calls == [] {
      steps := [];
    } else {
      var n := |calls| - 1;
      var before := RunCalls(k, calls[..n], envs[..n]);
      var s := After(k, BLANK, before);
      var more := RunCall(k, BLANK.s.rtn, s, calls[n], envs[n]);
      steps := before + more;
      Join(k, BLANK, before, more);
      assert calls == calls[..n] + [calls[n]] && envs == envs[..n] + [envs[n]];
    }
  }

  // ---------------------------------------------------------------- when calls are transparent

  /** Whatever the kernel and the schedule, a program that makes these calls, with these environments
      for the handlers, sees the kernel's direct answers. */
  ghost predicate AlwaysTransparent(calls: seq<Call>, envs: seq<Env>) {
    forall k: Kernel<int>, s: State<int>, steps: seq<Step> ::
      KernelOk(k) && Init(k, s) && ValidRun(k, s, steps) && Bounded(steps)
      && After(k, s, steps).log.posted == calls && After(k, s, steps).log.envs == envs
      ==> AllTransparent(k, After(k, s, steps).log)
  }

  /** A call that is safe to make: no socket option, and delivered. */
  predicate Safe(c: Call, e: Env)
    requires WellFormed(c)
  {
    c.op != SETSOCKOPT && c.op != GETSOCKOPT && Delivered(c, e)
  }

  lemma SafeCallsAreTransparent(k: Kernel<int>, s: State<int>, steps: seq<Step>)
    requires KernelOk(k) && Init(k, s) && ValidRun(k, s, steps) && Bounded(steps)
    requires var log := After(k, s, steps).log;
             && Fine(log.posted) && |log.envs| == |log.posted|
             && forall i :: 0 <= i < |log.posted| ==> Safe(log.posted[i], log.envs[i])
    ensures AllTransparent(k, After(k, s, steps).log)
  {
    hide Do, Enabled, Transparent, Delivered;
    CallsAreTransparent(k, s, steps);
    var log := After(k, s, steps).log;
    forall i | 0 <= i < |log.results|
      ensures Transparent(k, log.posted, i, log.results[i])
    {
      assert forall j :: 0 <= j <= i ==> Safe(log.posted[j], log.envs[j]);
      assert AllDelivered(log, i);
      assert Safe(log.posted[i], log.envs[i]) && TransparentAt(k, s.s.rtn, log, i);
    }
  }

  /** A kernel that takes one system call and fails every other. */
  function Picky(x: Sys): Kernel<int> {
    Kernel(0, (st: int, sys: Sys) => (st, if sys == x then Answer(0, 0, []) else Answer(-1, 9, [])))
  }

  /** A kernel that fails every socket option and nothing else. */
  const SULKING: Kernel<int> :=
    Kernel(0, (st: int, sys: Sys) => (st, if IsSockopt(sys.op) then Answer(-1, 92, []) else Answer(0, 0, [])))

  lemma {:induction false} NothingToReport(sys: seq<Sys>, n: nat)
    requires n <= |sys|
    ensures RestValue(SULKING, 0, sys, n) == 0
  {
    if n > 0 {
      NothingToReport(sys, n - 1);
    }
  }

  lemma UndeliveredShows(calls: seq<Call>, envs: seq<Env>, i: nat)
    requires Fine(calls) && |envs| == |calls| && i < |calls|
    requires !IsSockopt(calls[i].op) && !Delivered(calls[i], envs[i])
    ensures !AlwaysTransparent(calls, envs)
  {
    hide Do, Enabled, Delivered, Inv, ValidRun, After, Init;
    var k := Picky(DirectSys(calls[i]));
    var steps := RunCalls(k, calls, envs);
    CallsAreAnswered(k, BLANK, steps);
    var log := After(k, BLANK, steps).log;
    assert ServedRight(log.posted[i], log.envs[i], log.served[i]);
    assert log.served[i] != DirectSys(calls[i]);
    assert AnswerAt(k, log.served, i).value == -1 && AnswerAt(k, Direct(calls), i).value == 0;
    UndeliveredOps(calls[i], envs[i]);
    assert AnsweredAt(k, BLANK.s.rtn, log, i);
    assert Answers(k, log.served, i, calls[i], log.results[i]);
    assert !Transparent(k, log.posted, i, log.results[i]);
    assert !AllTransparent(k, log);
  }

  lemma UndeliveredOps(c: Call, e: Env)
    requires WellFormed(c) && !Delivered(c, e)
    ensures c.op == SELECT || c.op == FCNTL
  {
  }

  lemma SockoptShows(calls: seq<Call>, envs: seq<Env>, i: nat)
    requires Fine(calls) && |envs| == |calls| && i < |calls| && IsSockopt(calls[i].op)
    ensures !AlwaysTransparent(calls, envs)
  {
    hide Do, Enabled, Delivered, Wakeups, RequestIntact, ReplyIntact, ValidRun, After, Init;
    var k := SULKING;
    var steps := RunCalls(k, calls, envs);
    CallsAreAnswered(k, BLANK, steps);
    var log := After(k, BLANK, steps).log;
    assert ServedRight(log.posted[i], log.envs[i], log.served[i]);
    NothingToReport(log.served, i);
    assert Matches(k, BLANK.s.rtn, log.served, i, calls[i], log.results[i]);
    assert AnswerAt(k, Direct(calls), i).value == -1;
    assert !Transparent(k, log.posted, i, log.results[i]);
    assert !AllTransparent(k, log);
  }

  /** Calls within the size bound are transparent for every kernel and every schedule if and only if
      none of them is a socket option and all of them are delivered: that is, every SELECT brings all
      its sets and a timeout and a read set that begins like the flag, every lock command a lock, and
      every number of an FCNTL happens to be the address or the register that takes its place. */
  lemma TransparencyIsExact(calls: seq<Call>, envs: seq<Env>)
    requires Fine(calls) && |envs| == |calls|
    ensures AlwaysTransparent(calls, envs) <==> forall i :: 0 <= i < |calls| ==> Safe(calls[i], envs[i])
  {
    hide Do, Enabled, Delivered, ValidRun, After, AllTransparent, KernelOk;
    if i :| 0 <= i < |calls| && !Safe(calls[i], envs[i]) {
      if IsSockopt(calls[i].op) {
        SockoptShows(calls, envs, i);
      } else {
        UndeliveredShows(calls, envs, i);
      }
    } else {
      forall k: Kernel<int>, s: State<int>, steps: seq<Step> |
        KernelOk(k) && Init(k, s) && ValidRun(k, s, steps) && Bounded(steps)
        && After(k, s, steps).log.posted == calls && After(k, s, steps).log.envs == envs
        ensures AllTransparent(k, After(k, s, steps).log)
      {
        SafeCallsAreTransparent(k, s, steps);
      }
    }
  }

  /** A kernel that opens sockets as descriptor n and succeeds with 0 in everything else. */
  function Opening(n: int): Kernel<int> {
    Kernel(0, (st: int, sys: Sys) => (st, if sys.op == SOCKET then Answer(n, 0, []) else Answer(0, 0, [])))
  }

  const SOCKET_CALL: Call := Call(SOCKET, 0, 0, 0, [], false, Plain)

  /** A program that opens a socket and sets an option on it gets the descriptor as the result of
      `setsockopt`, although the kernel has answered 0. */
  lemma OptionReturnsDescriptor(n: int, c: Call, e: Env) returns (steps: seq<Step>)
    requires 0 < n < 0x8000_0000 && c.op == SETSOCKOPT && WellFormed(c)
    ensures KernelOk(Opening(n)) && Init(Opening(n), BLANK) && ValidRun(Opening(n), BLANK, steps)
    ensures var log := After(Opening(n), BLANK, steps).log;
            && log.posted == [SOCKET_CALL, c] && |log.results| == 2 && AllWellFormed(log.posted)
            && log.results[1].value == n && AnswerAt(Opening(n), Direct(log.posted), 1).value == 0
  {
    hide Do, Enabled, Delivered, Wakeups, RequestIntact, ReplyIntact, ValidRun, After, Init;
    var k := Opening(n);
    steps := RunCalls(k, [SOCKET_CALL, c], [e, e]);
    CallsAreAnswered(k, BLANK, steps);
    var log := After(k, BLANK, steps).log;
    assert ServedRight(log.posted[0], log.envs[0], log.served[0]);
    assert ServedRight(log.posted[1], log.envs[1], log.served[1]);
    assert Matches(k, BLANK.s.rtn, log.served, 1, c, log.results[1]);
    assert RestValue(k, 0, log.served, 1) == n;
  }

  /** A kernel that writes everything and fails everything else. */
  const WRITING: Kernel<int> :=
    Kernel(0, (st: int, sys: Sys) =>
      (st, if sys.op == WRITE && 0 <= sys.len < 0x8000_0000 then Answer(sys.len, 0, []) else Answer(-1, 9, [])))

  lemma WritingOk()
    ensures KernelOk(WRITING)
  {
  }

  /** The clear after a WRITE reaches the result of the reply: a socket option right after a WRITE
      returns 0, although the WRITE returned its length and the option failed. */
  lemma OptionAfterWriteReturnsZero(w: Call, c: Call, e: Env) returns (steps: seq<Step>)
    requires w.op == WRITE && WellFormed(w) && InBound(w) && w.bufSz > 0
    requires (c.op == SETSOCKOPT || c.op == GETSOCKOPT) && WellFormed(c)
    ensures KernelOk(WRITING) && Init(WRITING, BLANK) && ValidRun(WRITING, BLANK, steps)
    ensures var log := After(WRITING, BLANK, steps).log;
            && log.posted == [w, c] && |log.results| == 2 && AllWellFormed(log.posted)
            && log.results[0].value == w.bufSz && log.results[1].value == 0
            && AnswerAt(WRITING, Direct(log.posted), 1).value == -1
  {
    hide Do, Enabled, Wakeups, RequestIntact, ReplyIntact, ValidRun, After, Init, KernelOk;
    var k := WRITING;
    WritingOk();
    steps := RunCalls(k, [w, c], [e, e]);
    CallsAreAnswered(k, BLANK, steps);
    var log := After(k, BLANK, steps).log;
    assert ServedRight(log.posted[0], log.envs[0], log.served[0]) && log.served[0] == DirectSys(w);
    assert ServedRight(log.posted[1], log.envs[1], log.served[1]);
    assert Matches(k, BLANK.s.rtn, log.served, 0, w, log.results[0]);
    assert Matches(k, BLANK.s.rtn, log.served, 1, c, log.results[1]);
    assert RestValue(k, 0, log.served, 1) == 0;
  }
}
