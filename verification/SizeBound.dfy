/** Why READ lengths are bounded: a longer answer is posted more than once, and the surplus reply
    is taken for the answer to the next call. */
module SizeBound {
  import opened Bytes
  import opened Messages
  import opened Posting
  import opened Protocol
  import opened Reference
  import opened ProtocolInvariant
  import opened Transparency

  const LIMIT: nat := BUFFER_SIZE - HEADER_SIZE

  /** A kernel that has LIMIT bytes ready for anyone who asks for that many, and fails otherwise. */
  const BIG_READER: Kernel<int> :=
    Kernel(0, (st: int, sys: Sys) =>
      (st, if sys.op == READ && sys.len >= LIMIT then Answer(LIMIT, 0, Zeros(LIMIT)) else Answer(-1, 9, [])))

  function ReadOf(n: nat): Call {
    Call(READ, 3, n, 0, [], true, Plain)
  }

  const CLOSE_CALL: Call := Call(CLOSE, 3, 0, 0, [], false, Plain)

  const BLANK: State<int> :=
    var nic := Nic([], true, 0, 0);
    var req, rtn := ReqMsg(CLOSE, 0, 0, Zeros(BUFFER_SIZE)), RtnMsg(0, 0, Zeros(BUFFER_SIZE));
    State(Host(Idle, CLOSE_CALL, req, rtn, nic), Server(SWaiting, req, rtn, 0, 0, nic.(credits := 1)),
          [], [], 0, 0, Log([], [], 0, 0, 0, [], []))

  // ---------------------------------------------------------------- pieces of a run

  lemma Unfold<S>(k: Kernel<S>, s: State<S>, steps: seq<Step>)
    requires Sized(s) && steps != []
    ensures ValidRun(k, s, steps) <==> Enabled(s, steps[0]) && ValidRun(k, Do(k, s, steps[0]), steps[1..])
    ensures ValidRun(k, s, steps) ==> After(k, s, steps) == After(k, Do(k, s, steps[0]), steps[1..])
  {
  }

  lemma {:induction false} Join<S>(k: Kernel<S>, s: State<S>, a: seq<Step>, b: seq<Step>)
    requires Sized(s) && ValidRun(k, s, a) && ValidRun(k, After(k, s, a), b)
    ensures ValidRun(k, s, a + b) && After(k, s, a + b) == After(k, After(k, s, a), b)
    decreases |a|
  {
    hide Do, Enabled;
    if a == [] {
      assert a + b == b;
    } else {
      assert (a + b)[0] == a[0] && (a + b)[1..] == a[1..] + b;
      Unfold(k, s, a);
      Unfold(k, s, a + b);
      Join(k, Do(k, s, a[0]), a[1..], b);
    }
  }

  /** A single step is a run. */
  lemma Single<S>(k: Kernel<S>, s: State<S>, t: Step)
    requires Sized(s) && Enabled(s, t)
    ensures ValidRun(k, s, [t]) && After(k, s, [t]) == Do(k, s, t)
  {
    var r := Do(k, s, t);
    assert [t][1..] == [];
    assert ValidRun(k, r, []) && After(k, r, []) == r;
  }

  lemma Four<S>(k: Kernel<S>, s: State<S>, t0: Step, t1: Step, t2: Step, t3: Step)
    requires Sized(s) && Enabled(s, t0)
    requires Enabled(Do(k, s, t0), t1)
    requires Enabled(Do(k, Do(k, s, t0), t1), t2)
    requires Enabled(Do(k, Do(k, Do(k, s, t0), t1), t2), t3)
    ensures ValidRun(k, s, [t0, t1, t2, t3])
    ensures After(k, s, [t0, t1, t2, t3]) == Do(k, Do(k, Do(k, Do(k, s, t0), t1), t2), t3)
  {
    var s1 := Do(k, s, t0);
    var s2 := Do(k, s1, t1);
    var s3 := Do(k, s2, t2);
    Single(k, s, t0); Single(k, s1, t1); Single(k, s2, t2); Single(k, s3, t3);
    Join(k, s2, [t2], [t3]);
    Join(k, s1, [t1], [t2] + [t3]);
    Join(k, s, [t0], [t1] + ([t2] + [t3]));
    assert [t0] + ([t1] + ([t2] + [t3])) == [t0, t1, t2, t3];
  }

  /** A queue with nothing in it that will announce the next completion. */
  predicate Quiescent(n: Nic, credits: nat) {
    n == Nic([], true, 0, credits)
  }

  lemma Ask(k: Kernel<int>, s: State<int>, c: Call)
    requires Sized(s) && WellFormed(c) && s.h.phase.Idle? && s.toServer == []
    ensures ValidRun(k, s, [StartCall(c), PostRecv, PostOk])
    ensures After(k, s, [StartCall(c), PostRecv, PostOk]) ==
            s.(h := Host(Waiting, c, Fill(s.h.req.data, c), s.h.rtn, s.h.nic.(credits := s.h.nic.credits + 1)),
               toServer := [RequestWrite(Fill(s.h.req.data, c), c.fd)],
               log := s.log.(posted := s.log.posted + [c], recvs := s.log.recvs + 1))
  {
    var s1 := Do(k, s, StartCall(c));
    var s2 := Do(k, s1, PostRecv);
    Single(k, s, StartCall(c)); Single(k, s1, PostRecv); Single(k, s2, PostOk);
    Join(k, s1, [PostRecv], [PostOk]);
    Join(k, s, [StartCall(c)], [PostRecv] + [PostOk]);
    assert [StartCall(c)] + ([PostRecv] + [PostOk]) == [StartCall(c), PostRecv, PostOk];
  }

  const TAKE: seq<Step> := [DeliverRequest, SGetEvent, SArm, SPollRecv]

  lemma Take(k: Kernel<int>, s: State<int>)
    requires Sized(s) && |s.toServer| == 1 && s.s.phase.SWaiting? && Quiescent(s.s.nic, 1)
    ensures ValidRun(k, s, TAKE)
    ensures After(k, s, TAKE) ==
            s.(s := Server(SHandling, s.toServer[0].req, s.s.rtn, s.toServer[0].imm, s.s.kst, s.s.nic),
               toServer := [], hAcks := s.hAcks + 1)
  {
    Four(k, s, DeliverRequest, SGetEvent, SArm, SPollRecv);
  }

  const NO_ENV: Env := Env(0, 0, [], [], [])

  const ANSWER_TWICE: seq<Step> := [SHandle(NO_ENV), SPostReply, SPostReply, SClear]

  lemma AnswerTwice(s: State<int>, n: nat)
    requires Sized(s) && s.s.phase.SHandling? && s.s.req.op == READ && s.s.req.bufSz == n
    requires LIMIT <= n < 0x8000_0000 && s.toHost == []
    ensures ValidRun(BIG_READER, s, ANSWER_TWICE)
    ensures var r := After(BIG_READER, s, ANSWER_TWICE);
            && r.h == s.h && r.log.posted == s.log.posted && r.log.results == s.log.results && r.toServer == s.toServer
            && |r.toHost| == 2 && r.toHost[0].rtn.value == r.toHost[1].rtn.value == LIMIT
  {
    assert ServerSys(s.s.req, s.s.fd, NO_ENV).len == n;
    Four(BIG_READER, s, SHandle(NO_ENV), SPostReply, SPostReply, SClear);
  }

  const CONSUME: seq<Step> := [DeliverReply, HGetEvent, HArm, HPollRecv]

  lemma Consume(k: Kernel<int>, s: State<int>)
    requires Sized(s) && s.toHost != [] && s.h.phase.Waiting? && Quiescent(s.h.nic, 1)
    ensures ValidRun(k, s, CONSUME)
    ensures var r := After(k, s, CONSUME);
            && r.h.phase == Idle && Quiescent(r.h.nic, 0) && r.s == s.s
            && r.toServer == s.toServer && r.toHost == s.toHost[1..]
            && r.log.posted == s.log.posted
            && r.log.results == s.log.results + [ClientResult(s.h.call, s.toHost[0].rtn)]
  {
    Four(k, s, DeliverReply, HGetEvent, HArm, HPollRecv);
  }

  // ---------------------------------------------------------------- the wrong answer

  function FirstCall(n: nat): seq<Step> {
    [StartCall(ReadOf(n)), PostRecv, PostOk] + (TAKE + (ANSWER_TWICE + CONSUME))
  }

  const SECOND_CALL: seq<Step> := [StartCall(CLOSE_CALL), PostRecv, PostOk] + CONSUME

  lemma FirstCallLeavesReply(n: nat)
    requires LIMIT <= n < 0x8000_0000
    ensures ValidRun(BIG_READER, BLANK, FirstCall(n))
    ensures var r := After(BIG_READER, BLANK, FirstCall(n));
            && r.h.phase == Idle && Quiescent(r.h.nic, 0) && r.toServer == []
            && |r.toHost| == 1 && r.toHost[0].rtn.value == LIMIT
            && r.log.posted == [ReadOf(n)] && |r.log.results| == 1
  {
    var k, ask := BIG_READER, [StartCall(ReadOf(n)), PostRecv, PostOk];
    Ask(k, BLANK, ReadOf(n));
    var s1 := After(k, BLANK, ask);
    Take(k, s1);
    var s2 := After(k, s1, TAKE);
    AnswerTwice(s2, n);
    var s3 := After(k, s2, ANSWER_TWICE);
    Consume(k, s3);
    Join(k, s2, ANSWER_TWICE, CONSUME);
    Join(k, s1, TAKE, ANSWER_TWICE + CONSUME);
    Join(k, BLANK, ask, TAKE + (ANSWER_TWICE + CONSUME));
  }

  lemma SecondCallTakesIt(s: State<int>)
    requires Sized(s) && s.h.phase == Idle && Quiescent(s.h.nic, 0) && s.toServer == [] && |s.toHost| == 1
    ensures ValidRun(BIG_READER, s, SECOND_CALL)
    ensures var r := After(BIG_READER, s, SECOND_CALL);
            && r.log.posted == s.log.posted + [CLOSE_CALL]
            && r.log.results == s.log.results + [ClientResult(CLOSE_CALL, s.toHost[0].rtn)]
  {
    var k, again := BIG_READER, [StartCall(CLOSE_CALL), PostRecv, PostOk];
    Ask(k, s, CLOSE_CALL);
    Consume(k, After(k, s, again));
    Join(k, s, again, CONSUME);
  }

  function BadRun(n: nat): seq<Step> {
    FirstCall(n) + SECOND_CALL
  }

  /** A READ of LIMIT bytes or more can make the next call return the READ's result: the CLOSE that
      follows reports success with LIMIT while the kernel, asked directly, fails it. */
  lemma SurplusReplyIsMistaken(n: nat)
    requires LIMIT <= n < 0x8000_0000
    ensures Init(BIG_READER, BLANK) && ValidRun(BIG_READER, BLANK, BadRun(n))
    ensures var log := After(BIG_READER, BLANK, BadRun(n)).log;
            && log.posted == [ReadOf(n), CLOSE_CALL] && |log.results| == 2
            && log.results[1].value == LIMIT && AnswerAt(BIG_READER, Direct(log.posted), 1).value == -1
  {
    FirstCallLeavesReply(n);
    SecondCallTakesIt(After(BIG_READER, BLANK, FirstCall(n)));
    Join(BIG_READER, BLANK, FirstCall(n), SECOND_CALL);
  }

  // ---------------------------------------------------------------- the bound is exact

  predicate OnlyReadsOf(n: nat, steps: seq<Step>) {
    forall t :: t in steps && t.StartCall? ==> Known(n, t.call)
  }

  predicate Known(n: nat, c: Call) {
    c == ReadOf(n) || c == CLOSE_CALL
  }

  predicate PostedKnown(s: State<int>, n: nat) {
    && (forall c :: c in s.log.posted ==> Known(n, c))
    && (Unposted(s) != [] ==> Known(n, s.h.call))
  }

  lemma PostedStaysKnown(k: Kernel<int>, s: State<int>, t: Step, n: nat)
    requires Sized(s) && Enabled(s, t) && PostedKnown(s, n) && (t.StartCall? ==> Known(n, t.call))
    ensures PostedKnown(Do(k, s, t), n)
  {
    hide Known, Fill, ClientResult, ServerSys, Reply, ClearRtn, ClearReq;
  }

  lemma {:induction false} PostedKnownAlways(k: Kernel<int>, s: State<int>, steps: seq<Step>, n: nat)
    requires Sized(s) && ValidRun(k, s, steps) && OnlyReadsOf(n, steps) && PostedKnown(s, n)
    ensures PostedKnown(After(k, s, steps), n)
    decreases |steps|
  {
    if steps != [] {
      PostedStaysKnown(k, s, steps[0], n);
      PostedKnownAlways(k, Do(k, s, steps[0]), steps[1..], n);
    }
  }

  ghost predicate AllTransparent(k: Kernel<int>, log: Log) {
    AllWellFormed(log.posted) && |log.results| <= |log.posted| &&
    forall i :: 0 <= i < |log.results| ==> Transparent(k, log.posted, i, log.results[i])
  }

  /** Whatever the kernel and the schedule, programs that read n bytes at a time see the kernel's
      answers. */
  ghost predicate ReadsAreSafe(n: nat) {
    forall k: Kernel<int>, s: State<int>, steps: seq<Step> ::
      KernelOk(k) && Init(k, s) && ValidRun(k, s, steps) && OnlyReadsOf(n, steps)
      ==> AllTransparent(k, After(k, s, steps).log)
  }

  lemma KnownIsDelivered(n: nat, c: Call, e: Env)
    requires Known(n, c)
    ensures WellFormed(c) && Delivered(c, e)
  {
  }

  lemma SafeRun(k: Kernel<int>, s: State<int>, steps: seq<Step>, n: nat)
    requires n < LIMIT
    requires KernelOk(k) && Init(k, s) && ValidRun(k, s, steps) && OnlyReadsOf(n, steps)
    ensures AllTransparent(k, After(k, s, steps).log)
  {
    hide Do, Enabled, Transparent, Delivered;
    CallsAreTransparent(k, s, steps);
    PostedKnownAlways(k, s, steps, n);
    var log := After(k, s, steps).log;
    forall i | 0 <= i < |log.results|
      ensures Transparent(k, log.posted, i, log.results[i])
    {
      assert forall j :: 0 <= j <= i ==> Known(n, log.posted[j]);
      forall j | 0 <= j <= i
        ensures Delivered(log.posted[j], log.envs[j])
      {
        KnownIsDelivered(n, log.posted[j], log.envs[j]);
      }
      assert AllDelivered(log, i) && TransparentAt(k, s.s.rtn, log, i);
    }
  }

  lemma SafeBelow(n: nat)
    requires n < LIMIT
    ensures ReadsAreSafe(n)
  {
    forall k: Kernel<int>, s: State<int>, steps: seq<Step> |
      KernelOk(k) && Init(k, s) && ValidRun(k, s, steps) && OnlyReadsOf(n, steps)
      ensures AllTransparent(k, After(k, s, steps).log)
    {
      SafeRun(k, s, steps, n);
    }
  }

  lemma BadRunReads(n: nat)
    ensures OnlyReadsOf(n, BadRun(n))
  {
  }

  /** Reads of n bytes are safe exactly below the bound. */
  lemma BoundIsExact(n: nat)
    requires n < 0x8000_0000
    ensures ReadsAreSafe(n) <==> n < 599988
  {
    if n < LIMIT {
      SafeBelow(n);
    } else {
      SurplusReplyIsMistaken(n);
      BadRunReads(n);
      var log := After(BIG_READER, BLANK, BadRun(n)).log;
      assert !Transparent(BIG_READER, log.posted, 1, log.results[1]);
      assert !AllTransparent(BIG_READER, log);
    }
  }
}
