/** How host threads get their own connections: `get_r_info` under the global lock on one side, the
    NEW_RDMA_CONN handler with its wait for a connect request on the other. */
module Handshake {
  import opened Options

  type Thread = nat

  datatype ThreadPhase =
    | NoConn                // thread-local slot empty
    | Locked                // holds the lock, nothing sent
    | Asked                 // NEW_RDMA_CONN posted, waiting for the reply
    | Answered              // reply seen, about to connect
    | Dialling              // connect request sent, waiting for the server's metadata
    | HasConn               // slot filled

  datatype ServerPhase =
    | Loop                  // polling the global connection
    | Got                   // took a request off the queue
    | AwaitConnect          // replied, waiting in waiting_client_conn
    | Accepting(peer: Thread)
    | Finishing             // metadata sent; receive post and thread start to come

  datatype Message = Request | Reply

  /** `phase` is NoConn outside its domain. `conns` are the server's connections by the thread they
      were made with, `dropped` counts connects that failed on the host. */
  datatype State = State(
    lock: Option<Thread>, phase: map<Thread, ThreadPhase>,
    server: ServerPhase, wire: seq<Message>, dialled: seq<Thread>,
    conns: seq<Thread>, dropped: nat)

  function PhaseOf(s: State, t: Thread): ThreadPhase {
    if t in s.phase then s.phase[t] else NoConn
  }

  predicate Init(s: State) {
    && s.lock == None && (forall t :: t in s.phase ==> s.phase[t] == NoConn)
    && s.server == Loop && s.wire == [] && s.dialled == [] && s.conns == [] && s.dropped == 0
  }

  datatype Step =
    // host threads
    | Acquire(t: Thread) | Ask(t: Thread) | AskFails(t: Thread) | SeeReply(t: Thread)
    | Dial(t: Thread) | DialFails(t: Thread) | Connected(t: Thread)
    // server
    | TakeRequest | SendReply | TakeConnect | SendMetadata | Finish

  predicate Enabled(s: State, step: Step) {
    match step
    case Acquire(t) => PhaseOf(s, t) == NoConn && s.lock == None
    case Ask(t) => PhaseOf(s, t) == Locked
    case AskFails(t) => PhaseOf(s, t) == Locked
    case SeeReply(t) => PhaseOf(s, t) == Asked && s.wire != [] && s.wire[0] == Reply
    case Dial(t) => PhaseOf(s, t) == Answered
    case DialFails(t) => PhaseOf(s, t) == Answered
    case Connected(t) => PhaseOf(s, t) == Dialling && t in s.conns
    case TakeRequest => s.server == Loop && s.wire != [] && s.wire[0] == Request
    case SendReply => s.server == Got
    case TakeConnect => s.server == AwaitConnect && s.dialled != []
    case SendMetadata => s.server.Accepting?
    case Finish => s.server == Finishing
  }

  function Do(s: State, step: Step): State
    requires Enabled(s, step)
  {
    match step
    case Acquire(t) => s.(lock := Some(t), phase := s.phase[t := Locked])
    case Ask(t) => s.(phase := s.phase[t := Asked], wire := s.wire + [Request])
    case AskFails(t) => s.(lock := None, phase := s.phase[t := NoConn])
    case SeeReply(t) => s.(phase := s.phase[t := Answered], wire := s.wire[1..])
    case Dial(t) => s.(phase := s.phase[t := Dialling], dialled := s.dialled + [t])
    case DialFails(t) => s.(lock := None, phase := s.phase[t := NoConn], dropped := s.dropped + 1)
    case Connected(t) => s.(lock := None, phase := s.phase[t := HasConn])
    case TakeRequest => s.(server := Got, wire := s.wire[1..])
    case SendReply => s.(server := AwaitConnect, wire := s.wire + [Reply])
    case TakeConnect => s.(server := Accepting(s.dialled[0]), dialled := s.dialled[1..])
    case SendMetadata => s.(server := Finishing, conns := s.conns + [s.server.peer])
    case Finish => s.(server := Loop)
  }

  predicate ValidRun(s: State, steps: seq<Step>)
    decreases |steps|
  {
    steps == [] || (Enabled(s, steps[0]) && ValidRun(Do(s, steps[0]), steps[1..]))
  }

  function After(s: State, steps: seq<Step>): State
    requires ValidRun(s, steps)
    decreases |steps|
  {
    if steps == [] then s else After(Do(s, steps[0]), steps[1..])
  }

  // ---------------------------------------------------------------- the invariant without failures

  /** The thread inside the handshake. */
  predicate Inside(p: ThreadPhase) {
    p != NoConn && p != HasConn
  }

  predicate Exclusive(s: State) {
    && (forall t :: t in s.phase && Inside(s.phase[t]) ==> s.lock == Some(t))
    && (s.lock.Some? ==> Inside(PhaseOf(s, s.lock.value)))
  }

  /** Where the server is for each stage of the thread that holds the lock. */
  predicate InStep(s: State) {
    var p := if s.lock.Some? then PhaseOf(s, s.lock.value) else NoConn;
    match p
    case NoConn | HasConn | Locked => s.wire == [] && s.dialled == [] && (s.server == Loop || s.server == Finishing)
    case Asked => s.dialled == [] && ((s.wire == [Request] && (s.server == Loop || s.server == Finishing))
                                      || (s.wire == [] && s.server == Got)
                                      || (s.wire == [Reply] && s.server == AwaitConnect))
    case Answered => s.wire == [] && s.dialled == [] && s.server == AwaitConnect
    case Dialling =>
      var t := s.lock.value;
      && s.wire == []
      && ((s.server == AwaitConnect && s.dialled == [t] && t !in s.conns)
          || (s.server == Accepting(t) && s.dialled == [] && t !in s.conns)
          || ((s.server == Finishing || s.server == Loop) && s.dialled == [] && t in s.conns))
  }

  /** One connection per thread: exactly the threads with a slot, and the one whose metadata is on
      its way. */
  predicate Paired(s: State) {
    && (forall i, j :: 0 <= i < j < |s.conns| ==> s.conns[i] != s.conns[j])
    && (forall t :: t in s.conns ==> t in s.phase && (s.phase[t] == HasConn || s.phase[t] == Dialling))
    && (forall t :: t in s.phase && s.phase[t] == HasConn ==> t in s.conns)
  }

  /** After a failed connect the server waits for a connect request that nobody will send: the next
      thread cannot dial before the server has answered it. */
  predicate Doomed(s: State) {
    && s.server == AwaitConnect && s.dialled == [] && Reply !in s.wire
    && (s.lock.Some? ==> var p := PhaseOf(s, s.lock.value); p == Locked || p == Asked)
  }

  predicate Inv(s: State) {
    Exclusive(s) && if s.dropped == 0 then InStep(s) && Paired(s) else Doomed(s)
  }

  lemma ExclusiveKept(s: State, step: Step)
    requires Inv(s) && Enabled(s, step)
    ensures Exclusive(Do(s, step))
  {
  }

  lemma InStepKept(s: State, step: Step)
    requires Inv(s) && Enabled(s, step) && Do(s, step).dropped == 0
    ensures InStep(Do(s, step))
  {
  }

  lemma PairedKept(s: State, step: Step)
    requires Inv(s) && Enabled(s, step) && Do(s, step).dropped == 0
    ensures Paired(Do(s, step))
  {
    var r := Do(s, step);
    assert forall t :: t in r.conns ==> t in s.conns || (step.SendMetadata? && t == s.server.peer);
  }

  lemma DoomedKept(s: State, step: Step)
    requires Inv(s) && Enabled(s, step) && Do(s, step).dropped > 0
    ensures Doomed(Do(s, step))
  {
  }

  lemma InvKept(s: State, step: Step)
    requires Inv(s) && Enabled(s, step)
    ensures Inv(Do(s, step))
  {
    hide Exclusive, InStep, Paired, Doomed;
    ExclusiveKept(s, step);
    if Do(s, step).dropped == 0 {
      InStepKept(s, step);
      PairedKept(s, step);
    } else {
      DoomedKept(s, step);
    }
  }

  lemma {:induction false} InvAlways(s: State, steps: seq<Step>)
    requires Inv(s) && ValidRun(s, steps)
    ensures Inv(After(s, steps))
    decreases |steps|
  {
    if steps != [] {
      InvKept(s, steps[0]);
      InvAlways(Do(s, steps[0]), steps[1..]);
    }
  }

  // ---------------------------------------------------------------- promises over runs

  /** In every interleaving in which no connect fails: one thread at a time is inside the handshake
      and at most one message is under way; a server waiting for a connect request waits for the
      thread that asked, and takes no other; no thread has two connections; and between handshakes
      the server's connections are those of the host's threads. */
  lemma HandshakeIsSafe(s: State, steps: seq<Step>)
    requires Init(s) && ValidRun(s, steps) && After(s, steps).dropped == 0
    ensures var r := After(s, steps);
            && (forall t, u :: t in r.phase && u in r.phase && Inside(r.phase[t]) && Inside(r.phase[u]) ==> t == u)
            && |r.wire| <= 1
            && (r.server == AwaitConnect ==>
                  r.lock.Some? && PhaseOf(r, r.lock.value) in {Asked, Answered, Dialling}
                  && (r.dialled == [] || r.dialled == [r.lock.value]))
            && (r.server.Accepting? ==> r.lock == Some(r.server.peer))
            && (forall i, j :: 0 <= i < j < |r.conns| ==> r.conns[i] != r.conns[j])
            && (r.lock == None ==> forall t :: t in r.conns <==> PhaseOf(r, t) == HasConn)
  {
    InvAlways(s, steps);
  }

  function Elements(ts: seq<Thread>): set<Thread> {
    set t | t in ts
  }

  lemma {:induction false} DistinctCount(ts: seq<Thread>)
    requires forall i, j :: 0 <= i < j < |ts| ==> ts[i] != ts[j]
    ensures |Elements(ts)| == |ts|
  {
    if ts != [] {
      DistinctCount(ts[1..]);
      assert Elements(ts) == {ts[0]} + Elements(ts[1..]);
    }
  }

  /** Between handshakes the numbers agree. */
  lemma CountsAgree(s: State, steps: seq<Step>)
    requires Init(s) && ValidRun(s, steps)
    requires After(s, steps).dropped == 0 && After(s, steps).lock == None
    ensures var r := After(s, steps);
            |r.conns| == |set t | t in r.phase && r.phase[t] == HasConn|
  {
    HandshakeIsSafe(s, steps);
    var r := After(s, steps);
    DistinctCount(r.conns);
    assert (set t | t in r.phase && r.phase[t] == HasConn) == Elements(r.conns);
  }

  function ThreadRank(p: ThreadPhase): nat {
    match p
    case NoConn | HasConn => 0
    case Locked => 20
    case Asked => 3
    case Answered => 2
    case Dialling => 1
  }

  function ServerRank(p: ServerPhase): nat {
    match p
    case Loop => 0
    case Got => 10
    case AwaitConnect => 6
    case Accepting(_) => 5
    case Finishing => 4
  }

  /** How many more steps the current handshake can take. */
  function Rank(s: State): nat {
    (if s.lock.Some? then ThreadRank(PhaseOf(s, s.lock.value)) else 0) + ServerRank(s.server)
    + (if s.wire == [] then 0 else if s.wire[0] == Request then 12 else 1)
  }

  /** Every step but the start of another handshake brings the current one closer to its end. */
  lemma HandshakeAdvances(s: State, step: Step)
    requires Inv(s) && s.dropped == 0 && Enabled(s, step) && !step.Acquire?
    ensures Rank(Do(s, step)) < Rank(s)
  {
  }

  /** And as long as a thread holds the lock, such a step is possible. */
  lemma HandshakeNeverStuck(s: State) returns (step: Step)
    requires Inv(s) && s.dropped == 0 && s.lock.Some?
    ensures Enabled(s, step) && !step.Acquire? && !step.AskFails? && !step.DialFails?
  {
    var t := s.lock.value;
    match PhaseOf(s, t) {
      case Locked => step := Ask(t);
      case Asked =>
        step := if s.wire == [Reply] then SeeReply(t)
                else if s.server == Got then SendReply
                else if s.server == Loop then TakeRequest else Finish;
      case Answered => step := Dial(t);
      case Dialling =>
        step := if s.server == AwaitConnect then TakeConnect
                else if s.server.Accepting? then SendMetadata else Connected(t);
    }
  }

  /** One failed connect ends it for everybody: from then on the server stays in its wait, no thread
      gets an answer and no connection is ever added. */
  lemma {:induction false} FailedConnectBlocksServer(s: State, steps: seq<Step>)
    requires Inv(s) && s.dropped > 0 && ValidRun(s, steps)
    ensures var r := After(s, steps);
            r.server == AwaitConnect && r.conns == s.conns && r.dropped == s.dropped
            && forall t :: PhaseOf(r, t) == HasConn ==> PhaseOf(s, t) == HasConn
    decreases |steps|
  {
    if steps != [] {
      InvKept(s, steps[0]);
      FailedConnectBlocksServer(Do(s, steps[0]), steps[1..]);
    }
  }

  lemma Then(s: State, step: Step, rest: seq<Step>)
    requires Enabled(s, step) && ValidRun(Do(s, step), rest)
    ensures ValidRun(s, [step] + rest) && After(s, [step] + rest) == After(Do(s, step), rest)
  {
    assert ([step] + rest)[1..] == rest;
  }

  /** The server can still leave its wait for a connect request. */
  ghost predicate CanBeMet(s: State) {
    exists steps :: ValidRun(s, steps) && After(s, steps).server != AwaitConnect
  }

  /** Without a failed connect the thread that asked gets there. */
  lemma {:induction false} WaitIsMet(s: State) returns (steps: seq<Step>)
    requires Inv(s) && s.dropped == 0
    ensures ValidRun(s, steps) && After(s, steps).server != AwaitConnect
    decreases Rank(s)
  {
    steps := [];
    if s.server == AwaitConnect {
      var step := HandshakeNeverStuck(s);
      HandshakeAdvances(s, step);
      InvKept(s, step);
      var rest := WaitIsMet(Do(s, step));
      Then(s, step, rest);
      steps := [step] + rest;
    }
  }

  /** In every run the server's wait can still be met exactly if no connect has failed. */
  lemma WaitIsMetIff(s: State, steps: seq<Step>)
    requires Init(s) && ValidRun(s, steps)
    ensures CanBeMet(After(s, steps)) <==> After(s, steps).dropped == 0
  {
    InvAlways(s, steps);
    var r := After(s, steps);
    if r.dropped == 0 {
      var more := WaitIsMet(r);
    } else {
      forall more | ValidRun(r, more)
        ensures After(r, more).server == AwaitConnect
      {
        FailedConnectBlocksServer(r, more);
      }
    }
  }

  /** The run that gets there: a thread asks, is answered, and fails to connect. */
  function FailingRun(t: Thread): seq<Step> {
    [Acquire(t), Ask(t), TakeRequest, SendReply, SeeReply(t), DialFails(t)]
  }

  lemma FailureIsReachable(s: State, t: Thread)
    requires Init(s)
    ensures ValidRun(s, FailingRun(t)) && After(s, FailingRun(t)).dropped == 1
    ensures !CanBeMet(After(s, FailingRun(t)))
  {
    var s1 := Do(s, Acquire(t));
    var s2 := Do(s1, Ask(t));
    var s3 := Do(s2, TakeRequest);
    var s4 := Do(s3, SendReply);
    var s5 := Do(s4, SeeReply(t));
    var s6 := Do(s5, DialFails(t));
    assert ValidRun(s6, []) && After(s6, []) == s6;
    Then(s5, DialFails(t), []);
    Then(s4, SeeReply(t), [DialFails(t)] + []);
    Then(s3, SendReply, [SeeReply(t)] + ([DialFails(t)] + []));
    Then(s2, TakeRequest, [SendReply] + ([SeeReply(t)] + ([DialFails(t)] + [])));
    Then(s1, Ask(t), [TakeRequest] + ([SendReply] + ([SeeReply(t)] + ([DialFails(t)] + []))));
    Then(s, Acquire(t), [Ask(t)] + ([TakeRequest] + ([SendReply] + ([SeeReply(t)] + ([DialFails(t)] + [])))));
    assert FailingRun(t) == [Acquire(t)] + ([Ask(t)] + ([TakeRequest] + ([SendReply] + ([SeeReply(t)] + ([DialFails(t)] + [])))));
    WaitIsMetIff(s, FailingRun(t));
  }
}
