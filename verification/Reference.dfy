/** What calls mean when they are made on the kernel directly, and what the protocol's reply to a
    call has to look like. */
module Reference {
  import opened Options
  import opened Bytes
  import opened Messages

  /** The kernel after the first n of some system calls. */
  function KernelAfter<S>(k: Kernel<S>, sys: seq<Sys>, n: nat): S
    requires n <= |sys|
  {
    if n == 0 then k.init else k.step(KernelAfter(k, sys, n - 1), sys[n - 1]).0
  }

  /** The kernel's answer to the i-th of them. */
  function AnswerAt<S>(k: Kernel<S>, sys: seq<Sys>, i: nat): Answer
    requires i < |sys|
  {
    k.step(KernelAfter(k, sys, i), sys[i]).1
  }

  /** `rtn_value` as the server keeps it between calls. It starts as `v0`, whatever memory held;
      socket options leave it alone and the clear after a WRITE runs over it. */
  function RestValue<S>(k: Kernel<S>, v0: int, sys: seq<Sys>, n: nat): int
    requires n <= |sys|
  {
    if n == 0 then v0
    else if sys[n - 1].op == WRITE then 0
    else if IsSockopt(sys[n - 1].op) then RestValue(k, v0, sys, n - 1)
    else AnswerAt(k, sys, n - 1).value
  }

  function RestErrno(e0: int, n: nat): int {
    if n == 0 then e0 else 0
  }

  /** The value and errno that the reply to the i-th call carries. */
  function ReplyValue<S>(k: Kernel<S>, v0: int, sys: seq<Sys>, i: nat): int
    requires i < |sys|
  {
    if IsSockopt(sys[i].op) then RestValue(k, v0, sys, i) else AnswerAt(k, sys, i).value
  }

  function ReplyErrno<S>(k: Kernel<S>, e0: int, sys: seq<Sys>, i: nat): int
    requires i < |sys|
  {
    var a, op := AnswerAt(k, sys, i), sys[i].op;
    if StoresErrno(op, a.value) then a.errno else if op == READ then 0 else RestErrno(e0, i)
  }

  predicate ReplyFor<S>(k: Kernel<S>, r0: RtnMsg, sys: seq<Sys>, i: nat, rtn: RtnMsg) {
    && i < |sys|
    && WellSized(rtn)
    && rtn.value == ReplyValue(k, r0.value, sys, i)
    && rtn.errno == ReplyErrno(k, r0.errno, sys, i)
    && var a := AnswerAt(k, sys, i); WritesPayload(sys[i].op, a.value) ==> a.payload <= rtn.data
  }

  /** The outcome that a call has to return whose system call is the i-th. */
  predicate Matches<S>(k: Kernel<S>, r0: RtnMsg, sys: seq<Sys>, i: nat, c: Call, out: Outcome) {
    && i < |sys|
    && var a, v := AnswerAt(k, sys, i), ReplyValue(k, r0.value, sys, i);
       && (WritesPayload(c.op, a.value) ==> a.payload <= out.block)
       && if c.op == READ && !c.hasBuf then
            out.value == -1 && out.errno == None && out.copied == []
          else
            && out.value == (if v < 0 then -1 else ToInt32(v))
            && out.errno == (if v < 0 then Some(ReplyErrno(k, r0.errno, sys, i)) else None)
            && out.copied == (if c.op == READ then a.payload else [])
  }

  /** A right reply gives the right outcome. */
  lemma ReplyGivesOutcome<S(!new)>(k: Kernel<S>, r0: RtnMsg, sys: seq<Sys>, i: nat, c: Call, rtn: RtnMsg)
    requires KernelOk(k) && ReplyFor(k, r0, sys, i, rtn) && InBound(c) && c.op == sys[i].op
    requires c.op == READ ==> sys[i].len == c.bufSz
    ensures Matches(k, r0, sys, i, c, ClientResult(c, rtn))
  {
    assert AnswerOk(sys[i], AnswerAt(k, sys, i));
  }

  /** A handler that runs on what the calls before it left produces the right reply. */
  lemma HandlerReplies<S(!new)>(k: Kernel<S>, r0: RtnMsg, sys: seq<Sys>, i: nat, rtn: RtnMsg)
    requires KernelOk(k) && i < |sys| && WellSized(rtn)
    requires rtn.value == RestValue(k, r0.value, sys, i) && rtn.errno == RestErrno(r0.errno, i)
    ensures ReplyFor(k, r0, sys, i, Reply(sys[i].op, rtn, AnswerAt(k, sys, i)))
  {
    assert AnswerOk(sys[i], AnswerAt(k, sys, i));
  }

  // Later calls do not change what earlier ones did.

  lemma {:induction false} KernelAfterExtends<S>(k: Kernel<S>, sys: seq<Sys>, x: Sys, n: nat)
    requires n <= |sys|
    ensures KernelAfter(k, sys + [x], n) == KernelAfter(k, sys, n)
  {
    if n > 0 {
      KernelAfterExtends(k, sys, x, n - 1);
    }
  }

  lemma AnswerExtends<S>(k: Kernel<S>, sys: seq<Sys>, x: Sys, i: nat)
    requires i < |sys|
    ensures AnswerAt(k, sys + [x], i) == AnswerAt(k, sys, i)
  {
    KernelAfterExtends(k, sys, x, i);
  }

  lemma {:induction false} RestValueExtends<S>(k: Kernel<S>, v0: int, sys: seq<Sys>, x: Sys, n: nat)
    requires n <= |sys|
    ensures RestValue(k, v0, sys + [x], n) == RestValue(k, v0, sys, n)
  {
    if n > 0 {
      AnswerExtends(k, sys, x, n - 1);
      RestValueExtends(k, v0, sys, x, n - 1);
    }
  }

  lemma ReplyExtends<S>(k: Kernel<S>, r0: RtnMsg, sys: seq<Sys>, x: Sys, i: nat)
    requires i < |sys|
    ensures ReplyValue(k, r0.value, sys + [x], i) == ReplyValue(k, r0.value, sys, i)
    ensures ReplyErrno(k, r0.errno, sys + [x], i) == ReplyErrno(k, r0.errno, sys, i)
    ensures AnswerAt(k, sys + [x], i) == AnswerAt(k, sys, i)
  {
    AnswerExtends(k, sys, x, i);
    RestValueExtends(k, r0.value, sys, x, i);
  }

  // ---------------------------------------------------------------- calls made directly

  ghost predicate AllWellFormed(calls: seq<Call>) {
    forall i :: 0 <= i < |calls| ==> WellFormed(calls[i])
  }

  ghost function Direct(calls: seq<Call>): (sys: seq<Sys>)
    requires AllWellFormed(calls)
    ensures |sys| == |calls|
    ensures forall i :: 0 <= i < |calls| ==> sys[i] == DirectSys(calls[i])
  {
    seq(|calls|, i requires 0 <= i < |calls| => DirectSys(calls[i]))
  }

  /** Equal calls, equal answers. */
  lemma {:induction false} SameKernel<S>(k: Kernel<S>, a: seq<Sys>, b: seq<Sys>, n: nat)
    requires n <= |a| && n <= |b| && forall i :: 0 <= i < n ==> a[i] == b[i]
    ensures KernelAfter(k, a, n) == KernelAfter(k, b, n)
  {
    if n > 0 {
      SameKernel(k, a, b, n - 1);
    }
  }

  lemma {:induction false} SameRest<S>(k: Kernel<S>, v0: int, a: seq<Sys>, b: seq<Sys>, n: nat)
    requires n <= |a| && n <= |b| && forall i :: 0 <= i < n ==> a[i] == b[i]
    ensures RestValue(k, v0, a, n) == RestValue(k, v0, b, n)
  {
    if n > 0 {
      SameKernel(k, a, b, n - 1);
      SameRest(k, v0, a, b, n - 1);
    }
  }
}
