/** The two loops that post work: the server's loop over the chunks of a reply, and the host's
    retry loop around `ibv_post_send` with its drain of the completion queue. */
module Posting {
  import opened Messages

  const CHUNK: nat := BUFFER_SIZE - HEADER_SIZE

  function Sum(sizes: seq<nat>): nat {
    if sizes == [] then 0 else sizes[0] + Sum(sizes[1..])
  }

  lemma {:induction false} SumAppend(sizes: seq<nat>, n: nat)
    ensures Sum(sizes + [n]) == Sum(sizes) + n
  {
    if sizes == [] {
      assert sizes + [n] == [n];
    } else {
      SumAppend(sizes[1..], n);
      assert (sizes + [n])[1..] == sizes[1..] + [n];
    }
  }

  /** The number of replies that one answer posts. */
  function ReplyCount(op: Op, value: int): (n: nat)
    ensures n >= 1
    ensures n == 1 <==> !(op == READ && value >= BUFFER_SIZE - HEADER_SIZE)
  {
    if op == READ && value > 0 && HEADER_SIZE + value >= BUFFER_SIZE
    then (HEADER_SIZE + value - BUFFER_SIZE) / CHUNK + 2
    else 1
  }

  /** The chunk loop of `write_msg_to_client`. Each round posts one reply; the sizes of the
      chunks add up to the header and the bytes read. */
  method PostReplies(op: Op, value: int) returns (posts: nat, sizes: seq<nat>)
    ensures posts == ReplyCount(op, value)
    ensures posts == if op == READ && value >= 599988 then (12 + value - 600000) / 599988 + 2 else 1
    ensures op == READ && value > 0 ==>
              |sizes| == posts && Sum(sizes) == 12 + value &&
              forall i :: 0 <= i < |sizes| ==> 0 < sizes[i] < BUFFER_SIZE
    ensures !(op == READ && value > 0) ==> posts == 1 && sizes == []
  {
    posts, sizes := 0, [];
    if op == READ && value > 0 {
      var offset, total := 0, HEADER_SIZE + value;
      while offset < total
        invariant 0 <= offset <= total
        invariant Sum(sizes) == offset && |sizes| == posts
        invariant forall i :: 0 <= i < |sizes| ==> 0 < sizes[i] < BUFFER_SIZE
        invariant offset < total ==> offset == posts * CHUNK && (posts > 0 ==> total - offset >= HEADER_SIZE)
        invariant offset == total ==> posts == ReplyCount(op, value)
      {
        var n := if total - offset < BUFFER_SIZE then total - offset else CHUNK;
        if total - offset < BUFFER_SIZE {
          LastRound(value, posts);
        }
        SumAppend(sizes, n);
        sizes := sizes + [n];
        posts := posts + 1;
        offset := offset + n;
      }
    } else {
      posts := 1;
    }
  }

  /** The round that finds less than a buffer left is number ReplyCount. */
  lemma LastRound(value: int, round: nat)
    requires value > 0
    requires 0 <= HEADER_SIZE + value - round * CHUNK < BUFFER_SIZE
    requires round > 0 ==> HEADER_SIZE + value - round * CHUNK >= HEADER_SIZE
    ensures ReplyCount(READ, value) == round + 1
  {
    if round > 0 {
      var over := HEADER_SIZE + value - BUFFER_SIZE;
      assert (round - 1) * CHUNK == round * CHUNK - CHUNK;
      assert (round - 1) * CHUNK <= over < (round - 1) * CHUNK + CHUNK;
      assert over == (round - 1) * CHUNK + (over - (round - 1) * CHUNK);
      assert over / CHUNK == round - 1;
    }
  }

  // ---------------------------------------------------------------- posting a request

  const MAX_RETRIES: nat := 3
  const POLL_ATTEMPTS: nat := 32

  datatype PostResult = Posted | NoMemory | Fatal
  datatype PostOutcome = Sent | GivenUp | Exit

  /** One drain: at most 32 polls, each of which removes one waiting completion; an empty queue
      or a poll error ends it. `poll0` counts the polls made before. */
  method Drain<W>(cq: seq<W>, pollFails: nat -> bool, poll0: nat)
    returns (polls: nat, dropped: nat)
    ensures polls <= 32 && dropped <= polls && dropped <= |cq|
    ensures dropped < polls ==> polls == dropped + 1 && (dropped == |cq| || pollFails(poll0 + dropped))
    ensures forall i :: poll0 <= i < poll0 + dropped ==> !pollFails(i)
    ensures polls == dropped ==> polls == 32
  {
    polls, dropped := 0, 0;
    while polls < POLL_ATTEMPTS
      invariant polls == dropped <= POLL_ATTEMPTS && dropped <= |cq|
      invariant forall i :: poll0 <= i < poll0 + dropped ==> !pollFails(i)
    {
      polls := polls + 1;
      if pollFails(poll0 + dropped) || dropped == |cq| {
        return;
      }
      dropped := dropped + 1;
    }
  }

  /** `post_write_req`. `post(i)` is what the i-th `ibv_post_send` returns and `pollFails(i)`
      whether the i-th poll returns an error; `cq` holds the completions that are waiting and
      `dropped` counts those the drains throw away. */
  method PostWriteReq<W>(cq: seq<W>, post: nat -> PostResult, pollFails: nat -> bool)
    returns (r: PostOutcome, attempts: nat, polls: nat, dropped: nat)
    ensures 1 <= attempts <= 4 && polls <= 128
    ensures forall i :: 0 <= i < attempts - 1 ==> post(i) == NoMemory
    ensures r == match post(attempts - 1)
                 case Posted => Sent
                 case Fatal => Exit
                 case NoMemory => GivenUp
    ensures r == GivenUp ==> attempts == 4
    ensures dropped <= polls && dropped <= |cq|
    ensures post(0) != NoMemory ==> polls == 0
  {
    polls, attempts, dropped := 0, 0, 0;
    while attempts <= MAX_RETRIES
      invariant attempts <= MAX_RETRIES + 1
      invariant forall i :: 0 <= i < attempts ==> post(i) == NoMemory
      invariant polls <= attempts * POLL_ATTEMPTS
      invariant dropped <= polls && dropped <= |cq|
    {
      var p := post(attempts);
      attempts := attempts + 1;
      if p == Posted {
        r := Sent;
        return;
      } else if p == Fatal {
        r := Exit;
        return;
      }
      var n, d := Drain(cq[dropped..], pollFails, polls);
      polls, dropped := polls + n, dropped + d;
    }
    r := GivenUp;
  }
}
