/** One connection of the HTTP test server: buffers that are grown, filled and compacted in place. */
module HttpServer {
  import opened Options
  import opened Bytes
  import opened HttpFraming

  const READ_BUF_INIT: nat := 16 * 1024
  const WRITE_BUF_INIT: nat := 16 * 1024

  /** The answers of `read`: bytes (none means end of file), or an error that may be EAGAIN. */
  datatype Read = Data(bytes: string) | ReadError(again: bool)

  /** The answers of `write` and `sendfile`: at most so many bytes taken, or an error. */
  datatype Write = Took(n: nat) | WriteError(again: bool)

  /** The bytes that a read loop takes: everything before the first end of file or error. */
  function Arrived(input: seq<Read>): string {
    if input == [] || Stops(input[0]) then "" else input[0].bytes + Arrived(input[1..])
  }

  predicate Stops(r: Read) {
    r.ReadError? || r.bytes == ""
  }

  /** Does the input end with end of file or with a real error, rather than with EAGAIN? */
  predicate Ends(input: seq<Read>) {
    input != [] && if Stops(input[0]) then !(input[0].ReadError? && input[0].again) else Ends(input[1..])
  }

  // The same by the shape of the input: chunks of data, then end of file, an error, or nothing.

  predicate AllData(ds: seq<Read>) {
    forall i :: 0 <= i < |ds| ==> ds[i].Data? && ds[i].bytes != ""
  }

  function BytesOf(ds: seq<Read>): string
    requires AllData(ds)
  {
    if ds == [] then "" else ds[0].bytes + BytesOf(ds[1..])
  }

  ghost predicate ReadsThen(input: seq<Read>, ds: seq<Read>, r: Read, t: seq<Read>) {
    AllData(ds) && input == ds + [r] + t
  }

  /** End of file or a real error after some data. */
  ghost predicate HangsUp(input: seq<Read>) {
    exists ds, t :: ReadsThen(input, ds, Data(""), t) || ReadsThen(input, ds, ReadError(false), t)
  }

  /** Some data and then EAGAIN. */
  ghost predicate GoesOn(input: seq<Read>) {
    AllData(input) || exists ds, t :: ReadsThen(input, ds, ReadError(true), t)
  }

  lemma {:induction false} EndsByShape(input: seq<Read>, ds: seq<Read>, r: Read, t: seq<Read>)
    requires ReadsThen(input, ds, r, t) && (r == Data("") || r.ReadError?)
    ensures Ends(input) <==> r != ReadError(true)
    ensures Arrived(input) == BytesOf(ds)
    decreases |ds|
  {
    if ds == [] {
      assert input[0] == r;
    } else {
      assert input[0] == ds[0] && input[1..] == ds[1..] + [r] + t;
      EndsByShape(input[1..], ds[1..], r, t);
    }
  }

  lemma {:induction false} DataGoesOn(input: seq<Read>)
    requires AllData(input)
    ensures !Ends(input) && Arrived(input) == BytesOf(input)
    decreases |input|
  {
    if input != [] {
      DataGoesOn(input[1..]);
    }
  }

  lemma EndsIff(input: seq<Read>)
    ensures HangsUp(input) ==> Ends(input)
    ensures GoesOn(input) ==> !Ends(input)
  {
    if HangsUp(input) {
      var ds, t :| ReadsThen(input, ds, Data(""), t) || ReadsThen(input, ds, ReadError(false), t);
      EndsByShape(input, ds, if ReadsThen(input, ds, Data(""), t) then Data("") else ReadError(false), t);
    }
    if GoesOn(input) {
      if AllData(input) {
        DataGoesOn(input);
      } else {
        var ds, t :| ReadsThen(input, ds, ReadError(true), t);
        EndsByShape(input, ds, ReadError(true), t);
      }
    }
  }

  /** A bound on the rounds of a read loop. */
  function Volume(input: seq<Read>): nat {
    if input == [] then 0 else (if input[0].Data? then |input[0].bytes| else 0) + 1 + Volume(input[1..])
  }

  /** The input after a read with room for `room` bytes; longer data stays for the next read. */
  function Taken(input: seq<Read>, room: nat): (rest: seq<Read>)
    requires input != [] && !Stops(input[0]) && room > 0
    ensures Volume(rest) < Volume(input)
    ensures Ends(rest) == Ends(input)
    ensures input[0].bytes[..Min(room, |input[0].bytes|)] + Arrived(rest) == Arrived(input)
  {
    var b := input[0].bytes;
    if |b| <= room then
      assert b[..Min(room, |b|)] == b;
      input[1..]
    else
      var rest := [Data(b[room..])] + input[1..];
      assert rest[1..] == input[1..];
      assert b == b[..room] + b[room..];
      rest
  }

  /** A `write` of a non-empty buffer takes at least one byte or fails. */
  ghost predicate Progressing(output: seq<Write>) {
    forall k :: 0 <= k < |output| && output[k].Took? ==> output[k].n > 0
  }

  /** The bytes that the kernel takes before its first error. */
  function Accepted(output: seq<Write>): nat {
    if output == [] || output[0].WriteError? then 0 else output[0].n + Accepted(output[1..])
  }

  /** Is the first error a real one, not EAGAIN? */
  predicate Breaks(output: seq<Write>) {
    output != [] && if output[0].WriteError? then !output[0].again else Breaks(output[1..])
  }

  lemma OutputFrom(output: seq<Write>, k: nat)
    requires k < |output|
    ensures Accepted(output[k..]) == if output[k].WriteError? then 0 else output[k].n + Accepted(output[k + 1..])
    ensures Breaks(output[k..]) == if output[k].WriteError? then !output[k].again else Breaks(output[k + 1..])
  {
    assert output[k..][1..] == output[k + 1..];
  }

  // And the output: some bytes taken, then an error or nothing.

  function Tooks(ns: seq<nat>): seq<Write> {
    if ns == [] then [] else [Took(ns[0])] + Tooks(ns[1..])
  }

  function Total(ns: seq<nat>): nat {
    if ns == [] then 0 else ns[0] + Total(ns[1..])
  }

  lemma {:induction false} OutputByShape(ns: seq<nat>, again: bool, t: seq<Write>)
    ensures Accepted(Tooks(ns)) == Total(ns) && !Breaks(Tooks(ns))
    ensures var output := Tooks(ns) + [WriteError(again)] + t;
            Accepted(output) == Total(ns) && (Breaks(output) <==> !again)
    decreases |ns|
  {
    var output := Tooks(ns) + [WriteError(again)] + t;
    if ns == [] {
      assert output[0] == WriteError(again);
    } else {
      OutputByShape(ns[1..], again, t);
      assert Tooks(ns)[1..] == Tooks(ns[1..]);
      assert output[0] == Took(ns[0]) && output[1..] == Tooks(ns[1..]) + [WriteError(again)] + t;
    }
  }

  lemma OutputEnds(output: seq<Write>)
    ensures output[0..] == output && Accepted(output[|output|..]) == 0 && !Breaks(output[|output|..])
  {
  }

  lemma OneTook(n: nat)
    ensures Accepted([Took(n)]) == n && !Breaks([Took(n)])
  {
    assert [Took(n)][1..] == [];
  }

  /** `realloc`: the bytes move to a larger block. */
  method Grow(a: array<char>, len: nat, cap: nat) returns (b: array<char>)
    requires len <= a.Length <= cap
    ensures fresh(b) && b.Length == cap && b[..len] == a[..len]
  {
    b := new char[cap];
    forall i | 0 <= i < len {
      b[i] := a[i];
    }
  }

  /** `memcpy` behind the bytes in use. */
  method Append(a: array<char>, len: nat, data: string)
    requires len + |data| <= a.Length
    modifies a
    ensures a[..len + |data|] == old(a[..len]) + data
  {
    forall i | 0 <= i < |data| {
      a[len + i] := data[i];
    }
  }

  /** `memmove` of the bytes behind position p to the front. */
  method Compact(a: array<char>, p: nat, len: nat)
    requires p <= len <= a.Length
    modifies a
    ensures a[..len - p] == old(a[p..len])
  {
    forall i | 0 <= i < len - p {
      a[i] := a[p + i];
    }
  }

  class Client {
    var rbuf: array<char>
    var rlen: nat
    var wbuf: array<char>
    var wlen: nat
    var keep: bool
    var open: bool
    var file: string
    var foff: nat
    const site: string -> Reply

    /** History: bytes read, requests handled, bytes sent, and whether no request was handled and no
        `sendfile` failed while file bytes were still to be sent. */
    ghost var received: string
    ghost var handled: seq<string>
    ghost var sent: string
    ghost var orderly: bool

    ghost predicate Valid()
      reads this, rbuf, wbuf
    {
      && BuffersOk()
      && Split(received) == Framed(handled, rbuf[..rlen])
      && Conserved()
    }

    ghost predicate BuffersOk()
      reads this
    {
      && rbuf != wbuf
      && rlen <= rbuf.Length && READ_BUF_INIT <= rbuf.Length
      && wlen <= wbuf.Length && WRITE_BUF_INIT <= wbuf.Length
      && foff <= |file|
    }

    ghost function Output(): (o: Out)
      requires wlen <= wbuf.Length
      reads this, wbuf
    {
      Out(wbuf[..wlen], open, file, foff, keep)
    }

    /** What was sent, then what is still to be sent, is what the requests handled are owed. */
    ghost predicate Conserved()
      requires BuffersOk()
      reads this, wbuf
    {
      orderly ==> sent + Remaining(Output()) == Owed(site, handled)
    }

    constructor (site: string -> Reply)
      ensures Valid() && fresh(rbuf) && fresh(wbuf)
      ensures received == "" && sent == "" && handled == [] && orderly
      ensures this.site == site && Output() == Out("", false, "", 0, true)
      ensures rbuf.Length == wbuf.Length == 16384
    {
      this.site := site;
      rbuf := new char[READ_BUF_INIT];
      wbuf := new char[WRITE_BUF_INIT];
      rlen, wlen, foff, keep, open, file := 0, 0, 0, true, false, "";
      received, handled, sent, orderly := "", [], "", true;
    }

    /** `wqueue`: doubles the buffer until the data fits. */
    method WQueue(data: string)
      requires BuffersOk()
      modifies this`wbuf, this`wlen, wbuf
      ensures BuffersOk() && (wbuf == old(wbuf) || fresh(wbuf))
      ensures wbuf[..wlen] == old(wbuf[..wlen]) + data
    {
      if wlen + |data| > wbuf.Length {
        var nc := wbuf.Length * 2;
        while nc < wlen + |data|
          invariant nc >= wbuf.Length * 2
          decreases wlen + |data| - nc
        {
          nc := nc * 2;
        }
        wbuf := Grow(wbuf, wlen, nc);
      }
      Append(wbuf, wlen, data);
      wlen := wlen + |data|;
    }

    /** `send_404`: header and text. */
    method Send404(head: Text, text: Text)
      requires BuffersOk()
      modifies this`wbuf, this`wlen, this`keep, wbuf
      ensures BuffersOk() && (wbuf == old(wbuf) || fresh(wbuf))
      ensures wbuf[..wlen] == old(wbuf[..wlen]) + head + text && !keep
    {
      WQueue(head);
      WQueue(text);
      keep := false;
    }

    /** The answer to one request: `send_file` or `send_404`. */
    method Handle(h: string)
      requires BuffersOk()
      modifies this`wbuf, this`wlen, this`keep, this`open, this`file, this`foff, wbuf
      ensures BuffersOk() && (wbuf == old(wbuf) || fresh(wbuf))
      ensures Output() == Respond(old(Output()), site(h))
    {
      match site(h)
      case File(header, body, k) =>
        WQueue(header);
        open, file, foff, keep := true, body, 0, k;
      case Unreadable(header, head, text) =>
        WQueue(header);
        Send404(head, text);
      case Missing(head, text) =>
        Send404(head, text);
    }

    /** The scan for a blank line, from position p on. */
    method FindEnd(p: nat) returns (found: int)
      requires p <= rlen <= rbuf.Length
      ensures found == match Scan(rbuf[..rlen], p) case None => -1 case Some(i) => i + 4
    {
      var i := p;
      ghost var s := rbuf[..rlen];
      while i + 3 < rlen
        invariant p <= i <= rlen && Scan(s, p) == Scan(s, i)
      {
        if rbuf[i] == '\r' && rbuf[i + 1] == '\n' && rbuf[i + 2] == '\r' && rbuf[i + 3] == '\n' {
          return i + 4;
        }
        i := i + 1;
      }
      found := -1;
    }

    /** The copy of a request that is handed on. */
    method Copy(p: nat, found: nat) returns (h: string)
      requires p <= found <= rlen <= rbuf.Length
      ensures h == rbuf[..rlen][p..found]
    {
      h := rbuf[p..found];
    }

    /** One round of the request loop: -1 when no complete request is left behind position p. */
    method HandleNext(p: nat) returns (found: int)
      requires BuffersOk() && p <= rlen
      modifies this`wbuf, this`wlen, this`keep, this`open, this`file, this`foff, wbuf
      ensures BuffersOk() && (wbuf == old(wbuf) || fresh(wbuf)) && rbuf[..rlen] == old(rbuf[..rlen])
      ensures var r := Scan(rbuf[..rlen], p);
              && (r == None ==> found == -1 && Output() == old(Output()))
              && (r.Some? ==> found == r.value + 4 && Output() == Respond(old(Output()), site(rbuf[..rlen][p..found])))
    {
      if rlen - p < 4 {
        return -1;
      }
      found := FindEnd(p);
      if found >= 0 {
        var h := Copy(p, found);
        Handle(h);
      }
    }

    method HandleRound(p: nat, ghost before: Out, ghost done: seq<string>, ghost calm: bool)
      returns (found: int, ghost done': seq<string>, ghost calm': bool)
      requires BuffersOk() && p <= rlen && Handling(rbuf[..rlen], p, site, before, done, Output(), calm)
      modifies this`wbuf, this`wlen, this`keep, this`open, this`file, this`foff, wbuf
      ensures BuffersOk() && (wbuf == old(wbuf) || fresh(wbuf))
      ensures found < 0 || p < found <= rlen
      ensures found < 0 ==> Scan(rbuf[..rlen], p) == None
      ensures Handling(rbuf[..rlen], if found < 0 then p else found, site, before, done', Output(), calm')
    {
      hide Handling;
      ghost var s, q := rbuf[..rlen], Output();
      found := HandleNext(p);
      if found < 0 {
        return found, done, calm;
      }
      HandlingContinues(s, p, site, before, done, q, calm, found - 4);
      done', calm' := done + [s[p..found]], calm && FileRest(q) == "";
    }

    method HandleAll() returns (p: nat, ghost done: seq<string>, ghost calm: bool)
      requires BuffersOk()
      modifies this`wbuf, this`wlen, this`keep, this`open, this`file, this`foff, wbuf
      ensures BuffersOk() && (wbuf == old(wbuf) || fresh(wbuf)) && p <= rlen
      ensures Handling(rbuf[..rlen], p, site, old(Output()), done, Output(), calm)
      ensures Scan(rbuf[..rlen], p) == None
    {
      ghost var before := Output();
      p, done, calm := 0, [], true;
      HandlingStarts(rbuf[..rlen], site, before);
      while true
        invariant BuffersOk() && (wbuf == old(wbuf) || fresh(wbuf)) && p <= rlen
        invariant Handling(rbuf[..rlen], p, site, before, done, Output(), calm)
        decreases rlen - p
      {
        var found;
        found, done, calm := HandleRound(p, before, done, calm);
        if found < 0 {
          break;
        }
        p := found;
      }
    }

    /** `process_requests`: handles every complete request in the buffer, keeps the rest. */
    method ProcessRequests()
      requires BuffersOk()
      modifies this`wbuf, this`wlen, this`keep, this`open, this`file, this`foff, this`rlen, rbuf, wbuf
      modifies this`handled, this`orderly
      ensures BuffersOk() && (wbuf == old(wbuf) || fresh(wbuf))
      ensures var f := Split(old(rbuf[..rlen]));
              && rbuf[..rlen] == f.rest
              && handled == old(handled) + f.requests
              && Output() == RespondAll(old(Output()), site, f.requests)
              && orderly == (old(orderly) && Orderly(old(Output()), site, f.requests))
    {
      hide RespondAll, Orderly;
      ghost var done, calm;
      var p;
      p, done, calm := HandleAll();
      HandlingEnds(rbuf[..rlen], p, site, old(Output()), done, Output(), calm);
      handled, orderly := handled + done, orderly && calm;
      if p > 0 {
        Compact(rbuf, p, rlen);
        rlen := rlen - p;
      }
    }

    /** Bytes that fit are appended to the buffer, and the requests they complete are handled. */
    method Receive(bytes: string) returns (ghost rs: seq<string>)
      requires Valid() && rlen + |bytes| <= rbuf.Length
      modifies this, rbuf, wbuf
      ensures Valid() && (wbuf == old(wbuf) || fresh(wbuf)) && rbuf == old(rbuf)
      ensures received == old(received) + bytes && sent == old(sent) && handled == old(handled) + rs
      ensures Answered(old(Output()), old(orderly), site, rs, Output(), orderly)
    {
      hide Split, RespondAll, Orderly, Owed;
      SplitResumes(received, bytes);
      Append(rbuf, rlen, bytes);
      rlen := rlen + |bytes|;
      received := received + bytes;
      ProcessRequests();
      rs := Split(old(rbuf[..rlen]) + bytes).requests;
      if orderly {
        ConservedByHandling(sent, old(Output()), site, old(handled), rs);
      }
    }

    /** A read loop with so much room in each round; data ends it or not. */
    method ReceiveSome(input: seq<Read>, room: nat, ghost o: Out, ghost calm: bool, ghost before: seq<string>)
      returns (rest: seq<Read>, ghost rs: seq<string>)
      requires Valid() && input != [] && !Stops(input[0]) && 0 < room <= rbuf.Length - rlen
      requires Answered(o, calm, site, before, Output(), orderly)
      modifies this, rbuf, wbuf
      ensures Valid() && rbuf == old(rbuf) && (wbuf == old(wbuf) || fresh(wbuf))
      ensures received + Arrived(rest) == old(received) + Arrived(input) && Ends(rest) == Ends(input)
      ensures Volume(rest) < Volume(input) && sent == old(sent) && handled == old(handled) + rs
      ensures Answered(o, calm, site, before + rs, Output(), orderly)
    {
      hide Split, Taken, Conserved, RespondAll, Orderly;
      rest := Taken(input, room);
      var bytes := input[0].bytes[..Min(room, |input[0].bytes|)];
      Assoc(received, bytes, Arrived(rest));
      ghost var p, after := Output(), orderly;
      rs := Receive(bytes);
      AnsweredTransitive(o, calm, site, before, p, after, rs, Output(), orderly);
    }

    /** `on_read`: reads until EAGAIN; `armed` says whether output events are asked for. */
    method OnRead(input: seq<Read>) returns (armed: bool, ghost rs: seq<string>)
      requires Valid()
      modifies this, rbuf, wbuf
      ensures Valid() && (rbuf == old(rbuf) || fresh(rbuf)) && (wbuf == old(wbuf) || fresh(wbuf))
      ensures received == old(received) + Arrived(input) && sent == old(sent) && handled == old(handled) + rs
      ensures Answered(old(Output()), old(orderly), site, rs, Output().(keep := RespondAll(old(Output()), site, rs).keep), orderly)
      ensures keep == (RespondAll(old(Output()), site, rs).keep && !Ends(input))
      ensures armed == (!Ends(input) && (wlen > 0 || open))
      ensures HangsUp(input) ==> !keep && !armed
      ensures GoesOn(input) ==> keep == RespondAll(old(Output()), site, rs).keep && armed == (wlen > 0 || open)
      ensures forall ds, r, t :: ReadsThen(input, ds, r, t) && (r == Data("") || r.ReadError?) ==>
                received == old(received) + BytesOf(ds)
      ensures AllData(input) ==> received == old(received) + BytesOf(input)
    {
      hide Split, Conserved, RespondAll, Orderly, HangsUp, GoesOn;
      EndsIff(input);
      forall ds, r, t | ReadsThen(input, ds, r, t) && (r == Data("") || r.ReadError?)
        ensures Arrived(input) == BytesOf(ds)
      {
        EndsByShape(input, ds, r, t);
      }
      if AllData(input) {
        DataGoesOn(input);
      }
      var rest;
      rest, rs := ReadAll(input);
      if rest != [] && rest[0] != ReadError(true) {
        HangUp();
        return false, rs;
      }
      armed := wlen > 0 || open;
    }

    method ReadAll(input: seq<Read>) returns (rest: seq<Read>, ghost rs: seq<string>)
      requires Valid()
      modifies this, rbuf, wbuf
      ensures Valid() && (rbuf == old(rbuf) || fresh(rbuf)) && (wbuf == old(wbuf) || fresh(wbuf))
      ensures received == old(received) + Arrived(input) && sent == old(sent) && handled == old(handled) + rs
      ensures Answered(old(Output()), old(orderly), site, rs, Output(), orderly)
      ensures (rest == [] || Stops(rest[0])) && Ends(rest) == Ends(input)
    {
      hide Split, Conserved, RespondAll, Orderly, Answered, Arrived, Ends, Volume;
      rest, rs := input, [];
      NothingAnswered(Output(), orderly, site);
      while true
        invariant Valid() && (rbuf == old(rbuf) || fresh(rbuf)) && (wbuf == old(wbuf) || fresh(wbuf))
        invariant received + Arrived(rest) == old(received) + Arrived(input) && Ends(rest) == Ends(input)
        invariant sent == old(sent) && handled == old(handled) + rs
        invariant Answered(old(Output()), old(orderly), site, rs, Output(), orderly)
        decreases Volume(rest)
      {
        EnsureRoom(4096);
        if rest == [] || Stops(rest[0]) {
          break;
        }
        ghost var more;
        rest, more := ReceiveSome(rest, rbuf.Length - rlen, old(Output()), old(orderly), rs);
        rs := rs + more;
      }
      NothingArrives(rest);
    }

    method HangUp()
      requires Valid()
      modifies this`keep
      ensures Valid() && !keep
    {
      keep := false;
    }

    /** One doubling is enough: no read asks for more than 4096 bytes of room. */
    method EnsureRoom(n: nat)
      requires Valid() && n <= 4096
      modifies this`rbuf
      ensures Valid() && (rbuf == old(rbuf) || fresh(rbuf))
      ensures rbuf.Length - rlen >= n
    {
      if rbuf.Length - rlen < n {
        rbuf := Grow(rbuf, rlen, rbuf.Length * 2);
      }
    }

    /** The first loop of `on_write`: queued bytes leave in order. */
    method WriteQueued(output: seq<Write>)
      requires BuffersOk() && Progressing(output)
      modifies this`wlen, this`keep, this`sent, wbuf
      ensures BuffersOk() && sent + Remaining(Output()) == old(sent + Remaining(Output()))
      ensures old(sent) <= sent && |sent| - |old(sent)| == old(wlen) - wlen == Min(Accepted(output), old(wlen))
      ensures wbuf[..wlen] == old(wbuf[..wlen])[old(wlen) - wlen..]
      ensures keep == (old(keep) && !(wlen > 0 && Breaks(output)))
    {
      hide Written, Accepted, Breaks;
      ghost var queue, before, rest := wbuf[..wlen], sent, FileRest(Output());
      WrittenStart(before, queue);
      WriteLoop(output, before, queue);
      WrittenConserves(before, queue, |queue| - wlen, sent, wbuf[..wlen], rest);
      WrittenRest(before, queue, |queue| - wlen, sent, wbuf[..wlen]);
    }

    method WriteLoop(output: seq<Write>, ghost before: string, ghost queue: string)
      requires BuffersOk() && wlen == |queue| && Written(before, queue, 0, sent, wbuf[..wlen])
      modifies this`wlen, this`keep, this`sent, wbuf
      ensures BuffersOk() && wlen == |queue| - Min(Accepted(output), |queue|)
      ensures Written(before, queue, |queue| - wlen, sent, wbuf[..wlen])
      ensures keep == (old(keep) && !(wlen > 0 && Breaks(output)))
    {
      hide Written, Accepted, Breaks;
      OutputEnds(output);
      var k := 0;
      while wlen > 0 && k < |output|
        invariant BuffersOk() && 0 <= k <= |output| && keep == old(keep) && wlen <= |queue|
        invariant Written(before, queue, |queue| - wlen, sent, wbuf[..wlen])
        invariant |queue| - wlen + Min(Accepted(output[k..]), wlen) == Min(Accepted(output), |queue|)
        invariant Breaks(output[k..]) == Breaks(output)
      {
        OutputFrom(output, k);
        if output[k].WriteError? {
          keep := keep && output[k].again;
          break;
        }
        WrittenMore(before, queue, |queue| - wlen, sent, wbuf[..wlen], Min(output[k].n, wlen));
        WriteSome(output[k].n);
        k := k + 1;
      }
    }

    /** A `write` that takes at most n bytes. */
    method WriteSome(n: nat)
      requires BuffersOk()
      modifies this`wlen, this`sent, wbuf
      ensures BuffersOk() && wlen == old(wlen) - Min(n, old(wlen))
      ensures wbuf[..wlen] == old(wbuf[..wlen])[Min(n, old(wlen))..]
      ensures sent == old(sent) + old(wbuf[..wlen])[..Min(n, old(wlen))]
    {
      var m := Min(n, wlen);
      sent := sent + wbuf[..wlen][..m];
      Compact(wbuf, m, wlen);
      wlen := wlen - m;
    }

    /** The second loop: file bytes leave in order, and only when nothing is queued. A `sendfile`
        that fails gives the file up. */
    method SendFile(output: seq<Write>) returns (failed: bool)
      requires BuffersOk()
      modifies this`open, this`foff, this`keep, this`sent, this`orderly
      ensures BuffersOk() && old(sent) <= sent
      ensures |sent| - |old(sent)| == foff - old(foff) ==
              if wlen == 0 && old(open) then Min(Accepted(output), |file| - old(foff)) else 0
      ensures failed == (wlen == 0 && old(open) && foff < |file| && Breaks(output))
      ensures failed ==> !open && !keep && !orderly
      ensures !failed ==> open == old(open) && keep == old(keep) && orderly == old(orderly)
      ensures !failed ==> sent + Remaining(Output()) == old(sent + Remaining(Output()))
    {
      hide Remaining, Accepted, Breaks;
      OutputEnds(output);
      failed := false;
      if wlen > 0 || !open {
        return;
      }
      var k := 0;
      while open && foff < |file| && k < |output|
        invariant BuffersOk() && old(sent) <= sent && 0 <= k <= |output|
        invariant |sent| - |old(sent)| == foff - old(foff)
        invariant if failed then !open && !keep && !orderly && foff < |file| && Breaks(output)
                            else open && keep == old(keep) && orderly == old(orderly) && Breaks(output[k..]) == Breaks(output)
        invariant !failed ==> sent + Remaining(Output()) == old(sent + Remaining(Output()))
        invariant foff + (if failed then 0 else Min(Accepted(output[k..]), |file| - foff)) == old(foff) + Min(Accepted(output), |file| - old(foff))
        decreases |output| - k
      {
        OutputFrom(output, k);
        if output[k] == WriteError(true) {
          break;
        }
        if output[k].WriteError? {
          open, keep, orderly, failed := false, false, false, true;
        } else {
          SendSome(output[k].n);
        }
        k := k + 1;
      }
    }

    method SendSome(n: nat)
      requires BuffersOk() && wlen == 0 && open
      modifies this`foff, this`sent
      ensures BuffersOk() && old(sent) <= sent
      ensures sent + Remaining(Output()) == old(sent + Remaining(Output()))
      ensures |sent| - |old(sent)| == foff - old(foff) == Min(n, |file| - old(foff))
    {
      hide Remaining, FileRest;
      var m := Min(n, |file| - foff);
      FileStep(sent, Output(), m);
      assert Output().pending == "";
      sent, foff := sent + file[foff..][..m], foff + m;
    }

    /** The read loop at the end of `on_write`: 4096 bytes at a time, ended by anything but data. */
    method ReadMore(input: seq<Read>) returns (ghost rs: seq<string>)
      requires Valid()
      modifies this, rbuf, wbuf
      ensures Valid() && (rbuf == old(rbuf) || fresh(rbuf)) && (wbuf == old(wbuf) || fresh(wbuf))
      ensures received == old(received) + Arrived(input) && sent == old(sent) && handled == old(handled) + rs
      ensures Answered(old(Output()), old(orderly), site, rs, Output(), orderly)
    {
      hide Split, Conserved, RespondAll, Orderly, Answered, Arrived, Volume;
      var rest := input;
      rs := [];
      NothingAnswered(Output(), orderly, site);
      while rest != [] && !Stops(rest[0])
        invariant Valid() && (rbuf == old(rbuf) || fresh(rbuf)) && (wbuf == old(wbuf) || fresh(wbuf))
        invariant received + Arrived(rest) == old(received) + Arrived(input)
        invariant sent == old(sent) && handled == old(handled) + rs
        invariant Answered(old(Output()), old(orderly), site, rs, Output(), orderly)
        decreases Volume(rest)
      {
        var n := Min(4096, |rest[0].bytes|);
        EnsureRoom(n);
        ghost var more;
        rest, more := ReceiveSome(rest, n, old(Output()), old(orderly), rs);
        rs := rs + more;
      }
      NothingArrives(rest);
    }

    /** The sending part of `on_write`; a finished file is closed. */
    method Flush(writes: seq<Write>, sends: seq<Write>)
      requires Valid() && Progressing(writes)
      modifies this`wlen, this`keep, this`sent, this`open, this`foff, this`orderly, wbuf
      ensures Valid() && old(sent) <= sent
      ensures |sent| - |old(sent)| == SentBytes(old(Output()), writes, sends)
      ensures Output() == AfterFlush(old(Output()), writes, sends)
      ensures old(orderly) && !Breaks(sends) ==> orderly
    {
      hide Split, Owed, Remaining;
      WriteQueued(writes);
      var failed := SendFile(sends);
      FinishedFile(Output());
      if open && foff >= |file| {
        open := false;
      }
    }

    /** `on_write`: sends what it can, closes a finished file, and reads on exactly when nothing is left
        to send. The connection is freed with bytes left to send exactly if the kernel did not take
        everything and the connection was to be closed, or if it took everything and the last request
        that was then read is to be closed after its answer, of which nothing has been sent. */
    method OnWrite(writes: seq<Write>, sends: seq<Write>, input: seq<Read>)
      returns (freed: bool, armed: bool, ghost rs: seq<string>)
      requires Valid() && Progressing(writes)
      modifies this, rbuf, wbuf
      ensures Valid() && (rbuf == old(rbuf) || fresh(rbuf)) && (wbuf == old(wbuf) || fresh(wbuf))
      ensures freed == !keep && armed == (keep && (wlen > 0 || open))
      ensures old(sent) <= sent && |sent| - |old(sent)| == SentBytes(old(Output()), writes, sends)
      ensures handled == old(handled) + rs
      ensures var o := AfterFlush(old(Output()), writes, sends);
              if Idle(o) then received == old(received) + Arrived(input) && Output() == RespondAll(o, site, rs)
              else received == old(received) && rs == [] && Output() == o
      ensures old(orderly) && !Breaks(sends) && |rs| <= 1 ==> orderly
      ensures !Breaks(sends) ==>
                received == old(received) + if AllAccepted(old(Output()), writes, sends) then Arrived(input) else ""
      ensures !Breaks(writes) && !Breaks(sends) && rs == [] ==> keep == old(keep)
      ensures Breaks(writes) && Accepted(writes) < old(wlen) ==> freed
      ensures Breaks(sends) && Accepted(writes) >= old(wlen) && old(open) && Accepted(sends) < |old(file)| - old(foff) ==>
                rs == [] ==> freed
      ensures !Breaks(writes) && !Breaks(sends) ==>
                (freed && Remaining(Output()) != "" <==> CutShort(old(Output()), site, writes, sends, rs))
    {
      hide Split, Conserved, RespondAll, Orderly;
      Flush(writes, sends);
      rs := [];
      ghost var o := Output();
      if wlen == 0 && !open {
        rs := ReadMore(input);
        if |rs| <= 1 {
          OneRequestIsOrderly(o, site, rs);
        }
      }
      if rs == [] {
        NothingAnswered(o, orderly, site);
      }
      IdleMeans(old(Output()), writes, sends);
      CutShortIff(old(Output()), site, writes, sends, rs, Output());
      freed := !keep;
      armed := !freed && (wlen > 0 || open);
    }
  }

  // ---------------------------------------------------------------- what is sent, and what is cut

  /** The bytes of the queue and of the file that one `on_write` sends. */
  function SentBytes(o: Out, writes: seq<Write>, sends: seq<Write>): nat
    requires OutOk(o)
  {
    var w := Min(Accepted(writes), |o.pending|);
    w + if w == |o.pending| && o.open then Min(Accepted(sends), |o.body| - o.off) else 0
  }

  /** The output after the two sending loops: a finished or failing file is closed, and an error ends
      the connection. */
  function AfterFlush(o: Out, writes: seq<Write>, sends: seq<Write>): (p: Out)
    requires OutOk(o)
    ensures OutOk(p)
  {
    var w := Min(Accepted(writes), |o.pending|);
    var sending := w == |o.pending| && o.open;
    var off := o.off + if sending then Min(Accepted(sends), |o.body| - o.off) else 0;
    var failed := sending && off < |o.body| && Breaks(sends);
    Out(o.pending[w..], o.open && !failed && off < |o.body|, o.body, off,
        o.keep && !(w < |o.pending| && Breaks(writes)) && !failed)
  }

  predicate Idle(o: Out) {
    o.pending == "" && !o.open
  }

  /** The kernel takes all that there is to send. */
  predicate AllAccepted(o: Out, writes: seq<Write>, sends: seq<Write>)
    requires OutOk(o)
  {
    Accepted(writes) >= |o.pending| && (o.open ==> Accepted(sends) >= |o.body| - o.off)
  }

  predicate CutShort(o: Out, site: string -> Reply, writes: seq<Write>, sends: seq<Write>, rs: seq<string>)
    requires OutOk(o)
  {
    if AllAccepted(o, writes, sends) then rs != [] && !Keeps(site(rs[|rs| - 1])) else !o.keep
  }

  lemma IdleMeans(o: Out, writes: seq<Write>, sends: seq<Write>)
    requires OutOk(o)
    ensures !Breaks(sends) ==> (Idle(AfterFlush(o, writes, sends)) <==> AllAccepted(o, writes, sends))
  {
  }

  lemma CutShortIff(o: Out, site: string -> Reply, writes: seq<Write>, sends: seq<Write>, rs: seq<string>, q: Out)
    requires OutOk(o) && OutOk(q)
    requires var p := AfterFlush(o, writes, sends); if Idle(p) then q == RespondAll(p, site, rs) else rs == [] && q == p
    ensures !Breaks(writes) && !Breaks(sends) ==>
              (!q.keep && Remaining(q) != "" <==> CutShort(o, site, writes, sends, rs))
  {
    var p := AfterFlush(o, writes, sends);
    if rs != [] {
      AnswersArePending(p, site, rs);
    }
  }

  lemma FinishedFile(o: Out)
    requires OutOk(o)
    ensures o.off == |o.body| ==> Remaining(o.(open := false)) == Remaining(o)
  {
  }

  lemma NothingArrives(input: seq<Read>)
    ensures input == [] || Stops(input[0]) ==> Arrived(input) == ""
  {
  }

  lemma NothingAnswered(o: Out, calm: bool, site: string -> Reply)
    requires OutOk(o)
    ensures Answered(o, calm, site, [], o, calm)
  {
  }

  /** A response that asks to close the connection is cut short when the kernel takes only a part of
      it: `on_write` frees the connection although bytes are still to be sent. */
  method ShortWriteTruncates(header: Text, body: string, n: nat) returns (c: Client, freed: bool)
    requires 0 < n < |header|
    ensures fresh(c) && c.Valid() && freed && c.handled == [END] && |c.sent| == n < |Owed(c.site, c.handled)|
  {
    hide Split, RespondAll, Orderly, Owed, CutShort;
    c := new Client(_ => File(header, body, false));
    EndIsRequest();
    OneAnswer(c.Output(), c.site, END);
    assert Arrived([Data(END)]) == END;
    ghost var rs;
    var armed;
    armed, rs := c.OnRead([Data(END)]);
    assert c.received == END;
    assert rs == [END] && c.wlen == |header|;
    OneTook(n);
    hide Accepted, Breaks;
    freed, armed, rs := c.OnWrite([Took(n)], [], []);
    assert rs == [];
  }

  /** A request that arrives while `on_write` is at work and asks to close the connection gets nothing
      of its answer. */
  method RequestIsDropped(header: Text, body: string) returns (c: Client, freed: bool)
    ensures fresh(c) && c.Valid() && freed && c.handled == [END] && c.sent == "" && Owed(c.site, c.handled) == header + body
  {
    hide Split, RespondAll, Orderly, Owed, CutShort;
    c := new Client(_ => File(header, body, false));
    EndIsRequest();
    OneAnswer(c.Output(), c.site, END);
    assert Arrived([Data(END)]) == END;
    ghost var rs;
    var armed;
    freed, armed, rs := c.OnWrite([], [], [Data(END)]);
    assert c.received == END;
    assert rs == [END];
  }

  /** The same happens to every request for something that is not there. */
  method NotFoundIsDropped(head: Text, text: Text) returns (c: Client, freed: bool)
    ensures fresh(c) && c.Valid() && freed && c.handled == [END] && c.sent == "" && Owed(c.site, c.handled) == head + text
  {
    hide Split, RespondAll, Orderly, Owed, CutShort;
    c := new Client(_ => Missing(head, text));
    EndIsRequest();
    OneAnswer(c.Output(), c.site, END);
    assert Arrived([Data(END)]) == END;
    ghost var rs;
    var armed;
    freed, armed, rs := c.OnWrite([], [], [Data(END)]);
    assert c.received == END;
    assert rs == [END];
  }

  /** And to one for a file that cannot be opened, which is owed both headers. */
  method UnreadableIsDropped(header: Text, head: Text, text: Text) returns (c: Client, freed: bool)
    ensures fresh(c) && c.Valid() && freed && c.handled == [END] && c.sent == ""
    ensures Owed(c.site, c.handled) == header + head + text == Remaining(c.Output())
  {
    hide Split, RespondAll, Orderly, Owed, CutShort;
    c := new Client(_ => Unreadable(header, head, text));
    EndIsRequest();
    OneAnswer(c.Output(), c.site, END);
    assert Arrived([Data(END)]) == END;
    ghost var rs;
    var armed;
    freed, armed, rs := c.OnWrite([], [], [Data(END)]);
    assert c.received == END;
    assert rs == [END];
  }

  lemma EndIsRequest()
    ensures Split(END) == Framed([END], "")
  {
    SplitIsUnique(END, Framed([END], ""));
  }
}
