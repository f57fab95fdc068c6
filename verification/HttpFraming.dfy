/** What the HTTP test server means by a request and by a response: the input stream is cut behind
    every blank line (section 2.1 of RFC 9112), the output is header followed by file. */
module HttpFraming {
  import opened Options

  const END: string := "\r\n\r\n"

  /** Does a blank line start at position i? */
  predicate EndsAt(s: string, i: int) {
    0 <= i <= |s| - 4 && s[i] == '\r' && s[i + 1] == '\n' && s[i + 2] == '\r' && s[i + 3] == '\n'
  }

  /** That is, the four characters of a blank line stand there. */
  lemma EndsAtMeans(s: string, i: int)
    ensures EndsAt(s, i) <==> 0 <= i && i + 4 <= |s| && s[i..i + 4] == "\r\n\r\n"
  {
    if 0 <= i && i + 4 <= |s| {
      var w := s[i..i + 4];
      assert w == [s[i], s[i + 1], s[i + 2], s[i + 3]];
      assert "\r\n\r\n" == ['\r', '\n', '\r', '\n'];
    }
  }

  ghost predicate HasEnd(s: string) {
    exists i :: EndsAt(s, i)
  }

  /** The first position at which the scan from i on finds a blank line. */
  function Scan(s: string, i: nat): (r: Option<nat>)
    requires i <= |s|
    ensures r.Some? ==> i <= r.value <= |s| - 4
    decreases |s| - i
  {
    if |s| - i < 4 then None else if EndsAt(s, i) then Some(i) else Scan(s, i + 1)
  }

  lemma {:induction false} ScanFinds(s: string, i: nat)
    requires i <= |s|
    ensures Scan(s, i).Some? ==> EndsAt(s, Scan(s, i).value)
    ensures forall j :: i <= j && EndsAt(s, j) ==> Scan(s, i).Some? && Scan(s, i).value <= j
    decreases |s| - i
  {
    if |s| - i >= 4 && !EndsAt(s, i) {
      ScanFinds(s, i + 1);
    }
  }

  datatype Framed = Framed(requests: seq<string>, rest: string)

  /** The requests of a stream and the unfinished suffix. */
  function Split(s: string): Framed
    decreases |s|
  {
    match Scan(s, 0)
    case None => Framed([], s)
    case Some(i) => Prepend(s[..i + 4], Split(s[i + 4..]))
  }

  function Prepend(h: string, f: Framed): Framed {
    Framed([h] + f.requests, f.rest)
  }

  function Concat(parts: seq<string>): string {
    if parts == [] then "" else parts[0] + Concat(parts[1..])
  }

  /** Scanning from p on is scanning what follows p. */
  lemma {:induction false} ScanSuffix(s: string, p: nat, i: nat)
    requires p + i <= |s|
    ensures Scan(s, p + i) == match Scan(s[p..], i) case None => None case Some(j) => Some(p + j)
    decreases |s| - i
  {
    if |s| - p - i >= 4 {
      assert EndsAt(s, p + i) <==> EndsAt(s[p..], i);
      if !EndsAt(s, p + i) {
        ScanSuffix(s, p, i + 1);
      }
    }
  }

  /** One round of the request loop: behind position p, the split goes on with the bytes up to the
      blank line that the scan finds, or ends. */
  lemma SplitFrom(s: string, p: nat, i: nat)
    requires p <= |s| && Scan(s, p) == Some(i)
    ensures Split(s[p..]) == Prepend(s[p..i + 4], Split(s[i + 4..]))
  {
    hide Scan, Split;
    ScanSuffix(s, p, 0);
    SplitUnfolds(s[p..], i - p);
    SliceOfSuffix(s, p, i + 4);
  }

  lemma SplitUnfolds(s: string, i: nat)
    requires Scan(s, 0) == Some(i)
    ensures Split(s) == Prepend(s[..i + 4], Split(s[i + 4..]))
  {
    hide Scan;
  }

  lemma SplitStops(s: string, p: nat)
    requires p <= |s| && Scan(s, p) == None
    ensures Split(s[p..]) == Framed([], s[p..])
  {
    ScanSuffix(s, p, 0);
  }

  lemma SliceOfSuffix(s: string, p: nat, n: nat)
    requires p <= n <= |s|
    ensures s[p..][..n - p] == s[p..n] && s[p..][n - p..] == s[n..]
  {
  }

  // ---------------------------------------------------------------- what a split is

  /** A request ends with the only blank line in it. */
  ghost predicate IsRequest(h: string) {
    |h| >= 4 && forall i :: EndsAt(h, i) <==> i == |h| - 4
  }

  ghost predicate IsSplit(s: string, f: Framed) {
    && s == Concat(f.requests) + f.rest
    && (forall h :: h in f.requests ==> IsRequest(h))
    && !HasEnd(f.rest)
  }

  /** Blank lines of a part are blank lines of the whole. */
  lemma EndsInPrefix(s: string, n: nat, i: int)
    requires n <= |s|
    ensures EndsAt(s[..n], i) <==> EndsAt(s, i) && i + 4 <= n
  {
  }

  lemma CutIsRequest(s: string, i: nat)
    requires Scan(s, 0) == Some(i)
    ensures IsRequest(s[..i + 4])
  {
    var h := s[..i + 4];
    ScanFinds(s, 0);
    forall j
      ensures EndsAt(h, j) <==> j == i
    {
      EndsInPrefix(s, i + 4, j);
    }
  }

  lemma Assoc(a: string, b: string, c: string)
    ensures a + (b + c) == a + b + c
  {
  }

  lemma Cut(sent: string, s: string, m: nat)
    requires m <= |s|
    ensures sent + s == sent + s[..m] + s[m..]
  {
    assert s == s[..m] + s[m..];
    Assoc(sent, s[..m], s[m..]);
  }

  lemma SplitGrows(s: string, f: Framed, h: string)
    requires IsSplit(s, f) && IsRequest(h)
    ensures IsSplit(h + s, Prepend(h, f))
  {
    var all := [h] + f.requests;
    assert all[0] == h && all[1..] == f.requests;
    Assoc(h, Concat(f.requests), f.rest);
  }

  lemma {:induction false} SplitIsSplit(s: string)
    ensures IsSplit(s, Split(s))
    decreases |s|
  {
    hide Scan, Split, IsSplit;
    var r := Scan(s, 0);
    if r.Some? {
      var i := r.value;
      var h, t := s[..i + 4], s[i + 4..];
      SplitUnfolds(s, i);
      SplitIsSplit(t);
      CutIsRequest(s, i);
      SplitGrows(t, Split(t), h);
      assert s == h + t;
    } else {
      UnfinishedIsSplit(s);
    }
  }

  lemma UnfinishedIsSplit(s: string)
    requires Scan(s, 0) == None
    ensures IsSplit(s, Split(s))
  {
    ScanFinds(s, 0);
    assert Concat([]) + s == s;
  }

  lemma ScanOfRequest(h: string, t: string)
    requires IsRequest(h)
    ensures Scan(h + t, 0) == Some((|h| - 4) as nat)
  {
    var s := h + t;
    assert s[..|h|] == h;
    forall j
      ensures EndsAt(h, j) <==> EndsAt(s, j) && j + 4 <= |h|
    {
      EndsInPrefix(s, |h|, j);
    }
    assert EndsAt(h, |h| - 4);
    ScanFinds(s, 0);
  }

  /** There is only one way to cut a stream at its blank lines. */
  lemma {:induction false} SplitIsUnique(s: string, f: Framed)
    requires IsSplit(s, f)
    ensures f == Split(s)
    decreases |f.requests|
  {
    if f.requests == [] {
      assert s == f.rest;
      ScanFinds(s, 0);
    } else {
      var h, tail := f.requests[0], Framed(f.requests[1..], f.rest);
      var t := Concat(tail.requests) + tail.rest;
      assert h in f.requests && s == h + t;
      ScanOfRequest(h, t);
      assert s[..|h|] == h && s[|h|..] == t;
      SplitIsUnique(t, tail);
      assert f.requests == [h] + tail.requests;
    }
  }

  lemma {:induction false} ConcatAppend(a: seq<string>, b: seq<string>)
    ensures Concat(a + b) == Concat(a) + Concat(b)
  {
    if a == [] {
      assert a + b == b;
    } else {
      ConcatAppend(a[1..], b);
      assert (a + b)[1..] == a[1..] + b && (a + b)[0] == a[0];
    }
  }

  lemma SplitsJoin(s: string, f: Framed, t: string, g: Framed)
    requires IsSplit(s, f) && IsSplit(f.rest + t, g)
    ensures IsSplit(s + t, Framed(f.requests + g.requests, g.rest))
  {
    ConcatAppend(f.requests, g.requests);
    Assoc(Concat(f.requests), f.rest, t);
    Assoc(Concat(f.requests), Concat(g.requests), g.rest);
  }

  /** Framing does not look at how the stream arrives: splitting the unfinished suffix with the
      next bytes continues the split of what came before. */
  lemma SplitResumes(s: string, t: string)
    ensures Split(s + t) == Framed(Split(s).requests + Split(Split(s).rest + t).requests,
                                   Split(Split(s).rest + t).rest)
  {
    var f, g := Split(s), Split(Split(s).rest + t);
    SplitIsSplit(s);
    SplitIsSplit(f.rest + t);
    SplitsJoin(s, f, t, g);
    SplitIsUnique(s + t, Framed(f.requests + g.requests, g.rest));
  }

  /** The stream fed chunk by chunk. */
  function Feed(chunks: seq<string>): Framed {
    if chunks == [] then Framed([], "") else
    var before := Feed(chunks[..|chunks| - 1]);
    var now := Split(before.rest + chunks[|chunks| - 1]);
    Framed(before.requests + now.requests, now.rest)
  }

  lemma {:induction false} ChunkingIsIrrelevant(chunks: seq<string>)
    ensures Feed(chunks) == Split(Concat(chunks))
  {
    if chunks == [] {
      assert Scan("", 0) == None;
    } else {
      var n := |chunks| - 1;
      ChunkingIsIrrelevant(chunks[..n]);
      SplitResumes(Concat(chunks[..n]), chunks[n]);
      ConcatAppend(chunks[..n], [chunks[n]]);
      assert chunks == chunks[..n] + [chunks[n]];
      assert Concat([chunks[n]]) == chunks[n];
    }
  }

  // ---------------------------------------------------------------- responses

  /** The texts that `snprintf` makes are never empty. */
  type Text = s: string | s != "" witness "H"

  /** What the file system says to a request: a file that can be sent, one that cannot be opened
      although it exists, or none. The texts of headers come with the answer, those of the answer 404
      as header and body. */
  datatype Reply =
    | File(header: Text, body: string, keep: bool)
    | Unreadable(header: Text, head404: Text, text404: Text)
    | Missing(head404: Text, text404: Text)

  /** Does the connection stay open after the answer? */
  predicate Keeps(r: Reply) {
    r.File? && r.keep
  }

  /** The bytes a client is owed for a request. */
  function Full(r: Reply): string {
    match r
    case File(header, body, _) => header + body
    case Unreadable(header, head, text) => header + head + text
    case Missing(head, text) => head + text
  }

  /** The output side of a connection: bytes queued, the open file with its offset, keep-alive. */
  datatype Out = Out(pending: string, open: bool, body: string, off: nat, keep: bool)

  ghost predicate OutOk(o: Out) {
    o.off <= |o.body|
  }

  function FileRest(o: Out): string
    requires OutOk(o)
  {
    if o.open then o.body[o.off..] else ""
  }

  /** The bytes still to be sent. */
  function Remaining(o: Out): string
    requires OutOk(o)
  {
    o.pending + FileRest(o)
  }

  /** The output after a request has been handled: text is queued, a file replaces the open one. */
  function Respond(o: Out, r: Reply): (p: Out)
    ensures OutOk(o) ==> OutOk(p)
  {
    match r
    case File(header, body, keep) => Out(o.pending + header, true, body, 0, keep)
    case Unreadable(header, head, text) => o.(pending := o.pending + header + head + text, keep := false)
    case Missing(head, text) => o.(pending := o.pending + head + text, keep := false)
  }

  function RespondAll(o: Out, site: string -> Reply, requests: seq<string>): (p: Out)
    ensures OutOk(o) ==> OutOk(p)
    decreases |requests|
  {
    if requests == [] then o else RespondAll(Respond(o, site(requests[0])), site, requests[1..])
  }

  function Owed(site: string -> Reply, requests: seq<string>): string {
    if requests == [] then "" else Full(site(requests[0])) + Owed(site, requests[1..])
  }

  /** No request is handled while bytes of a file are still to be sent. */
  ghost predicate Orderly(o: Out, site: string -> Reply, requests: seq<string>)
    requires OutOk(o)
    decreases |requests|
  {
    requests != [] ==> FileRest(o) == "" && Orderly(Respond(o, site(requests[0])), site, requests[1..])
  }

  /** A response adds its own bytes behind those still to be sent, if no file is being sent. */
  lemma RespondConserves(o: Out, r: Reply)
    requires OutOk(o)
    ensures FileRest(o) == "" ==> Remaining(Respond(o, r)) == Remaining(o) + Full(r)
    ensures r.File? && Remaining(Respond(o, r)) == Remaining(o) + Full(r) ==> FileRest(o) == ""
  {
    if FileRest(o) == "" {
      match r
      case File(header, body, _) =>
        assert body[0..] == body;
        Assoc(o.pending, header, body);
      case Unreadable(header, head, text) =>
        Assoc(o.pending, header, head);
        Assoc(o.pending, header + head, text);
      case Missing(head, text) =>
        Assoc(o.pending, head, text);
    } else if r.File? {
      assert |Remaining(Respond(o, r))| < |Remaining(o) + Full(r)|;
    }
  }

  /** Sending file bytes with nothing queued, and closing a file that is sent. */
  lemma FileStep(sent: string, o: Out, m: nat)
    requires OutOk(o) && o.pending == "" && o.open && m <= |o.body| - o.off
    ensures sent + Remaining(o) == sent + o.body[o.off..][..m] + Remaining(o.(off := o.off + m))
  {
    OnlyFile(o);
    OnlyFile(o.(off := o.off + m));
    hide Remaining, FileRest;
    FileParts(sent, o.body, o.off, m);
  }

  lemma FileParts(sent: string, body: string, off: nat, m: nat)
    requires off + m <= |body|
    ensures sent + body[off..] == sent + body[off..][..m] + body[off + m..]
  {
    var a := body[off..];
    assert a[m..] == body[off + m..];
    Cut(sent, a, m);
  }

  lemma OnlyFile(o: Out)
    requires OutOk(o) && o.pending == "" && o.open
    ensures Remaining(o) == o.body[o.off..]
  {
    NoPrefix(o.body[o.off..]);
  }

  /** Of a queue that was there when `before` had been sent, d bytes have been sent and the rest is
      still queued. */
  ghost predicate Written(before: string, queue: string, d: nat, sent: string, pending: string) {
    d <= |queue| && pending == queue[d..] && sent == before + queue[..d]
  }

  lemma WrittenStart(before: string, queue: string)
    ensures Written(before, queue, 0, before, queue)
  {
    assert queue[0..] == queue && before + queue[..0] == before;
  }

  lemma WrittenMore(before: string, queue: string, d: nat, sent: string, pending: string, m: nat)
    requires Written(before, queue, d, sent, pending) && m <= |pending|
    ensures Written(before, queue, d + m, sent + pending[..m], pending[m..])
  {
    SliceOfSuffix(queue, d, d + m);
    assert queue[..d + m] == queue[..d] + queue[d..d + m];
    Assoc(before, queue[..d], queue[d..d + m]);
  }

  lemma WrittenRest(before: string, queue: string, d: nat, sent: string, pending: string)
    requires Written(before, queue, d, sent, pending)
    ensures d <= |queue| && pending == queue[d..]
  {
  }

  lemma WrittenConserves(before: string, queue: string, d: nat, sent: string, pending: string, rest: string)
    requires Written(before, queue, d, sent, pending)
    ensures sent + (pending + rest) == before + (queue + rest)
    ensures before <= sent && |sent| == |before| + d
  {
    assert queue == queue[..d] + queue[d..];
    Assoc(queue[..d], queue[d..], rest);
    Assoc(before, queue[..d], queue[d..] + rest);
  }

  lemma NoPrefix(s: string)
    ensures "" + s == s
  {
  }

  lemma {:induction false} RespondAllConserves(o: Out, site: string -> Reply, requests: seq<string>)
    requires OutOk(o) && Orderly(o, site, requests)
    ensures Remaining(RespondAll(o, site, requests)) == Remaining(o) + Owed(site, requests)
    decreases |requests|
  {
    if requests != [] {
      RespondConserves(o, site(requests[0]));
      RespondAllConserves(Respond(o, site(requests[0])), site, requests[1..]);
    }
  }

  lemma {:induction false} RespondAllAppend(o: Out, site: string -> Reply, a: seq<string>, h: string)
    ensures RespondAll(o, site, a + [h]) == Respond(RespondAll(o, site, a), site(h))
    ensures OutOk(o) ==> (Orderly(o, site, a + [h]) <==> Orderly(o, site, a) && FileRest(RespondAll(o, site, a)) == "")
    decreases |a|
  {
    if a == [] {
      assert a + [h] == [h] && [h][1..] == [];
    } else {
      RespondAllAppend(Respond(o, site(a[0])), site, a[1..], h);
      assert (a + [h])[1..] == a[1..] + [h];
    }
  }

  lemma {:induction false} OwedAppend(site: string -> Reply, a: seq<string>, b: seq<string>)
    ensures Owed(site, a + b) == Owed(site, a) + Owed(site, b)
  {
    if a == [] {
      assert a + b == b;
    } else {
      OwedAppend(site, a[1..], b);
      assert (a + b)[1..] == a[1..] + b && (a + b)[0] == a[0];
      Assoc(Full(site(a[0])), Owed(site, a[1..]), Owed(site, b));
    }
  }

  /** Handling requests in good order keeps bytes sent plus bytes to be sent equal to bytes owed. */
  lemma ConservedByHandling(sent: string, o: Out, site: string -> Reply, handled: seq<string>, requests: seq<string>)
    requires OutOk(o) && sent + Remaining(o) == Owed(site, handled) && Orderly(o, site, requests)
    ensures sent + Remaining(RespondAll(o, site, requests)) == Owed(site, handled + requests)
  {
    RespondAllConserves(o, site, requests);
    OwedAppend(site, handled, requests);
    Assoc(sent, Remaining(o), Owed(site, requests));
  }

  /** The requests `rs` took a connection from output o and flag calm to output p and flag after. */
  ghost predicate Answered(o: Out, calm: bool, site: string -> Reply, rs: seq<string>, p: Out, after: bool) {
    OutOk(o) && p == RespondAll(o, site, rs) && after == (calm && Orderly(o, site, rs))
  }

  lemma {:induction false} AnsweredTransitive(o: Out, calm: bool, site: string -> Reply, rs: seq<string>,
                                              p: Out, after: bool, more: seq<string>, q: Out, last: bool)
    requires Answered(o, calm, site, rs, p, after) && Answered(p, after, site, more, q, last)
    ensures Answered(o, calm, site, rs + more, q, last)
    decreases |rs|
  {
    if rs == [] {
      assert rs + more == more;
    } else {
      var o1 := Respond(o, site(rs[0]));
      AnsweredTransitive(o1, calm && FileRest(o) == "", site, rs[1..], p, after, more, q, last);
      assert (rs + more)[1..] == rs[1..] + more && (rs + more)[0] == rs[0];
    }
  }

  lemma OneAnswer(o: Out, site: string -> Reply, h: string)
    ensures RespondAll(o, site, [h]) == Respond(o, site(h)) && Owed(site, [h]) == Full(site(h))
  {
    assert [h][1..] == [];
  }

  /** After some requests, bytes are still to be sent, and the last answer decides about the connection. */
  lemma {:induction false} AnswersArePending(o: Out, site: string -> Reply, rs: seq<string>)
    requires rs != []
    ensures var p, last := RespondAll(o, site, rs), site(rs[|rs| - 1]);
            p.pending != "" && p.keep == Keeps(last) && (p.keep <==> last.File? && last.keep)
    decreases |rs|
  {
    var o1 := Respond(o, site(rs[0]));
    assert o1.pending != "";
    if |rs| == 1 {
      assert rs[1..] == [];
    } else {
      AnswersArePending(o1, site, rs[1..]);
    }
  }

  /** One request at a time is orderly. */
  lemma OneRequestIsOrderly(o: Out, site: string -> Reply, rs: seq<string>)
    requires OutOk(o) && FileRest(o) == "" && |rs| <= 1
    ensures Orderly(o, site, rs)
  {
    if |rs| == 1 {
      assert rs[1..] == [];
    }
  }

  // ---------------------------------------------------------------- the request loop

  /** Up to position p of the buffer s, the requests `done` have been handled: the output went from
      o to q, and `calm` says that no file was being sent. */
  ghost predicate Handling(s: string, p: nat, site: string -> Reply, o: Out, done: seq<string>, q: Out, calm: bool) {
    && p <= |s| && OutOk(o)
    && Split(s) == Framed(done + Split(s[p..]).requests, Split(s[p..]).rest)
    && q == RespondAll(o, site, done)
    && (calm <==> Orderly(o, site, done))
  }

  lemma HandlingStarts(s: string, site: string -> Reply, o: Out)
    requires OutOk(o)
    ensures Handling(s, 0, site, o, [], o, true)
  {
    assert s[0..] == s;
    assert [] + Split(s).requests == Split(s).requests;
  }

  lemma HandlingContinues(s: string, p: nat, site: string -> Reply, o: Out, done: seq<string>, q: Out, calm: bool, i: nat)
    requires Handling(s, p, site, o, done, q, calm) && Scan(s, p) == Some(i)
    ensures var h := s[p..i + 4];
            Handling(s, i + 4, site, o, done + [h], Respond(q, site(h)), calm && FileRest(q) == "")
  {
    hide Scan, Split;
    SplitFrom(s, p, i);
    var h := s[p..i + 4];
    var more := Split(s[i + 4..]).requests;
    assert done + ([h] + more) == done + [h] + more;
    RespondAllAppend(o, site, done, h);
  }

  lemma HandlingEnds(s: string, p: nat, site: string -> Reply, o: Out, done: seq<string>, q: Out, calm: bool)
    requires Handling(s, p, site, o, done, q, calm) && Scan(s, p) == None
    ensures Split(s) == Framed(done, s[p..])
  {
    SplitStops(s, p);
    assert done + [] == done;
  }
}
