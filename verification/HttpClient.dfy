/** The receive loop of the HTTP test client: header text is collected in a bounded buffer, body
    bytes are counted until the announced length is reached. */
module HttpClient {
  import opened Options
  import opened Bytes
  import opened HttpFraming
  import opened ContentLength

  const HEADER_SIZE: nat := 8192

  /** A C string ends at its first NUL. */
  function CString(s: string): (r: string)
    ensures r <= s
  {
    if s == "" || s[0] == '\0' then "" else [s[0]] + CString(s[1..])
  }

  /** The part of a stream that fits the header buffer with its closing NUL. */
  function Buffered(stream: string): string {
    stream[..Min(|stream|, HEADER_SIZE - 1)]
  }

  /** Where `strstr` finds the blank line, once so much of the stream is there. */
  function HeaderEnd(stream: string): Option<nat> {
    Scan(CString(Buffered(stream)), 0)
  }

  /** The bytes behind the header; none if the header were not complete. */
  function Behind(total: nat, headerSize: nat): nat {
    if total >= headerSize then total - headerSize else 0
  }

  // ---------------------------------------------------------------- growing streams

  lemma {:induction false} CStringAppend(s: string, x: string)
    ensures CString(s + x) == if CString(s) == s then s + CString(x) else CString(s)
  {
    if s == "" {
      assert s + x == x;
      assert "" + CString(x) == CString(x);
    } else {
      assert (s + x)[0] == s[0] && (s + x)[1..] == s[1..] + x;
      CStringAppend(s[1..], x);
      if s[0] != '\0' {
        assert CString(s) == s <==> CString(s[1..]) == s[1..] by {
          assert s == [s[0]] + s[1..];
          assert CString(s)[1..] == CString(s[1..]);
        }
        if CString(s) == s {
          Assoc([s[0]], s[1..], CString(x));
        }
      }
    }
  }

  lemma {:induction false} ScanAppend(s: string, x: string, i: nat)
    requires i <= |s|
    ensures Scan(s, i).Some? ==> Scan(s + x, i) == Scan(s, i)
    ensures Scan(s, i).None? && Scan(s + x, i).Some? ==> Scan(s + x, i).value + 4 > |s|
    decreases |s| - i
  {
    if |s| - i >= 4 {
      assert EndsAt(s + x, i) <==> EndsAt(s, i);
      if !EndsAt(s, i) {
        ScanAppend(s, x, i + 1);
      }
    }
  }

  /** More of the stream: the header text grows until the buffer is full. */
  lemma BufferedGrows(s: string, x: string) returns (y: string)
    ensures Buffered(s + x) == Buffered(s) + y && y <= x
    ensures |s| >= HEADER_SIZE - 1 ==> y == ""
  {
    y := x[..Min(|s| + |x|, HEADER_SIZE - 1) - Min(|s|, HEADER_SIZE - 1)];
  }

  /** The end of the header does not move, and when it shows up it lies behind everything that was
      there before. */
  lemma HeaderEndStable(s: string, x: string)
    ensures HeaderEnd(s).Some? ==> HeaderEnd(s + x) == HeaderEnd(s)
    ensures HeaderEnd(s).None? && HeaderEnd(s + x).Some? ==>
              |s| < HEADER_SIZE - 1 && CString(s) == s && HeaderEnd(s + x).value + 4 > |s|
  {
    hide Scan, CString;
    var y := BufferedGrows(s, x);
    EndStable(Buffered(s), y);
    if |s| < HEADER_SIZE - 1 {
      assert Buffered(s) == s;
    } else {
      assert Buffered(s) + y == Buffered(s);
    }
  }

  lemma EndStable(t: string, y: string)
    ensures var before, after := Scan(CString(t), 0), Scan(CString(t + y), 0);
            && (before.Some? ==> after == before)
            && (before.None? && after.Some? ==> CString(t) == t && after.value + 4 > |t|)
  {
    hide Scan, CString;
    CStringAppend(t, y);
    if CString(t) == t {
      ScanAppend(t, CString(y), 0);
    }
  }

  /** For a stream whose header holds no NUL, the end of the header is the first blank line if it fits
      the buffer of 8192 bytes with its closing NUL, and is not found otherwise. */
  lemma HeaderEndIsFirst(s: string, i: nat)
    requires Scan(s, 0) == Some(i) && '\0' !in s[..i + 4]
    ensures HeaderEnd(s) == if i + 4 < 8192 then Some(i) else None
  {
    var h, x := s[..i + 4], s[i + 4..];
    assert s == h + x;
    NoNul(h);
    if i + 4 < 8192 {
      assert Buffered(h) == h;
      CutIsRequest(s, i);
      var y := BufferedGrows(h, x);
      CStringAppend(h, y);
      ScanOfRequest(h, CString(y));
    } else {
      var t := s[..8191];
      assert Buffered(s) == t;
      NoEndBefore(s, i, CString(t));
    }
  }

  /** Nothing is found in a text that ends before the end of the first blank line. */
  lemma NoEndBefore(s: string, i: nat, t: string)
    requires Scan(s, 0) == Some(i) && t <= s && |t| < i + 4
    ensures Scan(t, 0) == None
  {
    ScanFinds(s, 0);
    ScanFinds(t, 0);
    var r := Scan(t, 0);
    if r.Some? {
      assert t == s[..|t|];
      EndsInPrefix(s, |t|, r.value);
    }
  }

  lemma {:induction false} NoNul(s: string)
    requires '\0' !in s
    ensures CString(s) == s
  {
    if s != "" {
      NoNul(s[1..]);
      assert s == [s[0]] + s[1..];
    }
  }

  lemma {:induction false} NulEnds(pre: string)
    requires '\0' !in pre
    ensures CString(pre + ['\0']) == pre
  {
    if pre == "" {
      assert pre + ['\0'] == ['\0'];
    } else {
      NulEnds(pre[1..]);
      assert (pre + ['\0'])[1..] == pre[1..] + ['\0'] && pre == [pre[0]] + pre[1..];
    }
  }

  lemma NothingInPrefix(pre: string, c: string)
    requires Scan(pre, 0) == None && c <= pre
    ensures Scan(c, 0) == None
  {
    hide Scan;
    assert pre == c + pre[|c|..];
    ScanAppend(c, pre[|c|..], 0);
  }

  /** A NUL before the blank line hides it. */
  lemma NulHidesHeader(pre: string, x: string)
    requires '\0' !in pre && Scan(pre, 0) == None
    ensures HeaderEnd(pre + ['\0'] + x) == None
  {
    hide Scan, CString;
    var z := pre + ['\0'];
    NulEnds(pre);
    var t := Buffered(z);
    if |z| < HEADER_SIZE {
      assert t == z;
    } else {
      assert t <= pre;
    }
    NothingInPrefix(pre, CString(t));
    HeaderEndStable(z, x);
  }

  lemma HeaderInStream(s: string)
    ensures HeaderEnd(s).Some? ==> HeaderEnd(s).value + 4 <= |s| && IsRequest(s[..HeaderEnd(s).value + 4])
  {
    if HeaderEnd(s).Some? {
      var i, t := HeaderEnd(s).value, CString(Buffered(s));
      CutIsRequest(t, i);
      assert t <= Buffered(s) <= s;
      assert s[..i + 4] == t[..i + 4];
    }
  }

  /** The text in the buffer is the header and what has arrived of the body. */
  lemma TextOfStream(t: string, end: nat)
    requires HeaderEnd(t) == Some(end) && end + 4 <= |t|
    ensures var h, text := t[..end + 4], CString(Buffered(t));
            end + 4 <= |text| < HEADER_SIZE && text == h + text[end + 4..] && EndsInSpace(h)
  {
    var h, text := t[..end + 4], CString(Buffered(t));
    HeaderInStream(t);
    assert EndsAt(h, |h| - 4);
    assert text <= Buffered(t) <= t && end + 4 <= |text|;
    assert text[..end + 4] == h;
  }

  /** A header that settles its length settles it for the whole text. */
  lemma SettledText(t: string, end: nat)
    requires HeaderEnd(t) == Some(end) && end + 4 <= |t| && Settled(t[..end + 4])
    ensures ParseContentLength(CString(Buffered(t))) == ParseContentLength(t[..end + 4])
  {
    hide ParseContentLength, Settled, HeaderEnd, CString, Buffered;
    TextOfStream(t, end);
    ParseStable(t[..end + 4], CString(Buffered(t))[end + 4..]);
  }

  // ---------------------------------------------------------------- the loop

  class Response {
    var total: nat
    var body: nat
    var parsed: bool
    var expected: int
    var headerSize: nat
    var header: array<char>
    var headerLen: nat
    /** All bytes received, and those received when the end of the header was found. */
    ghost var stream: string
    ghost var seen: string

    ghost predicate Valid()
      reads this, header
    {
      && header.Length == HEADER_SIZE && headerLen < HEADER_SIZE
      && total == |stream|
      && (!parsed ==> HeaderEnd(stream) == None && header[..headerLen] == Buffered(stream) && body == 0 && expected == -1)
      && (parsed ==> Accounted())
    }

    /** The header ends at its blank line, every other byte is body, and the length was read from the
        text that was there when the end of the header was found. */
    ghost predicate Accounted()
      reads this, header
      requires headerLen <= header.Length
    {
      && headerSize >= 4 && HeaderEnd(stream) == Some((headerSize - 4) as nat)
      && headerSize <= total && body == total - headerSize
      && seen <= stream && HeaderEnd(seen).Some? && header[..headerLen] == Buffered(seen)
      && expected == ParseContentLength(CString(Buffered(seen)))
    }

    predicate Finished()
      reads this
    {
      parsed && expected != -1 && body >= expected
    }

    /** Completion depends on the number of bytes alone: a response whose header settles its length is
        finished exactly when that many body bytes are there, and never if the length is no number. */
    lemma FinishedIff(rest: string, end: nat)
      requires Valid() && HeaderEnd(stream + rest) == Some(end)
      requires end + 4 <= |stream + rest| && Settled((stream + rest)[..end + 4])
      ensures var n := ParseContentLength((stream + rest)[..end + 4]);
              Finished() <==> n >= 0 && |stream| >= end + 4 + n
    {
      hide Scan, CString, HeaderEnd, ParseContentLength, Settled, Buffered;
      HeaderEndStable(stream, rest);
      if parsed {
        HeaderEndStable(seen, stream[|seen|..]);
        assert seen + stream[|seen|..] == stream;
        HeaderInStream(seen);
        assert seen[..end + 4] == (stream + rest)[..end + 4];
        SettledText(seen, end);
      }
    }

    constructor ()
      ensures Valid() && stream == "" && !parsed && fresh(header)
    {
      total, body, parsed, expected, headerSize, headerLen := 0, 0, false, -1, 0, 0;
      header := new char[HEADER_SIZE](_ => '\0');
      stream, seen := "", "";
    }

    /** Appends the bytes that fit, less one for the NUL. */
    method Collect(buf: string)
      requires header.Length == HEADER_SIZE && headerLen < HEADER_SIZE && header[..headerLen] == Buffered(stream)
      modifies this`headerLen, header
      ensures headerLen < HEADER_SIZE && header[..headerLen] == Buffered(stream + buf)
      ensures old(headerLen) <= headerLen <= old(headerLen) + |buf|
    {
      var copyLen := |buf|;
      if headerLen + copyLen >= HEADER_SIZE {
        copyLen := HEADER_SIZE - headerLen - 1;
      }
      forall i | 0 <= i < copyLen {
        header[headerLen + i] := buf[i];
      }
      headerLen := headerLen + copyLen;
    }

    /** One `recv` of the loop. */
    method OnChunk(buf: string) returns (done: bool)
      requires Valid() && buf != ""
      modifies this, header
      ensures Valid() && header == old(header) && stream == old(stream) + buf
      ensures parsed ==> seen == if old(parsed) then old(seen) else stream
      ensures done == Finished()
    {
      if parsed {
        CountBody(buf);
      } else {
        CountHeader(buf);
      }
      done := Finished();
    }

    method CountBody(buf: string)
      requires Valid() && parsed
      modifies this`total, this`body, this`stream
      ensures Valid() && stream == old(stream) + buf
    {
      hide Scan, CString, HeaderEnd, ParseContentLength, Buffered;
      HeaderEndStable(stream, buf);
      total, body := total + |buf|, body + |buf|;
      stream := stream + buf;
    }

    method CountHeader(buf: string)
      requires Valid() && !parsed && buf != ""
      modifies this`total, this`stream, this`seen, this`headerLen, this`parsed, this`expected, this`headerSize, this`body, header
      ensures Valid() && stream == old(stream) + buf && (parsed ==> seen == stream)
    {
      hide Scan, CString, HeaderEnd, ParseContentLength, Buffered;
      total := total + |buf|;
      ParseHeader(buf);
      stream := stream + buf;
      seen := stream;
    }

    /** The header branch of the loop. The guard around the count of body bytes compares the chunk with
        the text behind the header; it is true whenever the blank line is first seen. */
    method ParseHeader(buf: string)
      requires header.Length == HEADER_SIZE && headerLen < HEADER_SIZE && buf != ""
      requires !parsed && HeaderEnd(stream) == None && header[..headerLen] == Buffered(stream)
      requires total == |stream| + |buf| && body == 0 && expected == -1
      modifies this`headerLen, this`parsed, this`expected, this`headerSize, this`body, header
      ensures headerLen < HEADER_SIZE && header[..headerLen] == Buffered(stream + buf)
      ensures parsed <==> HeaderEnd(stream + buf).Some?
      ensures !parsed ==> body == 0 && expected == -1
      ensures parsed ==>
                && headerSize == HeaderEnd(stream + buf).value + 4 && headerSize <= total && body == total - headerSize
                && expected == ParseContentLength(CString(header[..headerLen]))
    {
      hide Scan, CString;
      ghost var before := headerLen;
      Collect(buf);
      var text := CString(header[..headerLen]);
      var end := Scan(text, 0);
      if end.Some? {
        parsed := true;
        expected := ParseContentLength(text);
        headerSize := end.value + 4;
        HeaderEndStable(stream, buf);
        HeaderInStream(stream + buf);
        assert before == |stream| < headerSize;
        if |buf| > headerLen - headerSize {
          body := Behind(total, headerSize);
        }
      }
    }
  }

  /** The stream of the first k chunks. */
  ghost function Prefix(chunks: seq<string>, k: nat): string
    requires k <= |chunks|
  {
    Concat(chunks[..k])
  }

  lemma PrefixStep(chunks: seq<string>, k: nat)
    requires k < |chunks|
    ensures Prefix(chunks, k + 1) == Prefix(chunks, k) + chunks[k]
  {
    ConcatAppend(chunks[..k], [chunks[k]]);
    assert chunks[..k + 1] == chunks[..k] + [chunks[k]];
    assert Concat([chunks[k]]) == chunks[k];
  }

  lemma PrefixGrows(chunks: seq<string>, i: nat, j: nat) returns (rest: string)
    requires i <= j <= |chunks|
    ensures Prefix(chunks, j) == Prefix(chunks, i) + rest
  {
    ConcatAppend(chunks[..i], chunks[i..j]);
    assert chunks[..j] == chunks[..i] + chunks[i..j];
    rest := Concat(chunks[i..j]);
  }

  /** The chunk with which the header is complete. */
  ghost predicate HeaderAt(chunks: seq<string>, j: nat) {
    0 < j <= |chunks| && HeaderEnd(Prefix(chunks, j - 1)).None? && HeaderEnd(Prefix(chunks, j)).Some?
  }

  /** The length that the client reads when that chunk has arrived. */
  ghost function Announced(chunks: seq<string>, j: nat): int
    requires j <= |chunks|
  {
    ParseContentLength(CString(Buffered(Prefix(chunks, j))))
  }

  /** With k chunks the header and as many body bytes as the length says have arrived. */
  ghost predicate Complete(chunks: seq<string>, j: nat, k: nat)
    requires HeaderAt(chunks, j) && k <= |chunks|
  {
    && j <= k && Announced(chunks, j) >= 0
    && |Prefix(chunks, k)| >= HeaderEnd(Prefix(chunks, j)).value + 4 + Announced(chunks, j)
  }

  /** The state of the loop after k chunks: it is done exactly when the response is complete, and was
      not complete before; without a header, or with a length that is no number, it is never done. */
  ghost predicate Counted(chunks: seq<string>, k: nat, done: bool)
    requires k <= |chunks|
  {
    && (forall j: nat :: HeaderAt(chunks, j) ==>
          (done <==> Complete(chunks, j, k)) && forall i :: j <= i < k ==> !Complete(chunks, j, i))
    && (done ==> exists j: nat :: HeaderAt(chunks, j))
  }

  lemma HeaderAtIsUnique(chunks: seq<string>, i: nat, j: nat)
    requires HeaderAt(chunks, i) && HeaderAt(chunks, j)
    ensures i == j
  {
    hide HeaderEnd, Prefix;
    if i < j {
      var rest := PrefixGrows(chunks, i, j - 1);
      HeaderEndStable(Prefix(chunks, i), rest);
    } else if j < i {
      var rest := PrefixGrows(chunks, j, i - 1);
      HeaderEndStable(Prefix(chunks, j), rest);
    }
  }

  /** The header stays where it was found. */
  lemma HeaderAround(chunks: seq<string>, j: nat, k: nat)
    requires HeaderAt(chunks, j) && k <= |chunks|
    ensures HeaderEnd(Prefix(chunks, k)) == if k < j then None else HeaderEnd(Prefix(chunks, j))
  {
    hide HeaderEnd, Prefix;
    if k < j {
      var rest := PrefixGrows(chunks, k, j - 1);
      HeaderEndStable(Prefix(chunks, k), rest);
    } else {
      var rest := PrefixGrows(chunks, j, k);
      HeaderEndStable(Prefix(chunks, j), rest);
    }
  }

  /** What the loop knows: the stream of k chunks, and the chunk at which the header was found. */
  ghost predicate AtChunk(r: Response, chunks: seq<string>, k: nat)
    reads r
  {
    && k <= |chunks| && r.stream == Prefix(chunks, k)
    && (r.parsed ==> exists j: nat :: HeaderAt(chunks, j) && r.seen == Prefix(chunks, j))
  }

  /** The receive loop over all chunks of a response: for every response and every way to cut it, the
      loop is left with the first chunk that completes header and announced body, and not before. */
  method Receive(chunks: seq<string>) returns (r: Response, k: nat, done: bool)
    requires forall j :: 0 <= j < |chunks| ==> chunks[j] != ""
    ensures r.Valid() && AtChunk(r, chunks, k) && (done || k == |chunks|)
    ensures Counted(chunks, k, done)
  {
    hide HeaderEnd, ParseContentLength, Prefix, Counted;
    r := new Response();
    k, done := 0, false;
    NothingCounted(chunks);
    while k < |chunks| && !done
      invariant r.Valid() && fresh(r) && fresh(r.header)
      invariant AtChunk(r, chunks, k) && done == r.Finished() && Counted(chunks, k, done)
    {
      PrefixStep(chunks, k);
      done := r.OnChunk(chunks[k]);
      k := k + 1;
      CountStep(r, chunks, k);
    }
  }

  lemma NothingCounted(chunks: seq<string>)
    ensures Prefix(chunks, 0) == "" && Counted(chunks, 0, false)
  {
  }

  lemma CountStep(r: Response, chunks: seq<string>, k: nat)
    requires 0 < k <= |chunks| && r.Valid() && AtChunk(r, chunks, k) && Counted(chunks, k - 1, false)
    ensures Counted(chunks, k, r.Finished())
  {
    hide HeaderEnd, ParseContentLength, CString, Buffered, Prefix;
    forall j: nat | HeaderAt(chunks, j)
      ensures r.Finished() <==> Complete(chunks, j, k)
      ensures forall i :: j <= i < k ==> !Complete(chunks, j, i)
    {
      HeaderAround(chunks, j, k);
      if r.parsed {
        var i: nat :| HeaderAt(chunks, i) && r.seen == Prefix(chunks, i);
        HeaderAtIsUnique(chunks, i, j);
      }
      assert !Complete(chunks, j, k - 1);
    }
  }

  // ---------------------------------------------------------------- does chunking matter?

  /** However a stream that begins with the header h is cut, the client reads the same length. */
  ghost predicate LengthIsFixed(h: string) {
    forall a: seq<string>, b: seq<string>, i: nat, j: nat ::
      Concat(a) == Concat(b) && h <= Concat(a) && HeaderAt(a, i) && HeaderAt(b, j) ==> Announced(a, i) == Announced(b, j)
  }

  /** A header that fits the buffer and holds no NUL. */
  ghost predicate Fits(h: string) {
    IsRequest(h) && '\0' !in h && |h| < HEADER_SIZE
  }

  /** The body bytes that fit the buffer behind the header. */
  function Room(h: string): int {
    HEADER_SIZE - 1 - |h|
  }

  lemma HeaderOfStream(h: string, x: string)
    requires Fits(h)
    ensures HeaderEnd(h + x) == Some((|h| - 4) as nat)
  {
    ScanOfRequest(h, x);
    assert (h + x)[..|h|] == h;
    HeaderEndIsFirst(h + x, |h| - 4);
  }

  /** The client parses the header and some bytes behind it, no more than there is room for. */
  lemma AnnouncedText(h: string, a: seq<string>, i: nat) returns (y: string)
    requires Fits(h) && h <= Concat(a) && HeaderAt(a, i)
    ensures Announced(a, i) == ParseContentLength(h + y) && |y| <= Room(h)
  {
    hide HeaderEnd, ParseContentLength, Settled;
    var all := Concat(a);
    assert all == h + all[|h|..];
    HeaderOfStream(h, all[|h|..]);
    assert a[..|a|] == a;
    HeaderAround(a, i, |a|);
    var t := Prefix(a, i);
    HeaderInStream(t);
    var rest := PrefixGrows(a, i, |a|);
    assert t[..|h|] == h;
    TextOfStream(t, |h| - 4);
    y := CString(Buffered(t))[|h|..];
  }

  lemma WholeText(t: string)
    requires |t| < HEADER_SIZE && '\0' !in t
    ensures CString(Buffered(t)) == t
  {
    assert Buffered(t) == t;
    NoNul(t);
  }

  lemma UnsettledIsNotFixed(h: string)
    requires Fits(h) && !Settled(h) && Needed(h) <= Room(h)
    ensures !LengthIsFixed(h)
  {
    hide HeaderEnd, ParseContentLength, CString, Buffered, Settled, Needed;
    RequestEndsInSpace(h);
    var x := UnsettledReadsBody(h);
    var a, b := [h, x], [h + x];
    ConcatOne(h);
    ConcatOne(x);
    ConcatOne(h + x);
    ConcatAppend([h], [x]);
    assert a == [h] + [x] && a[..0] == [] && a[..1] == [h] && b[..0] == [] && b[..1] == b;
    HeaderOfStream(h, "");
    HeaderOfStream(h, x);
    assert h + "" == h;
    NoHeaderYet();
    assert HeaderAt(a, 1) && HeaderAt(b, 1);
    WholeText(h);
    WholeText(h + x);
    assert Announced(a, 1) == -1 && Announced(b, 1) == 7;
  }

  lemma ConcatOne(h: string)
    ensures Concat([h]) == h
  {
    assert [h][1..] == [];
  }

  lemma RequestEndsInSpace(h: string)
    requires IsRequest(h)
    ensures EndsInSpace(h)
  {
    assert EndsAt(h, |h| - 4);
  }

  lemma NoHeaderYet()
    ensures HeaderEnd("") == None
  {
  }

  /** The length that a header announces, if nothing behind it can change it. */
  lemma FixedLength(h: string, a: seq<string>, i: nat)
    requires Fits(h) && h <= Concat(a) && HeaderAt(a, i) && (Settled(h) || Room(h) < Needed(h))
    ensures Announced(a, i) == ParseContentLength(h)
  {
    hide HeaderEnd, ParseContentLength, Settled, Needed;
    RequestEndsInSpace(h);
    var y := AnnouncedText(h, a, i);
    if Settled(h) {
      ParseStable(h, y);
    } else {
      TooLittleBody(h, y);
      TooLittleBody(h, "");
      assert h + "" == h;
    }
  }

  /** The length that the client reads is independent of the chunking if and only if the header settles
      it, with a Content-Length and something behind the colon, or leaves too little room in the buffer
      for a body that would. */
  lemma LengthIsFixedIff(h: string)
    requires Fits(h)
    ensures LengthIsFixed(h) <==> Settled(h) || Room(h) < Needed(h)
  {
    hide Settled, Needed, Announced, Room, HeaderEnd;
    if Settled(h) || Room(h) < Needed(h) {
      forall a: seq<string>, b: seq<string>, i: nat, j: nat |
        Concat(a) == Concat(b) && h <= Concat(a) && HeaderAt(a, i) && HeaderAt(b, j)
        ensures Announced(a, i) == Announced(b, j)
      {
        FixedLength(h, a, i);
        FixedLength(h, b, j);
      }
    } else {
      UnsettledIsNotFixed(h);
    }
  }

  /** A response whose header says "Content-Length: n" is complete when the header and n more bytes are
      there, however it is cut. */
  lemma NumberedResponse(chunks: seq<string>, pre: string, name: string, n: nat, x: string, j: nat, k: nat)
    requires !Mentions(pre) && SameFolded(name, "Content-Length:") && n <= 9223372036854775807
    requires x != "" && (x[0] < '0' || x[0] > '9')
    requires var h := pre + ((name + " ") + (Render(n) + x)); Fits(h) && h <= Concat(chunks)
    requires HeaderAt(chunks, j) && k <= |chunks|
    ensures var h := pre + ((name + " ") + (Render(n) + x));
            Complete(chunks, j, k) <==> |Prefix(chunks, k)| >= |h| + n
  {
    hide HeaderEnd, ParseContentLength, Settled, Needed, Announced, Mentions, SameFolded, Render;
    var h := pre + ((name + " ") + (Render(n) + x));
    LengthIsRead(pre, name, n, x);
    FixedLength(h, chunks, j);
    var all := Concat(chunks);
    assert all == h + all[|h|..];
    HeaderOfStream(h, all[|h|..]);
    assert chunks[..|chunks|] == chunks;
    HeaderAround(chunks, j, |chunks|);
    HeaderInStream(Prefix(chunks, j));
    if k < j {
      HeaderAround(chunks, j, k);
      var rest := PrefixGrows(chunks, k, |chunks|);
      HeaderEndStable(Prefix(chunks, k), rest);
    }
  }
}
