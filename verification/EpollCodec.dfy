/** The codec of `epoll_wait`: four integers and as many events as fit 1024 bytes. */
module EpollCodec {
  import opened Bytes
  import opened WireBuffer

  const MSG_LIMIT: nat := 1024

  /** `struct epoll_event`; its C size is 12 (packed) or 16, its image on the wire always 12 bytes. */
  datatype Event = Event(events: nat, data: nat)

  ghost predicate IsEvent(e: Event) {
    e.events < Pow256(4) && e.data < Pow256(8)
  }

  datatype Header = Header(nfds: int, epfd: int, maxevents: int, timeout: int)

  ghost predicate IsHeader(h: Header) {
    IsInt32(h.nfds) && IsInt32(h.epfd) && IsInt32(h.maxevents) && IsInt32(h.timeout)
  }

  function EventBytes(e: Event): (s: seq<byte>)
    ensures |s| == 12
  {
    Put(4, e.events) + Put(8, e.data)
  }

  function EventOf(s: seq<byte>): Event
    requires |s| == 12
  {
    Event(Get(s[..4]), Get(s[4..]))
  }

  lemma EventRoundTrip(e: Event)
    requires IsEvent(e)
    ensures EventOf(EventBytes(e)) == e
  {
    var s := EventBytes(e);
    assert s[..4] == Put(4, e.events) && s[4..] == Put(8, e.data);
    GetPut(4, e.events);
    GetPut(8, e.data);
  }

  /** How many of n events a message carries when both sides see structures of size sz. */
  function Carried(n: int, sz: nat): (k: nat)
    requires sz == 12 || sz == 16
    ensures k <= (MSG_LIMIT - 16) / 12
  {
    if n <= 0 then 0 else Min(n, (MSG_LIMIT - 16 - sz) / 12 + 1)
  }

  /** A message that carries a header and the first k events. */
  ghost predicate HoldsHeader(m: seq<byte>, h: Header) {
    && |m| >= MSG_LIMIT
    && Field(m, 0, 4) == PutInt(h.nfds) && Field(m, 4, 4) == PutInt(h.epfd)
    && Field(m, 8, 4) == PutInt(h.maxevents) && Field(m, 12, 4) == PutInt(h.timeout)
  }

  ghost predicate HoldsEvents(m: seq<byte>, events: seq<Event>, k: nat) {
    && |m| >= MSG_LIMIT && 16 + 12 * k <= MSG_LIMIT && k <= |events|
    && forall i :: 0 <= i < k ==> EventAt(m, i) == EventBytes(events[i])
  }

  function EventAt(m: seq<byte>, i: nat): (f: seq<byte>)
    requires 16 + 12 * i + 12 <= |m|
    ensures |f| == 12
  {
    Field(m, 16 + 12 * i, 12)
  }

  lemma StoreHeader(m: seq<byte>, h: Header) returns (r: seq<byte>)
    requires |m| >= MSG_LIMIT
    ensures r == Splice(Splice(Splice(Splice(m, 0, PutInt(h.nfds)), 4, PutInt(h.epfd)), 8, PutInt(h.maxevents)), 12, PutInt(h.timeout))
    ensures HoldsHeader(r, h) && Behind(r, 16) == Behind(m, 16)
  {
    hide Splice, Behind;
    var m1 := Splice(m, 0, PutInt(h.nfds));
    var m2 := Splice(m1, 4, PutInt(h.epfd));
    var m3 := Splice(m2, 8, PutInt(h.maxevents));
    r := Splice(m3, 12, PutInt(h.timeout));
    FieldWritten(m, 0, PutInt(h.nfds));
    FieldWritten(m1, 4, PutInt(h.epfd));
    FieldWritten(m2, 8, PutInt(h.maxevents));
    FieldWritten(m3, 12, PutInt(h.timeout));
    FieldBeside(m1, 4, PutInt(h.epfd), 0, 4);
    FieldBeside(m2, 8, PutInt(h.maxevents), 0, 4);
    FieldBeside(m3, 12, PutInt(h.timeout), 0, 4);
    FieldBeside(m2, 8, PutInt(h.maxevents), 4, 4);
    FieldBeside(m3, 12, PutInt(h.timeout), 4, 4);
    FieldBeside(m3, 12, PutInt(h.timeout), 8, 4);
    BehindBeside(m, 0, PutInt(h.nfds), 16);
    BehindBeside(m1, 4, PutInt(h.epfd), 16);
    BehindBeside(m2, 8, PutInt(h.maxevents), 16);
    BehindBeside(m3, 12, PutInt(h.timeout), 16);
  }

  /** One more event behind k events. */
  lemma StoreEvent(m: seq<byte>, h: Header, events: seq<Event>, k: nat)
    requires HoldsHeader(m, h) && HoldsEvents(m, events, k) && k < |events| && 16 + 12 * k + 12 <= MSG_LIMIT
    ensures var r := Splice(m, 16 + 12 * k, EventBytes(events[k]));
            && HoldsHeader(r, h) && HoldsEvents(r, events, k + 1)
            && Behind(r, 16 + 12 * (k + 1)) == Behind(m, 16 + 12 * (k + 1))
  {
    var at, b := 16 + 12 * k, EventBytes(events[k]);
    var r := Splice(m, at, b);
    FieldBeside(m, at, b, 0, 4);
    FieldBeside(m, at, b, 4, 4);
    FieldBeside(m, at, b, 8, 4);
    FieldBeside(m, at, b, 12, 4);
    FieldWritten(m, at, b);
    BehindBeside(m, at, b, at + 12);
    forall i | 0 <= i < k + 1
      ensures EventAt(r, i) == EventBytes(events[i])
    {
      if i < k {
        FieldBeside(m, at, b, 16 + 12 * i, 12);
      }
    }
  }

  /** The image of an event at an offset: four bytes of events, eight bytes of data. */
  ghost predicate WireEvent(m: seq<byte>, at: nat, e: Event) {
    at + 12 <= |m| && Field(m, at, 4) == Put(4, e.events) && Field(m, at + 4, 8) == Put(8, e.data)
  }

  lemma EventOnWire(m: seq<byte>, events: seq<Event>, k: nat, i: nat)
    requires HoldsEvents(m, events, k) && i < k
    ensures WireEvent(m, 16 + 12 * i, events[i])
  {
    var e, at := events[i], 16 + 12 * i;
    assert EventAt(m, i) == EventBytes(e);
    FieldPart(m, at, 12, 0, 4);
    FieldPart(m, at, 12, 4, 8);
    assert EventBytes(e)[0..4] == Put(4, e.events) && EventBytes(e)[4..12] == Put(8, e.data);
  }

  /** `serialize_epoll_wait_dt`. */
  method SerializeEpollWait(msg: array<byte>, h: Header, events: seq<Event>, sz: nat)
    requires msg.Length >= MSG_LIMIT && (sz == 12 || sz == 16) && h.nfds <= |events|
    modifies msg
    ensures HoldsHeader(msg[..], h) && HoldsEvents(msg[..], events, Carried(h.nfds, sz))
    ensures var n := 16 + 12 * Carried(h.nfds, sz); Behind(msg[..], n) == old(Behind(msg[..], n))
    ensures forall i :: 0 <= i < h.nfds && 16 + 12 * i + sz <= 1024 ==> WireEvent(msg[..], 16 + 12 * i, events[i])
  {
    hide Splice, Behind, Field, WireEvent;
    ghost var was := msg[..];
    ghost var r := StoreHeader(msg[..], h);
    Store(msg, 0, PutInt(h.nfds));
    Store(msg, 4, PutInt(h.epfd));
    Store(msg, 8, PutInt(h.maxevents));
    Store(msg, 12, PutInt(h.timeout));
    var offset, i := 16, 0;
    while i < h.nfds
      invariant 0 <= i <= Carried(h.nfds, sz) && offset == 16 + 12 * i
      invariant HoldsHeader(msg[..], h) && HoldsEvents(msg[..], events, i)
      invariant Behind(msg[..], offset) == Behind(was, offset)
    {
      if offset + sz > MSG_LIMIT {
        break;
      }
      StoreEvent(msg[..], h, events, i);
      BehindSame(msg[..], was, offset, offset + 12);
      Store(msg, offset, EventBytes(events[i]));
      offset, i := offset + 12, i + 1;
    }
    forall j | 0 <= j < h.nfds && 16 + 12 * j + sz <= 1024
      ensures WireEvent(msg[..], 16 + 12 * j, events[j])
    {
      EventOnWire(msg[..], events, Carried(h.nfds, sz), j);
    }
  }

  /** `deserialize_epoll_wait_dt`; the events go to the caller's array, if there is one. */
  method DeserializeEpollWait(msg: array<byte>, events: array?<Event>, sz: nat) returns (h: Header)
    requires msg.Length >= MSG_LIMIT && (sz == 12 || sz == 16)
    requires events != null ==> Carried(GetInt(Field(msg[..], 0, 4)), sz) <= events.Length
    modifies events
    ensures h == Header(GetInt(Field(msg[..], 0, 4)), GetInt(Field(msg[..], 4, 4)),
                        GetInt(Field(msg[..], 8, 4)), GetInt(Field(msg[..], 12, 4)))
    ensures events != null ==> forall i :: 0 <= i < events.Length ==>
              events[i] == if i < Carried(h.nfds, sz) then EventOf(EventAt(msg[..], i)) else old(events[i])
  {
    ghost var m := msg[..];
    h := Header(GetInt(msg[0..4]), GetInt(msg[4..8]), GetInt(msg[8..12]), GetInt(msg[12..16]));
    assert m[0..4] == msg[0..4] && m[4..8] == msg[4..8] && m[8..12] == msg[8..12] && m[12..16] == msg[12..16];
    var offset, i := 16, 0;
    if events != null {
      while i < h.nfds
        invariant 0 <= i <= Carried(h.nfds, sz) && offset == 16 + 12 * i && msg[..] == m
        invariant forall k :: 0 <= k < events.Length ==>
                    events[k] == if k < i then EventOf(EventAt(m, k)) else old(events[k])
      {
        if offset + sz > MSG_LIMIT {
          break;
        }
        assert msg[offset..offset + 12] == EventAt(m, i);
        events[i] := EventOf(msg[offset..offset + 12]);
        offset, i := offset + 12, i + 1;
      }
    }
  }

  /** What one side encodes the other side decodes: the header exactly, of the events exactly the
      first min(n, (1008 - sz) / 12 + 1). */
  lemma EpollWaitRoundTrip(m: seq<byte>, h: Header, events: seq<Event>, k: nat)
    requires HoldsHeader(m, h) && IsHeader(h) && HoldsEvents(m, events, k) && forall e :: e in events ==> IsEvent(e)
    ensures h == Header(GetInt(Field(m, 0, 4)), GetInt(Field(m, 4, 4)), GetInt(Field(m, 8, 4)), GetInt(Field(m, 12, 4)))
    ensures forall i :: 0 <= i < k ==> EventOf(EventAt(m, i)) == events[i]
  {
    GetPutInt(h.nfds);
    GetPutInt(h.epfd);
    GetPutInt(h.maxevents);
    GetPutInt(h.timeout);
    forall i | 0 <= i < k
      ensures EventOf(EventAt(m, i)) == events[i]
    {
      assert events[i] in events;
      EventRoundTrip(events[i]);
    }
  }

  /** The way of an answer: encoded on the SmartNIC, decoded into the array of the host's caller. */
  method CarryEpollWait(msg: array<byte>, h: Header, events: seq<Event>, out: array<Event>, sz: nat) returns (h': Header)
    requires msg.Length >= MSG_LIMIT && (sz == 12 || sz == 16) && h.nfds <= |events|
    requires IsHeader(h) && forall e :: e in events ==> IsEvent(e)
    requires Carried(h.nfds, sz) <= out.Length
    modifies msg, out
    ensures h' == h
    ensures forall i :: 0 <= i < out.Length ==>
              out[i] == if i < h.nfds && i < (1008 - sz) / 12 + 1 then events[i] else old(out[i])
  {
    SerializeEpollWait(msg, h, events, sz);
    EpollWaitRoundTrip(msg[..], h, events, Carried(h.nfds, sz));
    h' := DeserializeEpollWait(msg, out, sz);
  }
}
