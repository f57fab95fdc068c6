/** Which calls the host sends over RDMA: the hooks keep a table of descriptors that live on the
    SmartNIC and look the descriptor of each call up in it. */
module FdRouting {
  import opened Options
  import opened TableSpec
  import opened ChainTable
  import Murmur
  import Bytes

  /** A hooked call that reads or changes the descriptor table. `ret` is what the SmartNIC returned,
      `tid` the calling thread; the other hooked calls only look their descriptor up. */
  datatype Event =
    | Socket(ret: int, tid: int)
    | EpollCreate(ret: int, tid: int)
    | Accept(listener: int, ret: int, tid: int)
    | Connect(fd: int)
    | Close(fd: int)
    | Use(fd: int)

  ghost predicate Plausible(e: Event) {
    (e.Socket? || e.EpollCreate? || e.Accept?) ==> e.tid > 0
  }

  /** `fd_searchByKey`: looks at the chain head, and answers 0 when the key is not there. */
  function Lookup(live: seq<Binding<int>>, bucket: int -> nat, fd: int): int {
    match HeadFind(InBucket(live, bucket, bucket(fd)), fd)
    case None => 0
    case Some(tid) => tid
  }

  predicate Routed(live: seq<Binding<int>>, bucket: int -> nat, fd: int) {
    Lookup(live, bucket, fd) != 0
  }

  /** Does the call leave the host? `socket` and `epoll_create1` always do. */
  predicate Leaves(live: seq<Binding<int>>, bucket: int -> nat, e: Event) {
    match e
    case Socket(_, _) => true
    case EpollCreate(_, _) => true
    case Accept(listener, _, _) => Routed(live, bucket, listener)
    case Connect(fd) => Routed(live, bucket, fd)
    case Close(fd) => Routed(live, bucket, fd)
    case Use(fd) => Routed(live, bucket, fd)
  }

  /** The descriptor table after a hooked call. */
  function Next(live: seq<Binding<int>>, bucket: int -> nat, e: Event): seq<Binding<int>> {
    if !Leaves(live, bucket, e) then live else
    match e
    case Socket(ret, tid) => if ret > 2 then live + [Binding(ret, tid)] else live
    case EpollCreate(ret, tid) => if ret > 0 then live + [Binding(ret, tid)] else live
    case Accept(_, ret, tid) => if ret > 0 then live + [Binding(ret, tid)] else live
    case Connect(fd) => live + [Binding(fd, Lookup(live, bucket, fd))]
    case Close(fd) => Remove(live, fd)
    case Use(_) => live
  }

  function After(bucket: int -> nat, run: seq<Event>): seq<Binding<int>> {
    if run == [] then [] else Next(After(bucket, run[..|run| - 1]), bucket, run[|run| - 1])
  }

  /** Which calls of a run left the host. */
  function Routes(bucket: int -> nat, run: seq<Event>): (r: seq<bool>)
    ensures |r| == |run|
  {
    if run == [] then [] else
    var before := run[..|run| - 1];
    Routes(bucket, before) + [Leaves(After(bucket, before), bucket, run[|run| - 1])]
  }

  // ---------------------------------------------------------------- the hooks on the heap

  class Hooks {
    const fdTable: HashTable<int>

    constructor (bucket: int -> nat)
      requires forall key :: bucket(key) < HT_SZ
      ensures fdTable.Valid() && fdTable.live == [] && !fdTable.lock.held && fresh(fdTable) && fdTable.bucket == bucket
    {
      fdTable := new HashTable<int>(bucket);
    }

    method Search(fd: int) returns (tid: int)
      requires fdTable.Valid() && !fdTable.lock.held
      ensures tid == Lookup(fdTable.live, fdTable.bucket, fd)
    {
      var r := fdTable.SearchHead(fd);
      tid := if r.None? then 0 else r.value;
    }

    /** `req_sock`, `req_epoll_create1` and the end of `req_accept`: remember a new descriptor. */
    method ReqSocket(ret: int, tid: int)
      requires fdTable.Valid() && !fdTable.lock.held
      modifies fdTable, fdTable.table, fdTable.nodes, fdTable.lock
      ensures fdTable.Valid() && !fdTable.lock.held
      ensures fdTable.live == Next(old(fdTable.live), fdTable.bucket, Socket(ret, tid))
    {
      if ret <= 2 {
        return;
      }
      fdTable.InsertByValue(ret, tid);
    }

    method ReqEpollCreate(ret: int, tid: int)
      requires fdTable.Valid() && !fdTable.lock.held
      modifies fdTable, fdTable.table, fdTable.nodes, fdTable.lock
      ensures fdTable.Valid() && !fdTable.lock.held
      ensures fdTable.live == Next(old(fdTable.live), fdTable.bucket, EpollCreate(ret, tid))
    {
      if ret > 0 {
        fdTable.InsertByValue(ret, tid);
      }
    }

    method ReqAccept(listener: int, ret: int, tid: int) returns (routed: bool)
      requires fdTable.Valid() && !fdTable.lock.held
      modifies fdTable, fdTable.table, fdTable.nodes, fdTable.lock
      ensures fdTable.Valid() && !fdTable.lock.held
      ensures routed == Leaves(old(fdTable.live), fdTable.bucket, Accept(listener, ret, tid))
      ensures fdTable.live == Next(old(fdTable.live), fdTable.bucket, Accept(listener, ret, tid))
    {
      var found := Search(listener);
      routed := found != 0;
      if routed && ret > 0 {
        fdTable.InsertByValue(ret, tid);
      }
    }

    method ReqConnect(fd: int) returns (routed: bool)
      requires fdTable.Valid() && !fdTable.lock.held
      modifies fdTable, fdTable.table, fdTable.nodes, fdTable.lock
      ensures fdTable.Valid() && !fdTable.lock.held
      ensures routed == Leaves(old(fdTable.live), fdTable.bucket, Connect(fd))
      ensures fdTable.live == Next(old(fdTable.live), fdTable.bucket, Connect(fd))
    {
      var tid := Search(fd);
      routed := tid != 0;
      if routed {
        fdTable.InsertByValue(fd, tid);
      }
    }

    method ReqClose(fd: int) returns (routed: bool)
      requires fdTable.Valid() && !fdTable.lock.held
      modifies fdTable, fdTable.table, fdTable.nodes, fdTable.lock
      ensures fdTable.Valid() && !fdTable.lock.held
      ensures routed == Leaves(old(fdTable.live), fdTable.bucket, Close(fd))
      ensures fdTable.live == Next(old(fdTable.live), fdTable.bucket, Close(fd))
    {
      var tid := Search(fd);
      routed := tid != 0;
      if routed {
        fdTable.DeleteByKey(fd);
      }
    }
  }

  // ---------------------------------------------------------------- counting nodes

  /** The nodes that the table holds for a descriptor. */
  function Count(live: seq<Binding<int>>, fd: int): nat {
    if live == [] then 0 else (if live[0].key == fd then 1 else 0) + Count(live[1..], fd)
  }

  /** What a call does to the nodes of a descriptor, seen from outside the table: a creation or a
      connect that left the host adds one, a close that left the host takes one. */
  function Effect(e: Event, left: bool, fd: int): int {
    if !left then 0 else
    match e
    case Socket(ret, _) => if ret == fd && ret > 2 then 1 else 0
    case EpollCreate(ret, _) => if ret == fd && ret > 0 then 1 else 0
    case Accept(_, ret, _) => if ret == fd && ret > 0 then 1 else 0
    case Connect(f) => if f == fd then 1 else 0
    case Close(f) => if f == fd then -1 else 0
    case Use(_) => 0
  }

  /** Creations plus connects minus closes of a descriptor, over the calls of a run that left. */
  function Balance(run: seq<Event>, left: seq<bool>, fd: int): int
    requires |run| == |left|
  {
    if run == [] then 0 else
    var n := |run| - 1;
    Balance(run[..n], left[..n], fd) + Effect(run[n], left[n], fd)
  }

  lemma {:induction false} CountAppend(live: seq<Binding<int>>, b: Binding<int>, fd: int)
    ensures Count(live + [b], fd) == Count(live, fd) + if b.key == fd then 1 else 0
  {
    if live == [] {
      assert live + [b] == [b];
    } else {
      CountAppend(live[1..], b, fd);
      assert (live + [b])[1..] == live[1..] + [b];
    }
  }

  lemma {:induction false} CountRemove(live: seq<Binding<int>>, key: int, fd: int)
    ensures Count(Remove(live, key), fd) == Count(live, fd) - if key == fd && HasKey(live, fd) then 1 else 0
  {
    if live != [] {
      CountRemove(live[1..], key, fd);
      assert forall b :: b in live <==> b == live[0] || b in live[1..];
      if live[0].key != key {
        assert Remove(live, key)[1..] == Remove(live[1..], key);
      }
    }
  }

  lemma {:induction false} CountIff(live: seq<Binding<int>>, fd: int)
    ensures Count(live, fd) > 0 <==> HasKey(live, fd)
  {
    if live != [] {
      CountIff(live[1..], fd);
      assert forall b :: b in live <==> b == live[0] || b in live[1..];
    }
  }

  /** A call that is routed finds its descriptor in the table. */
  lemma RoutedHasKey(live: seq<Binding<int>>, bucket: int -> nat, fd: int)
    requires Routed(live, bucket, fd)
    ensures HasKey(live, fd)
  {
    HeadFindIsSound(live, bucket, fd);
    FindIff(live, fd);
  }

  lemma NextCount(live: seq<Binding<int>>, bucket: int -> nat, e: Event, fd: int)
    ensures Count(Next(live, bucket, e), fd) == Count(live, fd) + Effect(e, Leaves(live, bucket, e), fd)
  {
    if Leaves(live, bucket, e) {
      match e
      case Socket(ret, tid) => CountAppend(live, Binding(ret, tid), fd);
      case EpollCreate(ret, tid) => CountAppend(live, Binding(ret, tid), fd);
      case Accept(_, ret, tid) => CountAppend(live, Binding(ret, tid), fd);
      case Connect(f) => CountAppend(live, Binding(f, Lookup(live, bucket, f)), fd);
      case Close(f) =>
        CountRemove(live, f, fd);
        RoutedHasKey(live, bucket, f);
      case Use(_) =>
    }
  }

  /** In every run, with any collisions, the table holds as many nodes for a descriptor as its
      creations plus its routed connects minus its routed closes. */
  lemma {:induction false} NodesAreCounted(bucket: int -> nat, run: seq<Event>, fd: int)
    ensures Count(After(bucket, run), fd) == Balance(run, Routes(bucket, run), fd)
  {
    if run != [] {
      var n := |run| - 1;
      NodesAreCounted(bucket, run[..n], fd);
      NextCount(After(bucket, run[..n]), bucket, run[n], fd);
      assert Routes(bucket, run)[..n] == Routes(bucket, run[..n]);
    }
  }

  // ---------------------------------------------------------------- when routing is counting

  ghost predicate TidsPositive(live: seq<Binding<int>>) {
    forall b :: b in live ==> b.value > 0
  }

  /** Removing a binding adds none. */
  lemma {:induction false} RemoveMembers(live: seq<Binding<int>>, key: int)
    ensures forall b :: b in Remove(live, key) ==> b in live
  {
    if live != [] && live[0].key != key {
      RemoveMembers(live[1..], key);
    }
  }

  lemma LookupPositive(live: seq<Binding<int>>, bucket: int -> nat, fd: int)
    requires TidsPositive(live)
    ensures Routed(live, bucket, fd) <==> HeadFind(InBucket(live, bucket, bucket(fd)), fd).Some?
    ensures Routed(live, bucket, fd) ==> Lookup(live, bucket, fd) > 0
  {
    HeadFindIsSound(live, bucket, fd);
    FindIff(live, fd);
  }

  lemma {:induction false} TidsStayPositive(bucket: int -> nat, run: seq<Event>)
    requires forall e :: e in run ==> Plausible(e)
    ensures TidsPositive(After(bucket, run))
  {
    if run != [] {
      var n := |run| - 1;
      TidsStayPositive(bucket, run[..n]);
      var live := After(bucket, run[..n]);
      var e := run[n];
      assert Plausible(e);
      if e.Connect? {
        LookupPositive(live, bucket, e.fd);
      } else if e.Close? {
        RemoveMembers(live, e.fd);
      }
    }
  }

  /** A descriptor with nodes is routed exactly when it heads its chain. */
  lemma RoutedIffHead(bucket: int -> nat, run: seq<Event>, fd: int)
    requires forall e :: e in run ==> Plausible(e)
    ensures var chain := InBucket(After(bucket, run), bucket, bucket(fd));
            Routed(After(bucket, run), bucket, fd) <==> chain != [] && chain[0].key == fd
  {
    TidsStayPositive(bucket, run);
    LookupPositive(After(bucket, run), bucket, fd);
  }

  /** The descriptor that an event may put into the table. */
  function Fds(e: Event): set<int> {
    match e
    case Socket(ret, _) => {ret}
    case EpollCreate(ret, _) => {ret}
    case Accept(_, ret, _) => {ret}
    case _ => {}
  }

  ghost predicate Creates(run: seq<Event>, fd: int) {
    exists e :: e in run && fd in Fds(e)
  }

  /** The descriptors that the SmartNIC hands out in a run never share a bucket. */
  ghost predicate NoCollisions(bucket: int -> nat, run: seq<Event>) {
    forall a, b :: Creates(run, a) && Creates(run, b) && bucket(a) == bucket(b) ==> a == b
  }

  lemma {:induction false} KeysWereCreated(bucket: int -> nat, run: seq<Event>)
    ensures forall b :: b in After(bucket, run) ==> Creates(run, b.key)
  {
    if run != [] {
      var n := |run| - 1;
      KeysWereCreated(bucket, run[..n]);
      var live := After(bucket, run[..n]);
      var e := run[n];
      assert forall d :: d in run <==> d in run[..n] || d == e;
      assert forall fd :: Creates(run[..n], fd) ==> Creates(run, fd);
      assert forall fd :: fd in Fds(e) ==> Creates(run, fd);
      if e.Connect? && Leaves(live, bucket, e) {
        RoutedHasKey(live, bucket, e.fd);
      } else if e.Close? {
        RemoveMembers(live, e.fd);
      }
    }
  }

  /** Without collisions, a call leaves the host exactly while the balance of its descriptor is
      positive: the table of chains with head search is a table of counters. */
  lemma RoutedWhileCounted(bucket: int -> nat, run: seq<Event>, fd: int)
    requires (forall e :: e in run ==> Plausible(e)) && NoCollisions(bucket, run)
    ensures Routed(After(bucket, run), bucket, fd) <==> Balance(run, Routes(bucket, run), fd) > 0
    ensures forall e :: e == Use(fd) || e == Connect(fd) || e == Close(fd) || (e.Accept? && e.listener == fd) ==>
              (Leaves(After(bucket, run), bucket, e) <==> Balance(run, Routes(bucket, run), fd) > 0)
  {
    var live := After(bucket, run);
    KeysWereCreated(bucket, run);
    HeadFindsDistinct(live, bucket, fd);
    TidsStayPositive(bucket, run);
    LookupPositive(live, bucket, fd);
    FindIff(live, fd);
    CountIff(live, fd);
    NodesAreCounted(bucket, run, fd);
  }

  /** The same without any table: counters that decide and are changed by their own decisions. */
  function CountedRoutes(run: seq<Event>): (r: seq<bool>)
    ensures |r| == |run|
  {
    if run == [] then [] else
    var n := |run| - 1;
    var left := CountedRoutes(run[..n]);
    left + [match run[n]
            case Socket(_, _) => true
            case EpollCreate(_, _) => true
            case Accept(listener, _, _) => Balance(run[..n], left, listener) > 0
            case Connect(fd) => Balance(run[..n], left, fd) > 0
            case Close(fd) => Balance(run[..n], left, fd) > 0
            case Use(fd) => Balance(run[..n], left, fd) > 0]
  }

  /** Without collisions every decision of a run is the one that the counters make. */
  lemma {:induction false} RoutingIsCounting(bucket: int -> nat, run: seq<Event>)
    requires (forall e :: e in run ==> Plausible(e)) && NoCollisions(bucket, run)
    ensures Routes(bucket, run) == CountedRoutes(run)
  {
    if run != [] {
      var n := |run| - 1;
      assert forall fd :: Creates(run[..n], fd) ==> Creates(run, fd);
      RoutingIsCounting(bucket, run[..n]);
      forall fd
        ensures Routed(After(bucket, run[..n]), bucket, fd) <==> Balance(run[..n], CountedRoutes(run[..n]), fd) > 0
      {
        RoutedWhileCounted(bucket, run[..n], fd);
      }
    }
  }

  /** A connected descriptor survives its close: connect has added a second node, so calls on the
      closed descriptor still leave the host. One more close is needed. */
  lemma ClosedSocketStaysRouted(bucket: int -> nat, fd: int, tid: int)
    requires fd > 2 && tid > 0
    ensures var run := [Socket(fd, tid), Connect(fd), Close(fd)];
            && Routed(After(bucket, run), bucket, fd)
            && !Routed(After(bucket, run + [Close(fd)]), bucket, fd)
  {
    var b := Binding(fd, tid);
    var r1 := [Socket(fd, tid)];
    var r2 := [Socket(fd, tid), Connect(fd)];
    var r3 := [Socket(fd, tid), Connect(fd), Close(fd)];
    var r4 := r3 + [Close(fd)];
    assert r1[..0] == [] && r2[..1] == r1 && r3[..2] == r2 && r4[..3] == r3;
    assert After(bucket, r1) == [b];
    assert After(bucket, r2) == [b, b];
    assert After(bucket, r3) == [b];
    assert After(bucket, r4) == [];
  }

  /** Which results of the SmartNIC are descriptors: of `socket` those above 2, of `epoll_create1` and of
      a routed `accept` those above 0. Calls on descriptors of the host leave no trace. */
  lemma NewDescriptorIsRouted(bucket: int -> nat, listener: int, fd: int, tid: int)
    requires tid > 0 && listener > 2 && bucket(fd) != bucket(listener)
    ensures Routed(After(bucket, [Socket(fd, tid)]), bucket, fd) <==> fd > 2
    ensures Routed(After(bucket, [EpollCreate(fd, tid)]), bucket, fd) <==> fd > 0
    ensures Routed(After(bucket, [Socket(listener, tid), Accept(listener, fd, tid)]), bucket, fd) <==> fd > 0
    ensures After(bucket, [Accept(listener, fd, tid)]) == [] && After(bucket, [Connect(fd)]) == [] && After(bucket, [Close(fd)]) == []
  {
    assert [Accept(listener, fd, tid)][..0] == [] && [Connect(fd)][..0] == [] && [Close(fd)][..0] == [];
    var r0, r1, r2 := [Socket(fd, tid)], [EpollCreate(fd, tid)], [Socket(listener, tid)];
    var r3 := [Socket(listener, tid), Accept(listener, fd, tid)];
    assert r0[..0] == [] && r1[..0] == [] && r2[..0] == [] && r3[..1] == r2;
    var x, y := Binding(listener, tid), Binding(fd, tid);
    assert After(bucket, r2) == [x];
    assert After(bucket, r0) == if fd > 2 then [y] else [];
    assert After(bucket, r1) == if fd > 0 then [y] else [];
    assert After(bucket, r3) == if fd > 0 then [x, y] else [x];
    assert [x, y][1..] == [y];
  }

  /** Two descriptors in one bucket: the younger one has its node, but its calls stay on the host,
      and closing it there leaves the node behind. */
  lemma CollisionMisroutes(bucket: int -> nat, a: int, b: int, tid: int)
    requires a > 2 && b > 2 && a != b && bucket(a) == bucket(b) && tid > 0
    ensures var run := [Socket(a, tid), Socket(b, tid)];
            && Count(After(bucket, run), b) == 1 && !Routed(After(bucket, run), bucket, b)
            && Count(After(bucket, run + [Close(b)]), b) == 1
  {
    var x, y := Binding(a, tid), Binding(b, tid);
    var r1, r2 := [Socket(a, tid)], [Socket(a, tid), Socket(b, tid)];
    var r3 := r2 + [Close(b)];
    assert r1[..0] == [] && r2[..1] == r1 && r3[..2] == r2;
    assert After(bucket, r1) == [x];
    assert After(bucket, r2) == [x, y];
    assert [x, y][1..] == [y] && Count([y], b) == 1;
    assert InBucket([x, y], bucket, bucket(b))[0] == x;
    assert After(bucket, r3) == [x, y];
  }

  /** Among more descriptors than buckets, two always collide. */
  lemma {:induction false} CollisionsAreInevitable(bucket: int -> nat, fds: seq<int>, size: nat)
    requires forall i :: 0 <= i < |fds| ==> bucket(fds[i]) < size
    requires |fds| > size
    ensures exists i, j :: 0 <= i < j < |fds| && bucket(fds[i]) == bucket(fds[j])
    decreases size
  {
    var n := |fds| - 1;
    var b := bucket(fds[n]);
    if i :| 0 <= i < n && bucket(fds[i]) == b {
      assert bucket(fds[i]) == bucket(fds[n]);
    } else {
      // Move the last bucket of the range to the place of b, which is now free.
      var f := (x: int) => if bucket(x) == size - 1 then b else bucket(x);
      CollisionsAreInevitable(f, fds[..n], size - 1);
      var i, j :| 0 <= i < j < n && f(fds[..n][i]) == f(fds[..n][j]);
      assert bucket(fds[i]) == bucket(fds[j]);
    }
  }

  // ---------------------------------------------------------------- the real buckets

  /** The four bytes of an `int` key in memory, and a table index. */
  function KeyBytes(key: int): (b: seq<bv8>)
    ensures |b| == 4
  {
    var p := Bytes.PutInt(key);
    [p[0] as bv8, p[1] as bv8, p[2] as bv8, p[3] as bv8]
  }

  function Index(b: bv32): nat {
    var i := b as int;
    if 0 <= i < HT_SZ then i else 0
  }

  /** `hashFunction` of an `int` key: the one block of four bytes, hashed. */
  function BucketOf(key: int): nat {
    var b := KeyBytes(key);
    Index(Murmur.Bucket(Murmur.Word(b[0], b[1], b[2], b[3])))
  }

  lemma IndexOfLow(b: bv32)
    ensures Index(Murmur.Low(b)) == (b % 1024) as int && Index(Murmur.Low(b)) < HT_SZ
  {
    assert Murmur.Low(b) < 1024;
  }

  lemma BucketIsLow(key: bv32)
    ensures Murmur.Bucket(key) == Murmur.Low(Murmur.HashKey(key))
  {
    hide Murmur.Low, Murmur.HashKey;
  }

  /** The bucket of a key is MurmurHash3 of its four bytes, modulo 1024 as C takes it on unsigned
      numbers; in particular the guard in `Index` never strikes. */
  lemma BucketIsHash(key: int)
    ensures BucketOf(key) < 1024
    ensures var p := Bytes.PutInt(key);
            BucketOf(key) == (Murmur.Hash([p[0] as bv8, p[1] as bv8, p[2] as bv8, p[3] as bv8], 4426) % 1024) as int
  {
    hide Murmur.Bucket, Murmur.Low, Murmur.HashKey, Murmur.Hash, Murmur.Word, Index, KeyBytes;
    var b := KeyBytes(key);
    var w := Murmur.Word(b[0], b[1], b[2], b[3]);
    KeyBytesAre(key);
    Murmur.HashKeyIsHash(b[0], b[1], b[2], b[3]);
    BucketIsLow(w);
    IndexOfLow(Murmur.HashKey(w));
    assert b == [b[0], b[1], b[2], b[3]];
  }

  lemma KeyBytesAre(key: int)
    ensures var p := Bytes.PutInt(key); KeyBytes(key) == [p[0] as bv8, p[1] as bv8, p[2] as bv8, p[3] as bv8]
  {
  }

  lemma SmallKeyBytes(n: int)
    requires n == 19 || n == 45
    ensures Bytes.PutInt(n) == [n, 0, 0, 0]
  {
    assert Bytes.Put(4, n) == [n] + Bytes.Put(3, 0);
    assert Bytes.Put(3, 0) == [0] + Bytes.Put(2, 0);
    assert Bytes.Put(2, 0) == [0] + Bytes.Put(1, 0);
    assert Bytes.Put(1, 0) == [0] + Bytes.Put(0, 0);
  }

  lemma SmallBytes()
    ensures 19 as bv8 == 19 && 45 as bv8 == 45 && 0 as bv8 == 0
  {
  }

  lemma SmallWords()
    ensures Murmur.Word(19, 0, 0, 0) == 19 && Murmur.Word(45, 0, 0, 0) == 45
  {
  }

  lemma BucketOfSmall(n: int, m: bv8, w: bv32)
    requires (n, m, w) == (19, 19, 19) || (n, m, w) == (45, 45, 45)
    ensures BucketOf(n) == Index(Murmur.Bucket(w))
  {
    hide Murmur.Bucket, Murmur.Word, Index;
    SmallKeyBytes(n);
    SmallBytes();
    SmallWords();
  }

  lemma Index783() ensures Index(783) == 783 { }

  /** The descriptor table as the host creates it. */
  method NewHooks() returns (h: Hooks)
    ensures fresh(h) && h.fdTable.Valid() && h.fdTable.live == [] && !h.fdTable.lock.held
    ensures h.fdTable.bucket == BucketOf
  {
    hide BucketOf;
    forall key
      ensures BucketOf(key) < HT_SZ
    {
      BucketIsHash(key);
    }
    h := new Hooks(BucketOf);
  }

  /** With the real hash, a program that gets descriptors 19 and 45 loses the second: its calls stay on
      the host. */
  lemma RealCollisionMisroutes(tid: int)
    requires tid > 0
    ensures BucketOf(19) == BucketOf(45) == 783
    ensures var run := [Socket(19, tid), Socket(45, tid)];
            && Count(After(BucketOf, run), 45) == 1 && !Routed(After(BucketOf, run), BucketOf, 45)
            && Count(After(BucketOf, run + [Close(45)]), 45) == 1
  {
    hide Murmur.Bucket, Index, BucketOf;
    Murmur.Collision();
    BucketOfSmall(19, 19, 19);
    BucketOfSmall(45, 45, 45);
    Index783();
    CollisionMisroutes(BucketOf, 19, 45, tid);
  }
}
