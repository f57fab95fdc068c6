/** What the hash tables mean: a list of bindings in the order of insertion, cut into buckets. */
module TableSpec {
  import opened Options

  datatype Binding<+V> = Binding(key: int, value: V)

  /** The oldest binding of a key, and the list without it. */
  function Find<V>(s: seq<Binding<V>>, key: int): Option<V> {
    if s == [] then None else if s[0].key == key then Some(s[0].value) else Find(s[1..], key)
  }

  function Remove<V>(s: seq<Binding<V>>, key: int): seq<Binding<V>> {
    if s == [] then [] else if s[0].key == key then s[1..] else [s[0]] + Remove(s[1..], key)
  }

  /** What the searches of the C files look at: the head of the chain only. */
  function HeadFind<V>(s: seq<Binding<V>>, key: int): Option<V> {
    if s != [] && s[0].key == key then Some(s[0].value) else None
  }

  ghost predicate HasKey<V>(s: seq<Binding<V>>, key: int) {
    exists b :: b in s && b.key == key
  }

  /** The bindings that hash to bucket i, in order. */
  function InBucket<V>(s: seq<Binding<V>>, bucket: int -> nat, i: nat): seq<Binding<V>> {
    if s == [] then []
    else if bucket(s[0].key) == i then [s[0]] + InBucket(s[1..], bucket, i)
    else InBucket(s[1..], bucket, i)
  }

  // ---------------------------------------------------------------- buckets and the whole

  lemma {:induction false} InBucketAppend<V>(s: seq<Binding<V>>, b: Binding<V>, bucket: int -> nat, i: nat)
    ensures InBucket(s + [b], bucket, i) == InBucket(s, bucket, i) + (if bucket(b.key) == i then [b] else [])
  {
    if s == [] {
      assert s + [b] == [b];
    } else {
      InBucketAppend(s[1..], b, bucket, i);
      assert (s + [b])[1..] == s[1..] + [b];
    }
  }

  /** Looking in the key's bucket is looking in the whole list. */
  lemma {:induction false} FindInBucket<V>(s: seq<Binding<V>>, bucket: int -> nat, key: int)
    ensures Find(InBucket(s, bucket, bucket(key)), key) == Find(s, key)
  {
    if s != [] {
      FindInBucket(s[1..], bucket, key);
      var rest := InBucket(s[1..], bucket, bucket(key));
      assert ([s[0]] + rest)[1..] == rest;
    }
  }

  lemma {:induction false} RemoveInBucket<V>(s: seq<Binding<V>>, bucket: int -> nat, key: int, i: nat)
    ensures InBucket(Remove(s, key), bucket, i) ==
            if i == bucket(key) then Remove(InBucket(s, bucket, i), key) else InBucket(s, bucket, i)
  {
    if s != [] {
      RemoveInBucket(s[1..], bucket, key, i);
      var rest := InBucket(s[1..], bucket, i);
      assert ([s[0]] + rest)[1..] == rest;
      if s[0].key != key {
        assert Remove(s, key)[1..] == Remove(s[1..], key);
      }
    }
  }

  lemma {:induction false} InBucketMembers<V>(s: seq<Binding<V>>, bucket: int -> nat, i: nat, b: Binding<V>)
    ensures b in InBucket(s, bucket, i) <==> b in s && bucket(b.key) == i
  {
    if s != [] {
      InBucketMembers(s[1..], bucket, i, b);
      assert b in s <==> b == s[0] || b in s[1..];
    }
  }

  // ---------------------------------------------------------------- finding and removing

  lemma {:induction false} FindIff<V>(s: seq<Binding<V>>, key: int)
    ensures Find(s, key).Some? <==> HasKey(s, key)
    ensures Find(s, key).Some? ==> Binding(key, Find(s, key).value) in s
  {
    if s != [] {
      FindIff(s[1..], key);
      assert forall b :: b in s <==> b == s[0] || b in s[1..];
    }
  }

  /** The position of the oldest binding. */
  lemma {:induction false} FindAt<V>(s: seq<Binding<V>>, key: int, j: nat)
    requires j <= |s| && forall i :: 0 <= i < j ==> s[i].key != key
    requires j < |s| ==> s[j].key == key
    ensures Find(s, key) == if j < |s| then Some(s[j].value) else None
    ensures Remove(s, key) == if j < |s| then s[..j] + s[j + 1..] else s
  {
    if s != [] && j > 0 {
      FindAt(s[1..], key, j - 1);
      if j < |s| {
        assert s[..j] == [s[0]] + s[1..][..j - 1];
        assert s[j + 1..] == s[1..][j..];
      }
    }
  }

  lemma {:induction false} FirstIndex<V>(s: seq<Binding<V>>, key: int) returns (j: nat)
    ensures j <= |s| && forall i :: 0 <= i < j ==> s[i].key != key
    ensures j < |s| ==> s[j].key == key
    ensures HasKey(s, key) <==> j < |s|
  {
    if s == [] || s[0].key == key {
      j := 0;
    } else {
      var k := FirstIndex(s[1..], key);
      j := k + 1;
      assert forall b :: b in s <==> b == s[0] || b in s[1..];
    }
  }

  /** Removing takes away exactly one binding of the key, the oldest, which a search finds, and keeps the
      order of the rest; without such a binding it changes nothing. */
  lemma RemoveTakesOne<V>(s: seq<Binding<V>>, key: int)
    ensures HasKey(s, key) ==> exists j :: 0 <= j < |s| && s[j].key == key && Find(s, key) == Some(s[j].value)
                                           && Remove(s, key) == s[..j] + s[j + 1..]
                                           && forall i :: 0 <= i < j ==> s[i].key != key
    ensures !HasKey(s, key) ==> Remove(s, key) == s
  {
    var j := FirstIndex(s, key);
    FindAt(s, key, j);
  }

  lemma {:induction false} RemoveKeepsOthers<V>(s: seq<Binding<V>>, key: int, other: int)
    requires other != key
    ensures Find(Remove(s, key), other) == Find(s, other)
  {
    if s != [] && s[0].key != key {
      RemoveKeepsOthers(s[1..], key, other);
      assert Remove(s, key)[1..] == Remove(s[1..], key);
    }
  }

  // ---------------------------------------------------------------- head search against chain search

  /** Keys with a live binding never share a bucket. */
  ghost predicate BucketsDistinct<V>(s: seq<Binding<V>>, bucket: int -> nat) {
    forall a, b :: a in s && b in s && bucket(a.key) == bucket(b.key) ==> a.key == b.key
  }

  /** Head search never finds anything that chain search does not, and finds a key exactly when it
      heads its chain. */
  lemma HeadFindIsSound<V>(s: seq<Binding<V>>, bucket: int -> nat, key: int)
    ensures var chain := InBucket(s, bucket, bucket(key));
            && (HeadFind(chain, key).Some? ==> HeadFind(chain, key) == Find(s, key))
            && (HeadFind(chain, key).Some? <==> chain != [] && chain[0].key == key)
  {
    FindInBucket(s, bucket, key);
  }

  /** The two searches agree on every key exactly when live keys occupy distinct buckets. */
  lemma SearchesAgreeIff<V>(s: seq<Binding<V>>, bucket: int -> nat)
    ensures (forall key :: HeadFind(InBucket(s, bucket, bucket(key)), key) == Find(s, key))
            <==> BucketsDistinct(s, bucket)
  {
    if BucketsDistinct(s, bucket) {
      forall key
        ensures HeadFind(InBucket(s, bucket, bucket(key)), key) == Find(s, key)
      {
        HeadFindsDistinct(s, bucket, key);
      }
    } else {
      var a, b :| a in s && b in s && bucket(a.key) == bucket(b.key) && a.key != b.key;
      var i := bucket(a.key);
      var chain := InBucket(s, bucket, i);
      InBucketMembers(s, bucket, i, a);
      InBucketMembers(s, bucket, i, b);
      var key := if chain[0].key == a.key then b.key else a.key;
      FindIff(s, key);
      assert HasKey(s, key);
      assert HeadFind(InBucket(s, bucket, bucket(key)), key) == None;
    }
  }

  lemma HeadFindsDistinct<V>(s: seq<Binding<V>>, bucket: int -> nat, key: int)
    requires BucketsDistinct(s, bucket)
    ensures HeadFind(InBucket(s, bucket, bucket(key)), key) == Find(s, key)
  {
    var chain := InBucket(s, bucket, bucket(key));
    FindInBucket(s, bucket, key);
    FindIff(chain, key);
    if HasKey(chain, key) {
      var b :| b in chain && b.key == key;
      InBucketMembers(s, bucket, bucket(key), b);
      InBucketMembers(s, bucket, bucket(key), chain[0]);
    }
  }
}
