/** The chained hash map with eight buckets, as a finite map. Buckets are the contents of vectors. */
module HashMap {
  import opened Machine
  import opened Vector

  const BUCKETS: nat := 8

  datatype Entry<K, V> = Entry(hash: nat, key: K, value: V)

  // ----- one bucket -----

  ghost predicate DistinctKeys<K, V>(b: seq<Entry<K, V>>) {
    forall i, j :: 0 <= i < j < |b| ==> b[i].key != b[j].key
  }

  /** The map a bucket stands for. */
  ghost function Assoc<K, V>(b: seq<Entry<K, V>>): map<K, V> {
    if b == [] then map[] else Assoc(b[..|b| - 1])[b[|b| - 1].key := b[|b| - 1].value]
  }

  ghost predicate HasKey<K, V>(b: seq<Entry<K, V>>, k: K) {
    exists i :: 0 <= i < |b| && b[i].key == k
  }

  lemma KeyAt<K, V>(b: seq<Entry<K, V>>, i: nat)
    requires i < |b|
    ensures HasKey(b, b[i].key)
  {
  }

  lemma KeyIndex<K, V>(b: seq<Entry<K, V>>, k: K) returns (i: nat)
    requires HasKey(b, k)
    ensures i < |b| && b[i].key == k
  {
    i :| i < |b| && b[i].key == k;
  }

  ghost predicate Holds<K, V>(m: map<K, V>, e: Entry<K, V>) {
    e.key in m && m[e.key] == e.value
  }

  /** m has exactly the entries of the bucket. */
  ghost predicate Maps<K, V>(b: seq<Entry<K, V>>, m: map<K, V>) {
    && |m| == |b|
    && (forall i :: 0 <= i < |b| ==> Holds(m, b[i]))
    && (forall k :: k in m ==> HasKey(b, k))
  }

  lemma {:induction false} AssocMaps<K, V>(b: seq<Entry<K, V>>)
    requires DistinctKeys(b)
    ensures Maps(b, Assoc(b))
    decreases |b|
  {
    if b != [] {
      var n := |b| - 1;
      AssocMaps(b[..n]);
      AddEntry(b[..n], Assoc(b[..n]), b[n]);
      assert b[..n] + [b[n]] == b;
    }
  }

  lemma AddEntry<K, V>(b: seq<Entry<K, V>>, m: map<K, V>, e: Entry<K, V>)
    requires Maps(b, m) && forall i :: 0 <= i < |b| ==> b[i].key != e.key
    ensures Maps(b + [e], m[e.key := e.value])
  {
    hide HasKey;
    if HasKey(b, e.key) {
      var i := KeyIndex(b, e.key);
    }
    forall k | k in m[e.key := e.value]
      ensures HasKey(b + [e], k)
    {
      if k == e.key {
        KeyAt(b + [e], |b|);
      } else {
        var i := KeyIndex(b, k);
        KeyAt(b + [e], i);
      }
    }
  }

  lemma MapsOnce<K, V>(b: seq<Entry<K, V>>, m: map<K, V>, m': map<K, V>)
    requires Maps(b, m) && Maps(b, m')
    ensures m == m'
  {
    hide HasKey;
    forall k
      ensures k in m <==> k in m'
      ensures k in m ==> m'[k] == m[k]
    {
      if k in m || k in m' {
        var i := KeyIndex(b, k);
        assert Holds(m, b[i]) && Holds(m', b[i]);
      }
    }
  }

  lemma AssocUpdate<K, V>(b: seq<Entry<K, V>>, i: nat, v: V)
    requires DistinctKeys(b) && i < |b|
    ensures DistinctKeys(b[i := b[i].(value := v)])
    ensures Assoc(b[i := b[i].(value := v)]) == Assoc(b)[b[i].key := v]
  {
    hide Assoc, HasKey, Maps;
    var b' := b[i := b[i].(value := v)];
    AssocMaps(b);
    AssocMaps(b');
    UpdateMaps(b, i, v, Assoc(b));
    MapsOnce(b', Assoc(b'), Assoc(b)[b[i].key := v]);
  }

  lemma UpdateMaps<K, V>(b: seq<Entry<K, V>>, i: nat, v: V, m: map<K, V>)
    requires DistinctKeys(b) && i < |b| && Maps(b, m)
    ensures Maps(b[i := b[i].(value := v)], m[b[i].key := v])
  {
    hide HasKey;
    var b' := b[i := b[i].(value := v)];
    assert Holds(m, b[i]);
    forall k | k in m
      ensures HasKey(b', k)
    {
      var j := KeyIndex(b, k);
      KeyAt(b', j);
    }
  }

  lemma AssocPush<K, V>(b: seq<Entry<K, V>>, e: Entry<K, V>)
    requires DistinctKeys(b) && !HasKey(b, e.key)
    ensures DistinctKeys(b + [e])
    ensures Assoc(b + [e]) == Assoc(b)[e.key := e.value]
  {
    assert (b + [e])[..|b|] == b;
  }

  lemma AssocRemove<K, V>(b: seq<Entry<K, V>>, i: nat)
    requires DistinctKeys(b) && i < |b|
    ensures DistinctKeys(SwapRemoved(b, i))
    ensures Assoc(SwapRemoved(b, i)) == Assoc(b) - {b[i].key}
  {
    hide Assoc, HasKey, Maps;
    var b' := SwapRemoved(b, i);
    AssocMaps(b);
    AssocMaps(b');
    RemoveMaps(b, i, Assoc(b));
    MapsOnce(b', Assoc(b'), Assoc(b) - {b[i].key});
  }

  lemma RemoveMaps<K, V>(b: seq<Entry<K, V>>, i: nat, m: map<K, V>)
    requires DistinctKeys(b) && i < |b| && Maps(b, m)
    ensures Maps(SwapRemoved(b, i), m - {b[i].key})
  {
    hide HasKey;
    var b', m' := SwapRemoved(b, i), m - {b[i].key};
    assert Holds(m, b[i]);
    DropOne(m, b[i].key);
    forall k | k in m'
      ensures HasKey(b', k)
    {
      var j := KeyIndex(b, k);
      KeyAt(b', if j == |b| - 1 then i else j);
    }
    forall j | 0 <= j < |b'|
      ensures Holds(m', b'[j])
    {
      assert Holds(m, b[if j == i then |b| - 1 else j]);
    }
  }

  lemma DropOne<K, V>(m: map<K, V>, k: K)
    requires k in m
    ensures |m - {k}| == |m| - 1
  {
    assert (m - {k}).Keys == m.Keys - {k};
  }

  /** Index of the entry for the key from i on, or the length. */
  function IndexOf<K(==), V>(b: seq<Entry<K, V>>, hash: nat, key: K, i: nat): (r: nat)
    requires i <= |b|
    ensures i <= r <= |b|
    ensures r < |b| ==> b[r].key == key && b[r].hash == hash
    ensures forall j :: i <= j < r ==> b[j].hash != hash || b[j].key != key
    decreases |b| - i
  {
    if i == |b| || (b[i].hash == hash && b[i].key == key) then i else IndexOf(b, hash, key, i + 1)
  }

  // ----- the eight buckets -----

  /** Every entry has the hash of its key and belongs in bucket i. */
  ghost predicate Placed<K, V>(h: K -> nat, b: seq<Entry<K, V>>, i: nat) {
    DistinctKeys(b) && forall j :: 0 <= j < |b| ==> b[j].hash == h(b[j].key) && b[j].hash % BUCKETS == i
  }

  ghost predicate AllPlaced<K, V>(h: K -> nat, bs: seq<seq<Entry<K, V>>>) {
    forall i: nat :: i < |bs| ==> Placed(h, bs[i], i)
  }

  ghost predicate Good<K, V>(h: K -> nat, bs: seq<seq<Entry<K, V>>>) {
    |bs| == BUCKETS && AllPlaced(h, bs)
  }

  /** The map all buckets stand for. */
  ghost function Model<K, V>(bs: seq<seq<Entry<K, V>>>): map<K, V> {
    if bs == [] then map[] else Model(bs[..|bs| - 1]) + Assoc(bs[|bs| - 1])
  }

  lemma PlacedKey<K, V>(h: K -> nat, b: seq<Entry<K, V>>, i: nat, key: K)
    requires Placed(h, b, i)
    ensures key in Assoc(b) <==> HasKey(b, key)
    ensures key in Assoc(b) ==> h(key) % BUCKETS == i
  {
    hide Assoc;
    AssocMaps(b);
  }

  /** A key is in the model when it is in its own bucket. */
  lemma {:induction false} ModelAt<K, V>(h: K -> nat, bs: seq<seq<Entry<K, V>>>, key: K)
    requires AllPlaced(h, bs)
    ensures var i := h(key) % BUCKETS;
            && (key in Model(bs) <==> i < |bs| && key in Assoc(bs[i]))
            && (key in Model(bs) ==> Model(bs)[key] == Assoc(bs[i])[key])
    decreases |bs|
  {
    hide Assoc, Placed;
    if bs != [] {
      var n := |bs| - 1;
      assert AllPlaced(h, bs[..n]);
      ModelAt(h, bs[..n], key);
      PlacedKey(h, bs[n], n, key);
    }
  }

  /** One bucket changed in one key changes the model in that key. */
  lemma ModelSet<K(!new), V>(h: K -> nat, bs: seq<seq<Entry<K, V>>>, b: seq<Entry<K, V>>, key: K, v: V)
    requires Good(h, bs) && Placed(h, b, h(key) % BUCKETS)
    requires Assoc(b) == Assoc(bs[h(key) % BUCKETS])[key := v]
    ensures Model(bs[h(key) % BUCKETS := b]) == Model(bs)[key := v]
  {
    hide Placed;
    var bs' := bs[h(key) % BUCKETS := b];
    var m, m' := Model(bs)[key := v], Model(bs');
    forall k
      ensures k in m' <==> k in m
      ensures k in m ==> m'[k] == m[k]
    {
      ModelAt(h, bs, k);
      ModelAt(h, bs', k);
    }
    assert m.Keys == m'.Keys;
  }

  lemma ModelDrop<K(!new), V>(h: K -> nat, bs: seq<seq<Entry<K, V>>>, b: seq<Entry<K, V>>, key: K)
    requires Good(h, bs) && Placed(h, b, h(key) % BUCKETS)
    requires Assoc(b) == Assoc(bs[h(key) % BUCKETS]) - {key}
    ensures Model(bs[h(key) % BUCKETS := b]) == Model(bs) - {key}
  {
    hide Placed;
    var bs' := bs[h(key) % BUCKETS := b];
    var m, m' := Model(bs) - {key}, Model(bs');
    forall k
      ensures k in m' <==> k in m
      ensures k in m ==> m'[k] == m[k]
    {
      ModelAt(h, bs, k);
      ModelAt(h, bs', k);
    }
    assert m.Keys == m'.Keys;
  }

  /** The search in the key's bucket finds it exactly when the map has it. */
  lemma FoundIs<K, V>(h: K -> nat, bs: seq<seq<Entry<K, V>>>, key: K)
    requires Good(h, bs)
    ensures var b := bs[h(key) % BUCKETS];
            var i := IndexOf(b, h(key), key, 0);
            && (i < |b| <==> key in Model(bs))
            && (i < |b| ==> Model(bs)[key] == b[i].value)
  {
    hide Assoc, Model, IndexOf, AllPlaced, HasKey;
    var b := bs[h(key) % BUCKETS];
    assert Placed(h, b, h(key) % BUCKETS) by {
      PlacedAt(h, bs, h(key) % BUCKETS);
    }
    ModelAt(h, bs, key);
    PlacedKey(h, b, h(key) % BUCKETS, key);
    AssocMaps(b);
    var i := IndexOf(b, h(key), key, 0);
    if i < |b| {
      KeyAt(b, i);
      assert Holds(Assoc(b), b[i]);
    }
    KeyFound(h, b, h(key) % BUCKETS, key);
  }

  lemma KeyFound<K, V>(h: K -> nat, b: seq<Entry<K, V>>, n: nat, key: K)
    requires Placed(h, b, n)
    ensures HasKey(b, key) ==> IndexOf(b, h(key), key, 0) < |b|
  {
    hide IndexOf;
    var _ := IndexOf(b, h(key), key, 0);
  }

  lemma PlacedAt<K, V>(h: K -> nat, bs: seq<seq<Entry<K, V>>>, i: nat)
    requires AllPlaced(h, bs) && i < |bs|
    ensures Placed(h, bs[i], i)
  {
  }

  lemma ReplaceBucket<K, V>(h: K -> nat, bs: seq<seq<Entry<K, V>>>, i: nat, b: seq<Entry<K, V>>)
    requires Good(h, bs) && i < BUCKETS && Placed(h, b, i)
    ensures Good(h, bs[i := b])
  {
    hide Placed;
  }

  lemma UpdateKeeps<K(!new), V>(h: K -> nat, bs: seq<seq<Entry<K, V>>>, key: K, at: nat, v: V)
    requires Good(h, bs) && at < |bs[h(key) % BUCKETS]| && bs[h(key) % BUCKETS][at].key == key
    ensures var i := h(key) % BUCKETS;
            var bs' := bs[i := bs[i][at := bs[i][at].(value := v)]];
            Good(h, bs') && Model(bs') == Model(bs)[key := v]
  {
    hide Assoc, Model, AllPlaced;
    var i := h(key) % BUCKETS;
    var b' := bs[i][at := bs[i][at].(value := v)];
    PlacedAt(h, bs, i);
    AssocUpdate(bs[i], at, v);
    ReplaceBucket(h, bs, i, b');
    ModelSet(h, bs, b', key, v);
  }

  lemma PushKeeps<K(!new), V>(h: K -> nat, bs: seq<seq<Entry<K, V>>>, key: K, v: V)
    requires Good(h, bs) && key !in Model(bs)
    ensures var i := h(key) % BUCKETS;
            var bs' := bs[i := bs[i] + [Entry(h(key), key, v)]];
            Good(h, bs') && Model(bs') == Model(bs)[key := v]
  {
    hide Assoc, Model, AllPlaced, HasKey;
    var i := h(key) % BUCKETS;
    var e := Entry(h(key), key, v);
    PlacedAt(h, bs, i);
    ModelAt(h, bs, key);
    PlacedKey(h, bs[i], i, key);
    AssocPush(bs[i], e);
    ReplaceBucket(h, bs, i, bs[i] + [e]);
    ModelSet(h, bs, bs[i] + [e], key, v);
  }

  lemma RemoveKeeps<K(!new), V>(h: K -> nat, bs: seq<seq<Entry<K, V>>>, key: K, at: nat)
    requires Good(h, bs) && at < |bs[h(key) % BUCKETS]| && bs[h(key) % BUCKETS][at].key == key
    ensures var i := h(key) % BUCKETS;
            var bs' := bs[i := SwapRemoved(bs[i], at)];
            Good(h, bs') && Model(bs') == Model(bs) - {key}
  {
    hide Assoc, Model, AllPlaced;
    var i := h(key) % BUCKETS;
    var b' := SwapRemoved(bs[i], at);
    PlacedAt(h, bs, i);
    AssocRemove(bs[i], at);
    ReplaceBucket(h, bs, i, b');
    ModelDrop(h, bs, b', key);
  }

  lemma NoEntries<K, V>(bs: seq<seq<Entry<K, V>>>)
    requires forall i :: 0 <= i < |bs| ==> bs[i] == []
    ensures Model(bs) == map[]
    decreases |bs|
  {
    if bs != [] {
      NoEntries(bs[..|bs| - 1]);
    }
  }

  // ----- all entries in the order of iteration -----

  function Flat<K, V>(bs: seq<seq<Entry<K, V>>>): seq<Entry<K, V>> {
    if bs == [] then [] else Flat(bs[..|bs| - 1]) + bs[|bs| - 1]
  }

  /** Iteration order holds every key of the map once, with its value. */
  lemma {:induction false} FlatMaps<K, V>(h: K -> nat, bs: seq<seq<Entry<K, V>>>)
    requires AllPlaced(h, bs)
    ensures DistinctKeys(Flat(bs)) && Maps(Flat(bs), Model(bs))
    decreases |bs|
  {
    hide Assoc, AllPlaced;
    if bs != [] {
      var n := |bs| - 1;
      assert AllPlaced(h, bs[..n]) && Placed(h, bs[n], n) by {
        AllPlacedInit(h, bs);
      }
      FlatMaps(h, bs[..n]);
      AssocMaps(bs[n]);
      var a, b := Flat(bs[..n]), bs[n];
      forall k
        ensures !(HasKey(a, k) && HasKey(b, k))
      {
        ModelAt(h, bs[..n], k);
        PlacedKey(h, b, n, k);
      }
      JoinMaps(a, b, Model(bs[..n]), Assoc(b));
    }
  }

  lemma AllPlacedInit<K, V>(h: K -> nat, bs: seq<seq<Entry<K, V>>>)
    requires AllPlaced(h, bs) && bs != []
    ensures AllPlaced(h, bs[..|bs| - 1]) && Placed(h, bs[|bs| - 1], |bs| - 1)
  {
  }

  lemma JoinMaps<K, V>(a: seq<Entry<K, V>>, b: seq<Entry<K, V>>, m: map<K, V>, n: map<K, V>)
    requires Maps(a, m) && Maps(b, n) && DistinctKeys(a) && DistinctKeys(b)
    requires forall k :: !(HasKey(a, k) && HasKey(b, k))
    ensures Maps(a + b, m + n) && DistinctKeys(a + b)
  {
    hide HasKey, Holds, DistinctKeys;
    forall k
      ensures !(k in m && k in n)
    {
    }
    JoinDistinct(a, b);
    JoinSize(m, n);
    JoinKeys(a, b, m, n);
    JoinEntries(a, b, m, n);
  }

  lemma JoinKeys<K, V>(a: seq<Entry<K, V>>, b: seq<Entry<K, V>>, m: map<K, V>, n: map<K, V>)
    requires forall k :: k in m ==> HasKey(a, k)
    requires forall k :: k in n ==> HasKey(b, k)
    ensures forall k :: k in m + n ==> HasKey(a + b, k)
  {
    hide HasKey;
    forall k | k in m + n
      ensures HasKey(a + b, k)
    {
      if k in n {
        var j := KeyIndex(b, k);
        KeyAt(a + b, |a| + j);
      } else {
        var i := KeyIndex(a, k);
        KeyAt(a + b, i);
      }
    }
  }

  lemma JoinEntries<K, V>(a: seq<Entry<K, V>>, b: seq<Entry<K, V>>, m: map<K, V>, n: map<K, V>)
    requires forall i :: 0 <= i < |a| ==> Holds(m, a[i])
    requires forall i :: 0 <= i < |b| ==> Holds(n, b[i])
    requires forall k :: !(k in m && k in n)
    ensures forall i :: 0 <= i < |a + b| ==> Holds(m + n, (a + b)[i])
  {
    forall i | 0 <= i < |a + b|
      ensures Holds(m + n, (a + b)[i])
    {
      assert (a + b)[i] == if i < |a| then a[i] else b[i - |a|];
    }
  }

  lemma JoinDistinct<K, V>(a: seq<Entry<K, V>>, b: seq<Entry<K, V>>)
    requires DistinctKeys(a) && DistinctKeys(b)
    requires forall k :: !(HasKey(a, k) && HasKey(b, k))
    ensures DistinctKeys(a + b)
  {
    hide HasKey;
    forall i, j | 0 <= i < |a| && 0 <= j < |b|
      ensures a[i].key != b[j].key
    {
      KeyAt(a, i);
      KeyAt(b, j);
    }
  }

  lemma JoinSize<K, V>(m: map<K, V>, n: map<K, V>)
    requires forall k :: !(k in m && k in n)
    ensures |m + n| == |m| + |n|
  {
    assert (m + n).Keys == m.Keys + n.Keys;
    assert m.Keys !! n.Keys;
  }

  // ----- iterators -----

  datatype Iterator = Iterator(bucket: nat, index: nat)

  const END: Iterator := Iterator(BUCKETS, 0)

  /** The iterator names an entry or is the end. */
  predicate Stands<K, V>(bs: seq<seq<Entry<K, V>>>, it: Iterator)
    requires |bs| == BUCKETS
  {
    it == END || (it.bucket < BUCKETS && it.index < |bs[it.bucket]|)
  }

  /** How many entries come before the iterator's. */
  ghost function Position<K, V>(bs: seq<seq<Entry<K, V>>>, it: Iterator): nat
    requires it.bucket <= |bs|
  {
    |Flat(bs[..it.bucket])| + it.index
  }

  lemma {:induction false} FlatPrefix<K, V>(bs: seq<seq<Entry<K, V>>>, i: nat)
    requires i < |bs|
    ensures Flat(bs[..i + 1]) == Flat(bs[..i]) + bs[i]
    ensures Flat(bs[..i + 1]) <= Flat(bs)
    decreases |bs|
  {
    assert bs[..i + 1][..i] == bs[..i];
    var n := |bs| - 1;
    if i == n {
      assert bs[..i + 1] == bs;
    } else {
      FlatPrefix(bs[..n], i);
      assert bs[..n][..i + 1] == bs[..i + 1];
    }
  }

  /** An iterator stands at the end when all entries come before it, else on the entry with
      its position. */
  lemma StandsAt<K, V>(bs: seq<seq<Entry<K, V>>>, it: Iterator)
    requires |bs| == BUCKETS && Stands(bs, it)
    ensures it == END <==> Position(bs, it) == |Flat(bs)|
    ensures it != END ==> Position(bs, it) < |Flat(bs)| && Flat(bs)[Position(bs, it)] == bs[it.bucket][it.index]
  {
    if it == END {
      assert bs[..BUCKETS] == bs;
    } else {
      FlatPrefix(bs, it.bucket);
    }
  }

  lemma TakeOne<T>(v: seq<T>, n: nat)
    requires n < |v|
    ensures v[..n] + [v[n]] == v[..n + 1]
  {
  }

  class HashMap<K(==, !new), V> {
    const hash: K -> nat
    var buckets: seq<seq<Entry<K, V>>>

    ghost predicate Valid()
      reads this
    {
      Good(hash, buckets)
    }

    ghost function Contents(): map<K, V>
      reads this
    {
      Model(buckets)
    }

    constructor (h: K -> nat)
      ensures Valid() && Contents() == map[] && hash == h
    {
      hash := h;
      buckets := [[], [], [], [], [], [], [], []];
      new;
      NoEntries(buckets);
    }

    /** Where the key's entry is in its bucket. */
    method Find(key: K) returns (at: Option<nat>)
      requires Valid()
      ensures at.Some? <==> key in Contents()
      ensures at.Some? ==>
                var b := buckets[hash(key) % BUCKETS];
                at.value < |b| && b[at.value].key == key && b[at.value].value == Contents()[key]
    {
      var h := hash(key);
      var b := buckets[h % BUCKETS];
      var i := 0;
      while i < |b|
        invariant 0 <= i <= |b| && IndexOf(b, h, key, 0) == IndexOf(b, h, key, i)
      {
        if b[i].hash == h && b[i].key == key {
          FoundIs(hash, buckets, key);
          return Some(i);
        }
        i := i + 1;
      }
      FoundIs(hash, buckets, key);
      return None;
    }

    method Insert(key: K, value: V)
      requires Valid()
      modifies this`buckets
      ensures Valid() && Contents() == old(Contents())[key := value]
    {
      var h := hash(key);
      var i := h % BUCKETS;
      var at := Find(key);
      if at.Some? {
        UpdateKeeps(hash, buckets, key, at.value, value);
        buckets := buckets[i := buckets[i][at.value := buckets[i][at.value].(value := value)]];
        return;
      }
      PushKeeps(hash, buckets, key, value);
      buckets := buckets[i := buckets[i] + [Entry(h, key, value)]];
    }

    method Erase(key: K)
      requires Valid()
      modifies this`buckets
      ensures Valid() && Contents() == old(Contents()) - {key}
    {
      var h := hash(key);
      var n := h % BUCKETS;
      var i := 0;
      while i < |buckets[n]|
        invariant buckets == old(buckets) && 0 <= i <= |buckets[n]|
        invariant IndexOf(buckets[n], h, key, 0) == IndexOf(buckets[n], h, key, i)
      {
        if buckets[n][i].hash == h && buckets[n][i].key == key {
          RemoveKeeps(hash, buckets, key, i);
          buckets := buckets[n := SwapRemoved(buckets[n], i)];
          return;
        }
        i := i + 1;
      }
      FoundIs(hash, buckets, key);
    }

    /** operator[] inserts a blank value for a missing key. */
    method Index(key: K, blank: V) returns (value: V)
      requires Valid()
      modifies this`buckets
      ensures Valid() && Contents() == (if key in old(Contents()) then old(Contents()) else old(Contents())[key := blank])
      ensures value == Contents()[key]
    {
      var at := Find(key);
      if at.Some? {
        return buckets[hash(key) % BUCKETS][at.value].value;
      }
      Insert(key, blank);
      at := Find(key);
      value := buckets[hash(key) % BUCKETS][at.value].value;
    }

    method Size() returns (s: nat)
      requires Valid()
      ensures s == |Contents()|
    {
      s := 0;
      for i := 0 to BUCKETS
        invariant s == |Flat(buckets[..i])|
      {
        FlatPrefix(buckets, i);
        s := s + |buckets[i]|;
      }
      assert buckets[..BUCKETS] == buckets;
      FlatMaps(hash, buckets);
    }

    method Empty() returns (empty: bool)
      requires Valid()
      ensures empty <==> Contents() == map[]
    {
      for i := 0 to BUCKETS
        invariant Flat(buckets[..i]) == []
      {
        FlatPrefix(buckets, i);
        if |buckets[i]| != 0 {
          FlatMaps(hash, buckets);
          return false;
        }
      }
      assert buckets[..BUCKETS] == buckets;
      FlatMaps(hash, buckets);
      empty := true;
    }

    method Clear()
      requires Valid()
      modifies this`buckets
      ensures Valid() && Contents() == map[]
    {
      for i := 0 to BUCKETS
        invariant |buckets| == BUCKETS && forall j :: 0 <= j < i ==> buckets[j] == []
      {
        buckets := buckets[i := []];
      }
      NoEntries(buckets);
    }

    /** An iterator past the end of its bucket moves to the next entry there is. */
    method Advance(from: Iterator) returns (it: Iterator)
      requires Valid() && (from == END || (from.bucket < BUCKETS && from.index <= |buckets[from.bucket]|))
      ensures Stands(buckets, it) && Position(buckets, it) == Position(buckets, from)
    {
      it := from;
      while it.bucket < BUCKETS && it.index >= |buckets[it.bucket]|
        invariant it == END || (it.bucket < BUCKETS && it.index <= |buckets[it.bucket]|)
        invariant Position(buckets, it) == Position(buckets, from)
        decreases BUCKETS - it.bucket
      {
        FlatPrefix(buckets, it.bucket);
        it := Iterator(it.bucket + 1, 0);
      }
    }

    method Begin() returns (it: Iterator)
      requires Valid()
      ensures Stands(buckets, it) && Position(buckets, it) == 0
    {
      it := Advance(Iterator(0, 0));
    }

    /** operator++ */
    method Next(from: Iterator) returns (it: Iterator)
      requires Valid() && Stands(buckets, from) && from != END
      ensures Stands(buckets, it) && Position(buckets, it) == Position(buckets, from) + 1
    {
      it := Advance(from.(index := from.index + 1));
    }

    /** A walk from begin to end ends, and sees every key of the map once, with its value. */
    method Visit() returns (seen: seq<Entry<K, V>>)
      requires Valid()
      ensures DistinctKeys(seen) && Maps(seen, Contents())
    {
      hide Flat, Position, Maps, DistinctKeys, AllPlaced, Model;
      seen := [];
      var it := Begin();
      while it != END
        invariant Stands(buckets, it) && Position(buckets, it) == |seen| <= |Flat(buckets)|
        invariant seen == Flat(buckets)[..|seen|]
        decreases |Flat(buckets)| - |seen|
      {
        StandsAt(buckets, it);
        TakeOne(Flat(buckets), |seen|);
        seen := seen + [buckets[it.bucket][it.index]];
        it := Next(it);
      }
      StandsAt(buckets, it);
      assert seen == Flat(buckets);
      FlatMaps(hash, buckets);
    }
  }
}
