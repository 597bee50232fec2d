/** Ruby's Hash as the LEF tool uses it: an insertion-ordered table in which
    assigning to an existing key replaces its value where it stands and
    assigning to a new key appends it.  Iteration order (`keys`, `each`) is
    observable in the tool's output, so the table is a sequence of pairs. */
module Hashes {
  import opened Wrappers

  type Hash<K, V> = seq<(K, V)>

  /** `h.keys`, in insertion order. */
  function KeysOf<K, V>(h: Hash<K, V>): (ks: seq<K>)
    ensures |ks| == |h|
    ensures forall i | 0 <= i < |h| :: ks[i] == h[i].0
  {
    if h == [] then [] else [h[0].0] + KeysOf(h[1..])
  }

  /** `h.values`, in insertion order. */
  function ValuesOf<K, V>(h: Hash<K, V>): (vs: seq<V>)
    ensures |vs| == |h|
    ensures forall i | 0 <= i < |h| :: vs[i] == h[i].1
  {
    if h == [] then [] else [h[0].1] + ValuesOf(h[1..])
  }

  /** No key occurs twice. */
  ghost predicate DistinctKeys<K, V>(h: Hash<K, V>) {
    forall i, j | 0 <= i < j < |h| :: h[i].0 != h[j].0
  }

  /** `h[k]`, `None` standing for nil. */
  function Lookup<K(==), V>(h: Hash<K, V>, k: K): (r: Option<V>)
    ensures r.None? <==> k !in KeysOf(h)
  {
    if h == [] then None
    else if h[0].0 == k then Some(h[0].1)
    else
      assert KeysOf(h) == [h[0].0] + KeysOf(h[1..]);
      Lookup(h[1..], k)
  }

  /** In a table with distinct keys, looking up the key of an entry gives that
      entry's value. */
  lemma {:induction false} LookupEntry<K, V>(h: Hash<K, V>, i: nat)
    requires DistinctKeys(h) && i < |h|
    ensures Lookup(h, h[i].0) == Some(h[i].1)
  {
    if i > 0 {
      assert h[0].0 != h[i].0;
      LookupEntry(h[1..], i - 1);
    }
  }

  /** What `h[k]` finds is one of the table's values. */
  lemma {:induction false} LookupInValues<K, V>(h: Hash<K, V>, k: K)
    requires k in KeysOf(h)
    ensures Lookup(h, k).value in ValuesOf(h)
  {
    if h[0].0 != k {
      assert KeysOf(h) == [h[0].0] + KeysOf(h[1..]);
      LookupInValues(h[1..], k);
      assert ValuesOf(h) == [h[0].1] + ValuesOf(h[1..]);
    }
  }

  /** `h[k] = v`. */
  function Put<K(==), V>(h: Hash<K, V>, k: K, v: V): (r: Hash<K, V>)
    ensures k in KeysOf(h) ==> |r| == |h|
    ensures k !in KeysOf(h) ==> r == h + [(k, v)]
    ensures forall i | 0 <= i < |h| :: r[i].0 == h[i].0
  {
    if h == [] then [(k, v)]
    else if h[0].0 == k then [(k, v)] + h[1..]
    else
      assert KeysOf(h) == [h[0].0] + KeysOf(h[1..]);
      [h[0]] + Put(h[1..], k, v)
  }

  /** After `h[k] = v`, looking `k` up gives `v` and every other key keeps its
      value; the key order is the old one, with `k` appended when it is new, so
      keys stay distinct. */
  lemma {:induction false} PutLookup<K, V>(h: Hash<K, V>, k: K, v: V, k': K)
    ensures Lookup(Put(h, k, v), k') == if k' == k then Some(v) else Lookup(h, k')
  {
    if h != [] && h[0].0 != k {
      PutLookup(h[1..], k, v, k');
      assert Put(h, k, v)[1..] == Put(h[1..], k, v);
    } else if h != [] {
      assert Put(h, k, v)[1..] == h[1..];
    }
  }

  lemma {:induction false} PutDistinct<K, V>(h: Hash<K, V>, k: K, v: V)
    requires DistinctKeys(h)
    ensures DistinctKeys(Put(h, k, v))
  {
    if k !in KeysOf(h) {
      var r := Put(h, k, v);
      forall i, j | 0 <= i < j < |r| ensures r[i].0 != r[j].0 {
        if j == |h| {
          assert KeysOf(h)[i] == h[i].0;
        }
      }
    }
  }

  /** After `h[k] = v` every old key is still there, and so is `k`. */
  lemma PutKeys<K, V>(h: Hash<K, V>, k: K, v: V)
    ensures forall i | 0 <= i < |h| :: h[i].0 in KeysOf(Put(h, k, v))
    ensures k in KeysOf(Put(h, k, v))
  {
    var r := Put(h, k, v);
    forall i | 0 <= i < |h| ensures h[i].0 in KeysOf(r) {
      assert KeysOf(r)[i] == h[i].0;
    }
    PutLookup(h, k, v, k);
  }

  /** `h.each_value { |v| ... }` applied for its effect on every value: the
      keys and their order stay, each value becomes `f` of itself. */
  function MapValues<K, V>(h: Hash<K, V>, f: V -> V): (r: Hash<K, V>)
    ensures |r| == |h|
    ensures forall i | 0 <= i < |h| :: r[i] == (h[i].0, f(h[i].1))
    ensures KeysOf(r) == KeysOf(h)
  {
    if h == [] then [] else [(h[0].0, f(h[0].1))] + MapValues(h[1..], f)
  }

  lemma {:induction false} LookupMapValues<K, V>(h: Hash<K, V>, f: V -> V, k: K)
    ensures Lookup(MapValues(h, f), k) == if Lookup(h, k).Some? then Some(f(Lookup(h, k).value)) else None
  {
    if h != [] && h[0].0 != k {
      LookupMapValues(h[1..], f, k);
      assert MapValues(h, f)[1..] == MapValues(h[1..], f);
    }
  }

  /** `ks.each { |k| h[k].print }`: the lines of the values of the keys `ks`,
      in the order of `ks`. */
  function LookupAll<K(==), V, W>(ks: seq<K>, h: Hash<K, V>, f: V -> seq<W>): seq<W> {
    if ks == [] then []
    else
      var first := match Lookup(h, ks[0]) case Some(v) => f(v) case None => [];
      first + LookupAll(ks[1..], h, f)
  }

  /** Replacing every value by one whose printed lines are a permutation of
      its own permutes the printed lines of the table. */
  lemma {:induction false} LookupAllMapValues<K, V, W>(ks: seq<K>, h: Hash<K, V>, g: V -> V, f: V -> seq<W>)
    requires forall v :: multiset(f(g(v))) == multiset(f(v))
    ensures multiset(LookupAll(ks, MapValues(h, g), f)) == multiset(LookupAll(ks, h, f))
  {
    if ks != [] {
      LookupMapValues(h, g, ks[0]);
      LookupAllMapValues(ks[1..], h, g, f);
    }
  }
}
