/** A bbolt bucket: entries in strictly increasing byte order of their keys, as a cursor visits them. */
module Bucket {
  import opened Ordering

  datatype Entry<V> = Entry(key: string, value: V)

  ghost predicate Ordered<V>(es: seq<Entry<V>>) {
    forall i, j :: 0 <= i < j < |es| ==> Less(es[i].key, es[j].key)
  }

  lemma KeysDiffer<V>(es: seq<Entry<V>>)
    requires Ordered(es)
    ensures forall i, j :: 0 <= i < |es| && 0 <= j < |es| && i != j ==> es[i].key != es[j].key
  {
    forall i, j | 0 <= i < j < |es| ensures es[i].key != es[j].key {
      LessAsymmetric(es[i].key, es[j].key);
    }
  }

  /** What the bucket stores, as a finite map. */
  ghost function Contents<V>(es: seq<Entry<V>>): map<string, V> {
    if es == [] then map[] else Contents(es[1..])[es[0].key := es[0].value]
  }

  lemma TailIsOrdered<V>(es: seq<Entry<V>>)
    requires Ordered(es) && es != []
    ensures Ordered(es[1..])
  {
    var t := es[1..];
    forall i, j | 0 <= i < j < |t| ensures Less(t[i].key, t[j].key) {
      assert t[i] == es[i + 1] && t[j] == es[j + 1];
    }
  }

  /** In key order, every entry is stored and nothing else is. */
  lemma {:induction false} Stores<V>(es: seq<Entry<V>>)
    requires Ordered(es)
    ensures forall i :: 0 <= i < |es| ==> es[i].key in Contents(es) && Contents(es)[es[i].key] == es[i].value
    ensures forall k :: k in Contents(es) ==> exists i :: 0 <= i < |es| && es[i].key == k
  {
    if es != [] {
      var t := es[1..];
      TailIsOrdered(es);
      Stores(t);
      KeysDiffer(es);
      forall i | 0 <= i < |es| ensures es[i].key in Contents(es) && Contents(es)[es[i].key] == es[i].value {
        if i > 0 {
          assert t[i - 1] == es[i];
        }
      }
      forall k | k in Contents(es) ensures exists i :: 0 <= i < |es| && es[i].key == k {
        if k == es[0].key {
          assert es[0].key == k;
        } else {
          var i :| 0 <= i < |t| && t[i].key == k;
          assert es[i + 1].key == k;
        }
      }
    }
  }

  lemma HeadIsLeast<V>(es: seq<Entry<V>>)
    requires Ordered(es) && es != []
    ensures Ordered(es[1..]) && es[0].key !in Contents(es[1..])
    ensures forall k :: k in Contents(es[1..]) ==> Less(es[0].key, k)
  {
    var t := es[1..];
    TailIsOrdered(es);
    Stores(t);
    forall k | k in Contents(t) ensures Less(es[0].key, k) {
      var i :| 0 <= i < |t| && t[i].key == k;
      assert t[i] == es[i + 1];
    }
    LessIrreflexive(es[0].key);
  }

  lemma ConsOrdered<V>(e: Entry<V>, es: seq<Entry<V>>)
    requires Ordered(es) && forall k :: k in Contents(es) ==> Less(e.key, k)
    ensures Ordered([e] + es)
    ensures Contents([e] + es) == Contents(es)[e.key := e.value]
  {
    Stores(es);
    var s := [e] + es;
    assert s[1..] == es;
    forall i, j | 0 <= i < j < |s| ensures Less(s[i].key, s[j].key) {
      assert s[j] == es[j - 1];
      if i > 0 {
        assert s[i] == es[i - 1];
      }
    }
  }

  lemma MapPlus<V>(m: map<string, V>, h: string, v: V, k: string, w: V)
    ensures k == h ==> m[h := v][k := w] == m[k := w]
    ensures k != h ==> m[h := v][k := w] == m[k := w][h := v]
  {
  }

  lemma BeforeAll<V>(es: seq<Entry<V>>, k: string)
    requires Ordered(es) && es != [] && Less(k, es[0].key)
    ensures forall j :: j in Contents(es) ==> Less(k, j)
  {
    Stores(es);
    forall j | j in Contents(es) ensures Less(k, j) {
      var i :| 0 <= i < |es| && es[i].key == j;
      if i > 0 { LessTrans(k, es[0].key, j); }
    }
  }

  /** `Bucket.Put`: insert or overwrite, keeping the key order. */
  function Put<V>(es: seq<Entry<V>>, k: string, v: V): (r: seq<Entry<V>>)
    requires Ordered(es)
    ensures Ordered(r) && Contents(r) == Contents(es)[k := v]
  {
    if es == [] then
      [Entry(k, v)]
    else if Less(k, es[0].key) then
      BeforeAll(es, k);
      ConsOrdered(Entry(k, v), es);
      [Entry(k, v)] + es
    else
      HeadIsLeast(es);
      MapPlus(Contents(es[1..]), es[0].key, es[0].value, k, v);
      if k == es[0].key then
        ConsOrdered(Entry(k, v), es[1..]);
        [Entry(k, v)] + es[1..]
      else
        LessTotal(k, es[0].key);
        var t := Put(es[1..], k, v);
        assert forall j :: j in Contents(t) ==> j == k || j in Contents(es[1..]);
        ConsOrdered(es[0], t);
        [es[0]] + t
  }

  lemma MapMinus<V>(m: map<string, V>, h: string, v: V, k: string)
    requires h !in m
    ensures k == h ==> m[h := v] - {k} == m
    ensures k != h ==> m[h := v] - {k} == (m - {k})[h := v]
  {
  }

  /** `Bucket.Delete`: remove a key, a no-op when it is absent. */
  function Delete<V>(es: seq<Entry<V>>, k: string): (r: seq<Entry<V>>)
    requires Ordered(es)
    ensures Ordered(r) && Contents(r) == Contents(es) - {k}
  {
    if es == [] then
      es
    else
      HeadIsLeast(es);
      MapMinus(Contents(es[1..]), es[0].key, es[0].value, k);
      if k == es[0].key then es[1..]
      else
        var t := Delete(es[1..], k);
        assert forall j :: j in Contents(t) ==> j in Contents(es[1..]);
        ConsOrdered(es[0], t);
        [es[0]] + t
  }

  /** `Bucket.Get`: the position of a key's value, or none. */
  method Find<V>(es: seq<Entry<V>>, k: string) returns (at: int)
    requires Ordered(es)
    ensures k in Contents(es) ==> 0 <= at < |es| && es[at].key == k && es[at].value == Contents(es)[k]
    ensures k !in Contents(es) ==> at == -1
  {
    Stores(es);
    for i := 0 to |es|
      invariant forall j :: 0 <= j < i ==> es[j].key != k
    {
      if es[i].key == k {
        return i;
      }
    }
    return -1;
  }
}
