/**
 * Value types shared by the whole model, and the copy-and-replace record
 * operations (`{ ...m, [k]: v }`, `delete copy[k]`, `m[k] ?? d`,
 * `Object.fromEntries`) that the client stores are built from.
 */
module Common {

  datatype Option<+T> = None | Some(value: T)

  datatype Result<+T, +E> = Ok(value: T) | Err(error: E)

  /** No element occurs twice. */
  predicate Distinct<T(==)>(xs: seq<T>) {
    forall i, j :: 0 <= i < j < |xs| ==> xs[i] != xs[j]
  }

  /** The position of the first occurrence of `x`. */
  function FirstIndex<T(==)>(xs: seq<T>, x: T): (k: nat)
    requires x in xs
    ensures k < |xs| && xs[k] == x
    ensures forall j :: 0 <= j < k ==> xs[j] != x
  {
    if xs[0] == x then 0 else 1 + FirstIndex(xs[1..], x)
  }

  /**
   * Each value once, at the place it first occurs: the order in which a
   * JavaScript `Set` or plain-object record built from `xs` lists them.
   */
  function Dedup<T(==,!new)>(xs: seq<T>): (r: seq<T>)
    ensures Distinct(r)
    ensures forall x :: x in r <==> x in xs
    ensures forall i, j :: 0 <= i < j < |r| ==> FirstIndex(xs, r[i]) < FirstIndex(xs, r[j])
  {
    if xs == [] then []
    else
      var n := |xs| - 1;
      var front := Dedup(xs[..n]);
      assert forall x :: x in xs <==> x in xs[..n] || x == xs[n];
      assert forall x :: x in xs[..n] ==> FirstIndex(xs, x) == FirstIndex(xs[..n], x) < n by {
        forall x | x in xs[..n] ensures FirstIndex(xs, x) == FirstIndex(xs[..n], x) < n {
          var a, b := FirstIndex(xs, x), FirstIndex(xs[..n], x);
          assert xs[b] == x;
          assert a <= b;
          assert a < n && xs[..n][a] == x;
        }
      }
      if xs[n] in front then front
      else
        assert FirstIndex(xs, xs[n]) == n;
        front + [xs[n]]
  }

  /** `{ ...m, [k]: v }`: a copy of the record in which key `k` holds `v`. */
  function Put<K, V>(m: map<K, V>, k: K, v: V): (r: map<K, V>)
    ensures r.Keys == m.Keys + {k}
    ensures r[k] == v
    ensures forall j :: j in m && j != k ==> r[j] == m[j]
  {
    m[k := v]
  }

  /** A copy of the record with key `k` deleted; a missing key is no error. */
  function Delete<K, V>(m: map<K, V>, k: K): (r: map<K, V>)
    ensures r.Keys == m.Keys - {k}
    ensures forall j :: j in r ==> r[j] == m[j]
    ensures k !in m ==> r == m
  {
    m - {k}
  }

  /** `m[k] ?? d`. */
  function GetOr<K, V>(m: map<K, V>, k: K, d: V): (v: V)
    ensures k in m ==> v == m[k]
    ensures k !in m ==> v == d
  {
    if k in m then m[k] else d
  }

  /** `list.map(x => [key(x), x])`: one entry per element, in list order. */
  function EntriesBy<K, V>(vs: seq<V>, key: V -> K): (es: seq<(K, V)>)
    ensures |es| == |vs|
    ensures forall i :: 0 <= i < |vs| ==> es[i] == (key(vs[i]), vs[i])
  {
    if vs == [] then []
    else EntriesBy(vs[..|vs| - 1], key) + [(key(vs[|vs| - 1]), vs[|vs| - 1])]
  }

  /**
   * `Object.fromEntries(entries)`: entries are written in order, so a later
   * entry for a key overwrites an earlier one.
   */
  function FromEntries<K, V>(entries: seq<(K, V)>): map<K, V>
  {
    if entries == [] then map[]
    else FromEntries(entries[..|entries| - 1])[entries[|entries| - 1].0 := entries[|entries| - 1].1]
  }

  /** The keys of `FromEntries(entries)` are exactly the keys the entries name. */
  lemma {:induction false} FromEntriesKeys<K, V>(entries: seq<(K, V)>)
    ensures FromEntries(entries).Keys == set i | 0 <= i < |entries| :: entries[i].0
  {
    if entries != [] {
      var n := |entries| - 1;
      FromEntriesKeys(entries[..n]);
      var front := set i | 0 <= i < n :: entries[..n][i].0;
      var all := set i | 0 <= i < |entries| :: entries[i].0;
      assert front == set i | 0 <= i < n :: entries[i].0;
      assert all == front + {entries[n].0} by {
        forall k | k in all ensures k in front + {entries[n].0} {
          var i :| 0 <= i < |entries| && entries[i].0 == k;
          if i < n { assert entries[..n][i].0 == k; }
        }
      }
    }
  }

  /**
   * The value `FromEntries(entries)` holds for a key is the value of the LAST
   * entry with that key.
   */
  lemma {:induction false} FromEntriesLastWins<K, V>(entries: seq<(K, V)>, i: nat)
    requires i < |entries|
    requires forall j :: i < j < |entries| ==> entries[j].0 != entries[i].0
    ensures entries[i].0 in FromEntries(entries)
    ensures FromEntries(entries)[entries[i].0] == entries[i].1
  {
    var n := |entries| - 1;
    if i < n {
      FromEntriesLastWins(entries[..n], i);
    }
  }
}
