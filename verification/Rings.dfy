/** The consistent-hash ring: what a lookup returns, and how little one insertion or erasure moves. */
module Rings {
  import opened Bytes

  /** How far clockwise from a to b on the ring of 32-bit hashes. */
  function Distance(a: u32, b: u32): u32 { if a <= b then b - a else b - a + TWO32 }

  lemma DistanceIsModular(a: u32, b: u32)
    ensures Distance(a, b) == (b - a) % TWO32
  {}

  /** Going from a to c by way of b. */
  lemma ByWayOf(a: u32, b: u32, c: u32)
    requires Distance(a, b) <= Distance(a, c)
    ensures Distance(a, c) == Distance(a, b) + Distance(b, c)
  {}

  ghost predicate IsLeast(keys: set<u32>, k: u32) { k in keys && forall j :: j in keys ==> k <= j }

  ghost function Least(keys: set<u32>): (k: u32)
    requires keys != {}
    ensures IsLeast(keys, k)
  {
    LeastExists(keys);
    var k :| IsLeast(keys, k);
    k
  }

  lemma {:induction false} LeastExists(keys: set<u32>)
    requires keys != {}
    ensures exists k :: IsLeast(keys, k)
    decreases |keys|
  {
    var k :| k in keys;
    var rest := keys - {k};
    if rest == {} {
      assert keys == {k};
      assert IsLeast(keys, k);
    } else {
      LeastExists(rest);
      var m :| IsLeast(rest, m);
      assert keys == rest + {k};
      assert IsLeast(keys, if k <= m then k else m);
    }
  }

  /** The keys not below h, where lower_bound searches. */
  ghost function From(keys: set<u32>, h: u32): set<u32> { set k | k in keys && k >= h }

  /** The key a lookup of h stops at: the first at or above h, or else the first of all. */
  ghost function Owner(keys: set<u32>, h: u32): (k: u32)
    requires keys != {}
    ensures k in keys
  {
    if From(keys, h) != {} then Least(From(keys, h)) else Least(keys)
  }

  ghost function Lookup<V>(data: map<u32, V>, h: u32): V
    requires data != map[]
  {
    NonEmpty(data);
    data[Owner(data.Keys, h)]
  }

  lemma NonEmpty<V>(data: map<u32, V>)
    ensures data != map[] <==> data.Keys != {}
  {
    if data.Keys == {} { assert data == map[]; }
  }

  lemma BoundFound(keys: set<u32>, h: u32)
    requires From(keys, h) != {}
    ensures exists k :: k in keys && k >= h && forall j :: j in keys && j >= h ==> k <= j
  {
    var k := Least(From(keys, h));
    forall j | j in keys && j >= h ensures k <= j { assert j in From(keys, h); }
    assert k in keys && k >= h;
  }

  class ConsistentMap<V> {
    var data: map<u32, V>

    constructor ()
      ensures data == map[]
    {
      data := map[];
    }

    /** Like std::map::insert: an existing key keeps its value. */
    method Insert(hash: u32, node: V) returns (inserted: bool)
      modifies this
      ensures inserted <==> hash !in old(data)
      ensures data == if inserted then old(data)[hash := node] else old(data)
    {
      inserted := hash !in data;
      if inserted {
        data := data[hash := node];
      }
    }

    method Update(hash: u32, node: V)
      modifies this
      ensures data == old(data)[hash := node]
    {
      data := data[hash := node];
    }

    /** The out-parameter V* node, which was on entry, is written only when a node is found. */
    method Find(hash: u32, was: V) returns (found: bool, node: V)
      ensures found <==> data != map[]
      ensures node == if data == map[] then was else Lookup(data, hash)
    {
      if |data| == 0 {
        return false, was;
      }
      NonEmpty(data);
      var it := LowerBound(hash);
      if it == -1 {
        it := LowerBound(0);
        assert From(data.Keys, 0) == data.Keys;
      }
      return true, data[it];
    }

    /** std::map::lower_bound: the least key not below hash, -1 for the end. */
    method LowerBound(hash: u32) returns (it: int)
      ensures From(data.Keys, hash) == {} ==> it == -1
      ensures From(data.Keys, hash) != {} ==> it == Least(From(data.Keys, hash))
    {
      ghost var above := From(data.Keys, hash);
      if above != {} { BoundFound(data.Keys, hash); }
      if k: u32 :| k in data && k >= hash && forall j :: j in data && j >= hash ==> k <= j {
        assert k in above;
        it := k;
      } else {
        it := -1;
      }
    }

    method Erase(hash: u32) returns (count: nat)
      modifies this
      ensures count == (if hash in old(data) then 1 else 0)
      ensures data == old(data) - {hash}
    {
      count := if hash in data then 1 else 0;
      data := data - {hash};
    }

    method Empty() returns (empty: bool)
      ensures empty <==> data == map[]
    {
      empty := |data| == 0;
    }

    method Size() returns (size: nat)
      ensures size == |data.Keys|
    {
      size := |data|;
    }
  }

  // ----- Lookup is nearest clockwise -----

  ghost predicate Nearest(keys: set<u32>, h: u32, k: u32) {
    k in keys && forall j :: j in keys ==> Distance(h, k) <= Distance(h, j)
  }

  /** A lookup goes to the key clockwise nearest to the hash, and to no other. */
  lemma OwnerIsNearest(keys: set<u32>, h: u32, k: u32)
    requires keys != {}
    ensures Nearest(keys, h, k) <==> k == Owner(keys, h)
    ensures k in keys && (forall j :: j in keys ==> (k - h) % TWO32 <= (j - h) % TWO32) <==> k == Owner(keys, h)
  {
    DistanceIsModular(h, k);
    forall j: u32 ensures Distance(h, j) == (j - h) % TWO32 { DistanceIsModular(h, j); }
    var o := Owner(keys, h);
    forall j | j in keys ensures Distance(h, o) <= Distance(h, j) {
      if j >= h { assert j in From(keys, h); }
    }
    if Nearest(keys, h, k) {
      assert Distance(h, k) == Distance(h, o);
    }
  }

  // ----- Minimal disruption -----

  /** The key counter-clockwise nearest to n. */
  ghost predicate IsPredecessor(keys: set<u32>, n: u32, p: u32) {
    p in keys && forall j :: j in keys ==> Distance(p, n) <= Distance(j, n)
  }

  lemma {:induction false} PredecessorExists(keys: set<u32>, n: u32)
    requires keys != {}
    ensures exists p :: IsPredecessor(keys, n, p)
    decreases |keys|
  {
    var k :| k in keys;
    var rest := keys - {k};
    if rest == {} {
      assert keys == {k};
      assert IsPredecessor(keys, n, k);
    } else {
      PredecessorExists(rest, n);
      var p :| IsPredecessor(rest, n, p);
      assert keys == rest + {k};
      assert IsPredecessor(keys, n, if Distance(k, n) <= Distance(p, n) then k else p);
    }
  }

  ghost function Predecessor(keys: set<u32>, n: u32): (p: u32)
    requires keys != {}
    ensures IsPredecessor(keys, n, p)
  {
    PredecessorExists(keys, n);
    var p :| IsPredecessor(keys, n, p);
    p
  }

  /** h lies on the arc from p (exclusive) clockwise to n (inclusive). */
  predicate InArc(p: u32, h: u32, n: u32) { Distance(h, n) < Distance(p, n) }

  /** Inserting n takes over exactly the arc that ends at n, all of it from one old owner. */
  lemma InsertMovesOneArc(keys: set<u32>, n: u32, p: u32, h: u32)
    requires n !in keys && IsPredecessor(keys, n, p)
    ensures Owner(keys + {n}, h) == if InArc(p, h, n) then n else Owner(keys, h)
    ensures InArc(p, h, n) ==> Owner(keys, h) == Owner(keys, n)
  {
    hide Distance, Owner;
    var o, s, all := Owner(keys, h), Owner(keys, n), keys + {n};
    OwnerIsNearest(keys, h, o);
    OwnerIsNearest(keys, n, s);
    forall j | j in keys && Distance(h, n) <= Distance(h, j)
      ensures Distance(h, j) == Distance(h, n) + Distance(n, j) {
      ByWayOf(h, n, j);
    }
    if InArc(p, h, n) {
      forall j | j in keys ensures Distance(h, n) <= Distance(h, j) {
        if Distance(h, j) < Distance(h, n) { ByWayOf(h, j, n); }
      }
      SelfDistance(n);
      OwnerIsNearest(all, h, n);
      OwnerIsNearest(keys, h, s);
    } else {
      NotInArc(p, h, n);
      OwnerIsNearest(all, h, o);
    }
  }

  lemma SelfDistance(n: u32)
    ensures Distance(n, n) == 0
  {}

  lemma NotInArc(p: u32, h: u32, n: u32)
    requires p != n && !InArc(p, h, n)
    ensures Distance(h, p) <= Distance(h, n)
  {}

  /** Erasing n hands exactly the hashes it owned, the arc that ends at n, to n's successor. */
  lemma EraseMovesOneArc(keys: set<u32>, n: u32, p: u32, h: u32)
    requires n in keys && IsPredecessor(keys - {n}, n, p)
    ensures Owner(keys, h) == n <==> InArc(p, h, n)
    ensures Owner(keys - {n}, h) == if InArc(p, h, n) then Owner(keys - {n}, n) else Owner(keys, h)
  {
    InsertMovesOneArc(keys - {n}, n, p, h);
    assert keys - {n} + {n} == keys;
  }

  /** The hashes that insertion or erasure of n moves: those from the key before n (exclusive) to n, or all if there is none. */
  ghost predicate Moves(keys: set<u32>, n: u32, h: u32) {
    var others := keys - {n};
    others != {} ==> InArc(Predecessor(others, n), h, n)
  }

  /** The same as lookups of nodes, on any ring, be it empty. */
  lemma InsertDisruption<V>(data: map<u32, V>, n: u32, v: V, h: u32)
    requires n !in data
    ensures n in data[n := v] && Lookup(data[n := v], h) == if data == map[] || Moves(data.Keys, n, h) then v else Lookup(data, h)
    ensures data[n := v] - {n} == data
  {
    NonEmpty(data);
    assert data[n := v].Keys == data.Keys + {n} && data.Keys - {n} == data.Keys;
    if data.Keys != {} {
      InsertMovesOneArc(data.Keys, n, Predecessor(data.Keys, n), h);
    }
  }

  lemma EraseDisruption<V>(data: map<u32, V>, n: u32, h: u32)
    requires n in data && data - {n} != map[]
    ensures Lookup(data - {n}, h) == if Moves(data.Keys, n, h) then Lookup(data - {n}, n) else Lookup(data, h)
    ensures Moves(data.Keys, n, h) <==> Owner(data.Keys, h) == n
  {
    var rest := data - {n};
    assert rest.Keys == data.Keys - {n};
    NonEmpty(rest);
    EraseMovesOneArc(data.Keys, n, Predecessor(rest.Keys, n), h);
  }

  // ----- Order of insertion -----

  function InsertAll<V>(data: map<u32, V>, nodes: seq<(u32, V)>): map<u32, V>
    decreases |nodes|
  {
    if nodes == [] then data
    else if nodes[0].0 in data then InsertAll(data, nodes[1..])
    else InsertAll(data[nodes[0].0 := nodes[0].1], nodes[1..])
  }

  ghost predicate DistinctKeys<V>(nodes: seq<(u32, V)>) {
    forall i, j :: 0 <= i < j < |nodes| ==> nodes[i].0 != nodes[j].0
  }

  lemma {:induction false} InsertAllHas<V>(data: map<u32, V>, nodes: seq<(u32, V)>, k: u32)
    requires DistinctKeys(nodes)
    ensures k in data ==> k in InsertAll(data, nodes) && InsertAll(data, nodes)[k] == data[k]
    ensures k !in data ==> (k in InsertAll(data, nodes) <==> exists i :: 0 <= i < |nodes| && nodes[i].0 == k)
    ensures k !in data ==> forall i :: 0 <= i < |nodes| && nodes[i].0 == k ==>
                                         k in InsertAll(data, nodes) && InsertAll(data, nodes)[k] == nodes[i].1
    decreases |nodes|
  {
    if nodes != [] {
      var rest := nodes[1..];
      var next := if nodes[0].0 in data then data else data[nodes[0].0 := nodes[0].1];
      assert DistinctKeys(rest);
      InsertAllHas(next, rest, k);
      assert forall i :: 0 < i < |nodes| ==> nodes[i] == rest[i - 1];
      assert forall i :: 0 <= i < |rest| ==> rest[i] == nodes[i + 1];
    }
  }

  /** Nodes with distinct keys make the same ring, hence the same lookups, in whatever order they are inserted. */
  lemma InsertionOrderIrrelevant<V>(nodes: seq<(u32, V)>, others: seq<(u32, V)>)
    requires DistinctKeys(nodes) && DistinctKeys(others)
    requires forall n :: n in nodes <==> n in others
    ensures InsertAll(map[], nodes) == InsertAll(map[], others)
  {
    var a, b := InsertAll(map[], nodes), InsertAll(map[], others);
    forall k: u32 ensures k in a <==> k in b
                  ensures k in a ==> a[k] == b[k] {
      InsertAllHas(map[], nodes, k);
      InsertAllHas(map[], others, k);
      if k in a {
        var i :| 0 <= i < |nodes| && nodes[i].0 == k;
        assert nodes[i] in others;
      }
      if k in b {
        var i :| 0 <= i < |others| && others[i].0 == k;
        assert others[i] in nodes;
      }
    }
  }
}
