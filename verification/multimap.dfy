/** Langium's `MultiMap<AstNode, AstNodeDescription>`: a JavaScript `Map`
    from a node to the array of its descriptions. Keys keep the order in
    which they were first added; values keep the order of `add` calls. */
module MultiMaps {
  import opened Base
  import opened Ast

  datatype Bucket = Bucket(key: NodeId, values: seq<Description>)

  type MultiMap = seq<Bucket>

  /** Each key owns exactly one bucket. */
  predicate Valid(m: MultiMap) {
    |m| == 0 || (m[0].key !in Keys(m[1..]) && Valid(m[1..]))
  }

  /** No bucket is empty (an entry only appears through `add`). */
  predicate NoEmptyBucket(m: MultiMap) {
    |m| == 0 || (|m[0].values| > 0 && NoEmptyBucket(m[1..]))
  }

  function Keys(m: MultiMap): (ks: seq<NodeId>)
    ensures |ks| == |m|
    ensures forall a :: 0 <= a < |m| ==> ks[a] == m[a].key
  {
    if |m| == 0 then [] else [m[0].key] + Keys(m[1..])
  }

  /** `get(key)`: the bucket's values, or the empty array. */
  function Get(m: MultiMap, k: NodeId): (r: seq<Description>)
    ensures k !in Keys(m) ==> r == []
  {
    if |m| == 0 then []
    else if m[0].key == k then m[0].values
    else Get(m[1..], k)
  }

  /** `add(key, value)`: appends to the key's bucket, creating it at the end
      when the key is new. */
  function Add(m: MultiMap, k: NodeId, v: Description): (r: MultiMap)
    ensures forall k' :: Get(r, k') == Get(m, k') + (if k' == k then [v] else [])
  {
    if |m| == 0 then [Bucket(k, [v])]
    else if m[0].key == k then [Bucket(k, m[0].values + [v])] + m[1..]
    else [m[0]] + Add(m[1..], k, v)
  }

  /** `add` creates a bucket only for a new key, at the end. */
  lemma {:induction false} AddKeys(m: MultiMap, k: NodeId, v: Description)
    ensures Elems(Keys(Add(m, k, v))) == Elems(Keys(m)) + {k}
  {
    if |m| > 0 && m[0].key != k {
      AddKeys(m[1..], k, v);
      var rest := Add(m[1..], k, v);
      calc {
        Elems(Keys(Add(m, k, v)));
        { assert Keys([m[0]] + rest) == [m[0].key] + Keys(rest); }
        Elems(Keys(rest)) + {m[0].key};
        Elems(Keys(m[1..])) + {k} + {m[0].key};
        { assert Keys(m) == [m[0].key] + Keys(m[1..]); }
        Elems(Keys(m)) + {k};
      }
    } else if |m| > 0 {
      assert Keys(Add(m, k, v)) == Keys(m);
    }
  }

  lemma {:induction false} AddFresh(m: MultiMap, k: NodeId, v: Description)
    requires k !in Keys(m)
    ensures Add(m, k, v) == m + [Bucket(k, [v])]
  {
    if |m| > 0 {
      assert Keys(m) == [m[0].key] + Keys(m[1..]);
      AddFresh(m[1..], k, v);
      assert m == [m[0]] + m[1..];
    }
  }

  /** `add` keeps one bucket per key and never leaves a bucket empty. */
  lemma {:induction false} AddValid(m: MultiMap, k: NodeId, v: Description)
    ensures Valid(m) ==> Valid(Add(m, k, v))
    ensures NoEmptyBucket(m) ==> NoEmptyBucket(Add(m, k, v))
  {
    if |m| > 0 && m[0].key != k {
      AddValid(m[1..], k, v);
      AddKeys(m[1..], k, v);
      var rest := Add(m[1..], k, v);
      assert ([m[0]] + rest)[1..] == rest;
      assert m[0].key in Keys(rest) ==> m[0].key in Elems(Keys(rest));
    } else if |m| > 0 {
      assert Add(m, k, v)[1..] == m[1..];
    }
  }

  /** `add` grows the contents by exactly the added description. */
  lemma {:induction false} AddSize(m: MultiMap, k: NodeId, v: Description)
    ensures Size(Add(m, k, v)) == Size(m) + 1
    ensures multiset(Values(Add(m, k, v))) == multiset(Values(m)) + multiset{v}
  {
    if |m| == 0 {
    } else if m[0].key == k {
      assert Add(m, k, v)[1..] == m[1..];
      assert Values(Add(m, k, v)) == m[0].values + [v] + Values(m[1..]);
    } else {
      AddSize(m[1..], k, v);
      assert Add(m, k, v)[1..] == Add(m[1..], k, v);
    }
  }

  /** `addAll(key, values)`: one `add` per value, in order. */
  function AddAll(m: MultiMap, k: NodeId, vs: seq<Description>): (r: MultiMap)
    ensures forall k' :: Get(r, k') == Get(m, k') + (if k' == k then vs else [])
    decreases |vs|
  {
    if |vs| == 0 then m
    else
      var r := AddAll(Add(m, k, vs[0]), k, vs[1..]);
      assert vs == [vs[0]] + vs[1..];
      r
  }

  lemma {:induction false} AddAllValid(m: MultiMap, k: NodeId, vs: seq<Description>)
    ensures Valid(m) ==> Valid(AddAll(m, k, vs))
    ensures NoEmptyBucket(m) ==> NoEmptyBucket(AddAll(m, k, vs))
    decreases |vs|
  {
    if |vs| > 0 {
      AddValid(m, k, vs[0]);
      AddAllValid(Add(m, k, vs[0]), k, vs[1..]);
    }
  }

  lemma {:induction false} AddAllKeys(m: MultiMap, k: NodeId, vs: seq<Description>)
    ensures Elems(Keys(AddAll(m, k, vs))) == Elems(Keys(m)) + (if |vs| > 0 then {k} else {})
    decreases |vs|
  {
    if |vs| > 0 {
      AddKeys(m, k, vs[0]);
      AddAllKeys(Add(m, k, vs[0]), k, vs[1..]);
    }
  }

  lemma {:induction false} AddAllSize(m: MultiMap, k: NodeId, vs: seq<Description>)
    ensures Size(AddAll(m, k, vs)) == Size(m) + |vs|
    ensures multiset(Values(AddAll(m, k, vs))) == multiset(Values(m)) + multiset(vs)
    decreases |vs|
  {
    if |vs| > 0 {
      AddSize(m, k, vs[0]);
      AddAllSize(Add(m, k, vs[0]), k, vs[1..]);
      assert vs == [vs[0]] + vs[1..];
    }
  }

  /** `addAll` of a non-empty array under a new key appends one bucket. */
  lemma {:induction false} AddAllFreshKey(m: MultiMap, k: NodeId, vs: seq<Description>)
    requires k !in Keys(m) && |vs| > 0
    ensures AddAll(m, k, vs) == m + [Bucket(k, vs)]
  {
    AddFresh(m, k, vs[0]);
    AddAllFresh(m, Bucket(k, [vs[0]]), vs[1..]);
    assert [vs[0]] + vs[1..] == vs;
  }

  /** Adding to the last bucket only extends that bucket. */
  lemma {:induction false} AddAllFresh(m: MultiMap, b: Bucket, vs: seq<Description>)
    requires b.key !in Keys(m)
    ensures AddAll(m + [b], b.key, vs) == m + [Bucket(b.key, b.values + vs)]
    decreases |vs|
  {
    if |vs| > 0 {
      AddLast(m, b, vs[0]);
      AddAllFresh(m, Bucket(b.key, b.values + [vs[0]]), vs[1..]);
      assert b.values + [vs[0]] + vs[1..] == b.values + vs;
    } else {
      assert b.values + vs == b.values;
    }
  }

  lemma {:induction false} AddLast(m: MultiMap, b: Bucket, v: Description)
    requires b.key !in Keys(m)
    ensures Add(m + [b], b.key, v) == m + [Bucket(b.key, b.values + [v])]
    decreases |m|
  {
    if |m| > 0 {
      assert Keys(m) == [m[0].key] + Keys(m[1..]);
      assert (m + [b])[1..] == m[1..] + [b];
      AddLast(m[1..], b, v);
      assert m == [m[0]] + m[1..];
    }
  }

  /** The total number of descriptions held. */
  function Size(m: MultiMap): nat {
    if |m| == 0 then 0 else |m[0].values| + Size(m[1..])
  }

  /** All descriptions held, bucket by bucket. */
  function Values(m: MultiMap): seq<Description> {
    if |m| == 0 then [] else m[0].values + Values(m[1..])
  }
}
