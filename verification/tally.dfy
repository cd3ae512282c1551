/**
 * Counting the entries of a map by what they yield. parseBookmarks visits a
 * Go map in an unspecified order and appends what each entry yields; the
 * result is then determined up to order by how many keys yield each value.
 */
module Tally {
  import opened Wrappers

  /** The keys among `keys` whose entry yields `x`. */
  ghost function Sources<V, X(!new)>(data: map<string, V>, keys: set<string>, entry: (string, V) -> Option<X>, x: X): set<string> {
    set k | k in keys && k in data && entry(k, data[k]) == Some(x)
  }

  /** The keys among `keys` whose entry yields something. */
  ghost function Yielding<V, X>(data: map<string, V>, keys: set<string>, entry: (string, V) -> Option<X>): set<string> {
    set k | k in keys && k in data && entry(k, data[k]).Some?
  }

  /** `found` holds each value as often as the keys among `keys` yield it, and nothing else. */
  ghost predicate CountsMatch<V, X(!new)>(data: map<string, V>, keys: set<string>, entry: (string, V) -> Option<X>, found: seq<X>) {
    && |found| == |Yielding(data, keys, entry)|
    && forall x :: multiset(found)[x] == |Sources(data, keys, entry, x)|
  }

  /** What the entry of `key` contributes: its value if it yields one, otherwise nothing. */
  function Contribution<V, X>(data: map<string, V>, key: string, entry: (string, V) -> Option<X>): seq<X>
    requires key in data
  {
    match entry(key, data[key])
    case Some(x) => [x]
    case None => []
  }

  lemma SourcesAddMatch<V, X(!new)>(data: map<string, V>, keys: set<string>, k: string, entry: (string, V) -> Option<X>, x: X)
    requires k in data && k !in keys && entry(k, data[k]) == Some(x)
    ensures |Sources(data, keys + {k}, entry, x)| == |Sources(data, keys, entry, x)| + 1
  {
    assert Sources(data, keys + {k}, entry, x) == Sources(data, keys, entry, x) + {k};
  }

  lemma SourcesAddOther<V, X(!new)>(data: map<string, V>, keys: set<string>, k: string, entry: (string, V) -> Option<X>, x: X)
    requires k in data && k !in keys && entry(k, data[k]) != Some(x)
    ensures Sources(data, keys + {k}, entry, x) == Sources(data, keys, entry, x)
  {
  }

  lemma YieldingAddKey<V, X>(data: map<string, V>, keys: set<string>, k: string, entry: (string, V) -> Option<X>)
    requires k in data && k !in keys
    ensures |Yielding(data, keys + {k}, entry)| == |Yielding(data, keys, entry)| + if entry(k, data[k]).Some? then 1 else 0
  {
    if entry(k, data[k]).Some? {
      assert Yielding(data, keys + {k}, entry) == Yielding(data, keys, entry) + {k};
    } else {
      assert Yielding(data, keys + {k}, entry) == Yielding(data, keys, entry);
    }
  }

  /** Visiting one more key and appending its contribution keeps the counts right. */
  lemma CountsMatchAddKey<V, X(!new)>(data: map<string, V>, keys: set<string>, key: string, entry: (string, V) -> Option<X>, found: seq<X>)
    requires key in data && key !in keys
    requires CountsMatch(data, keys, entry, found)
    ensures CountsMatch(data, keys + {key}, entry, found + Contribution(data, key, entry))
  {
    var found' := found + Contribution(data, key, entry);
    forall x ensures multiset(found')[x] == |Sources(data, keys + {key}, entry, x)| {
      if entry(key, data[key]) == Some(x) {
        SourcesAddMatch(data, keys, key, entry, x);
      } else {
        SourcesAddOther(data, keys, key, entry, x);
      }
    }
    YieldingAddKey(data, keys, key, entry);
  }

  /** A value is in a matching sequence exactly when some key yields it. */
  lemma CountsMatchMembers<V, X(!new)>(data: map<string, V>, keys: set<string>, entry: (string, V) -> Option<X>, found: seq<X>, x: X)
    requires CountsMatch(data, keys, entry, found)
    ensures x in found <==> exists k :: k in keys && k in data && entry(k, data[k]) == Some(x)
  {
    assert x in found <==> multiset(found)[x] > 0;
    if exists k :: k in keys && k in data && entry(k, data[k]) == Some(x) {
      var k :| k in keys && k in data && entry(k, data[k]) == Some(x);
      assert k in Sources(data, keys, entry, x);
    }
    if x in found {
      var k :| k in Sources(data, keys, entry, x);
    }
  }

  /** Two sequences that match the same counts are permutations of each other, whatever the visiting order. */
  lemma CountsMatchUnique<V, X(!new)>(data: map<string, V>, keys: set<string>, entry: (string, V) -> Option<X>, a: seq<X>, b: seq<X>)
    requires CountsMatch(data, keys, entry, a) && CountsMatch(data, keys, entry, b)
    ensures multiset(a) == multiset(b)
  {
    assert forall x :: multiset(a)[x] == multiset(b)[x];
  }

  /** Matching the counts depends only on the multiset: reordering a matching sequence keeps it matching. */
  lemma CountsMatchPermutation<V, X(!new)>(data: map<string, V>, keys: set<string>, entry: (string, V) -> Option<X>, a: seq<X>, b: seq<X>)
    requires CountsMatch(data, keys, entry, a)
    requires multiset(a) == multiset(b)
    ensures CountsMatch(data, keys, entry, b)
  {
    assert |a| == |multiset(a)| == |multiset(b)| == |b|;
  }

  /** A subset is no larger than its superset. */
  lemma {:induction false} SubsetCardinality<T>(a: set<T>, b: set<T>)
    requires a <= b
    ensures |a| <= |b|
    decreases a
  {
    if a != {} {
      var x :| x in a;
      SubsetCardinality(a - {x}, b - {x});
    }
  }
}
