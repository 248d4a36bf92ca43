/**
 * Index lookups over a table. A table is a map from document ids to rows,
 * every id below a bound `hi` (the store's next id). Scanning ids in
 * ascending order gives rows in insertion order, the order in which the
 * document store's indexes return rows that share a key.
 */
module Tables {
  import opened Schema

  ghost predicate KeysBelow<V>(m: map<nat, V>, hi: nat)
  {
    forall k :: k in m ==> k < hi
  }

  /** The first id in [lo, hi) whose row satisfies `p`. */
  function FindFrom<V>(m: map<nat, V>, p: V -> bool, lo: nat, hi: nat): (r: Option<nat>)
    decreases hi - lo
    ensures r.Some? ==> lo <= r.value < hi && r.value in m && p(m[r.value])
    ensures r.Some? ==> forall k :: lo <= k < r.value && k in m ==> !p(m[k])
    ensures r.None? ==> forall k :: lo <= k < hi && k in m ==> !p(m[k])
  {
    if lo >= hi then None
    else if lo in m && p(m[lo]) then Some(lo)
    else FindFrom(m, p, lo + 1, hi)
  }

  /** A `.first()` / `.unique()` lookup: the earliest row satisfying `p`, or None when there is none. */
  function Find<V>(m: map<nat, V>, p: V -> bool, hi: nat): (r: Option<nat>)
    requires KeysBelow(m, hi)
    ensures r.Some? ==> r.value in m && p(m[r.value])
    ensures r.Some? ==> forall k :: k in m && k < r.value ==> !p(m[k])
    ensures r.None? <==> forall k :: k in m ==> !p(m[k])
  {
    FindFrom(m, p, 0, hi)
  }

  /** The ids in [lo, hi) whose rows satisfy `p`, ascending. */
  function SelectFrom<V>(m: map<nat, V>, p: V -> bool, lo: nat, hi: nat): (r: seq<nat>)
    decreases hi - lo
    ensures forall i :: 0 <= i < |r| ==> lo <= r[i] < hi && r[i] in m && p(m[r[i]])
    ensures forall k :: lo <= k < hi && k in m && p(m[k]) ==> k in r
    ensures forall i, j :: 0 <= i < j < |r| ==> r[i] < r[j]
  {
    if lo >= hi then []
    else if lo in m && p(m[lo]) then [lo] + SelectFrom(m, p, lo + 1, hi)
    else SelectFrom(m, p, lo + 1, hi)
  }

  /** A `.collect()` over an index: every id whose row satisfies `p`, in ascending id order. */
  function Select<V>(m: map<nat, V>, p: V -> bool, hi: nat): (r: seq<nat>)
    requires KeysBelow(m, hi)
    ensures forall i :: 0 <= i < |r| ==> r[i] in m && p(m[r[i]])
    ensures forall k :: k in m && p(m[k]) <==> k in r
    ensures forall i, j :: 0 <= i < j < |r| ==> r[i] < r[j]
  {
    SelectFrom(m, p, 0, hi)
  }

  /** Writing a key twice leaves only the second write. */
  lemma OverwriteKey<K, V>(m: map<K, V>, k: K, a: V, b: V)
    ensures m[k := a][k := b] == m[k := b]
  {
  }

  /** Two filters that agree on every row of the table select the same ids. */
  lemma {:induction false} SelectFromSame<V>(m: map<nat, V>, p: V -> bool, q: V -> bool, lo: nat, hi: nat)
    requires forall k :: k in m ==> p(m[k]) == q(m[k])
    decreases hi - lo
    ensures SelectFrom(m, p, lo, hi) == SelectFrom(m, q, lo, hi)
  {
    if lo < hi {
      SelectFromSame(m, p, q, lo + 1, hi);
    }
  }

  /** The ids whose rows satisfy `p`, as a set. */
  ghost function Matching<V>(m: map<nat, V>, p: V -> bool): set<nat>
  {
    set k | k in m && p(m[k])
  }

  ghost function Elems(r: seq<nat>): set<nat>
  {
    set k | k in r
  }

  /** A sequence without repeated elements has as many elements as the set of its elements. */
  lemma {:induction false} DistinctCard(r: seq<nat>)
    requires forall i, j :: 0 <= i < j < |r| ==> r[i] != r[j]
    ensures |Elems(r)| == |r|
  {
    if r == [] {
      assert Elems(r) == {};
    } else {
      var tail := r[1..];
      assert forall i, j :: 0 <= i < j < |tail| ==> tail[i] != tail[j] by {
        forall i, j | 0 <= i < j < |tail| ensures tail[i] != tail[j] {
          assert tail[i] == r[i + 1] && tail[j] == r[j + 1];
        }
      }
      DistinctCard(tail);
      assert r[0] !in Elems(tail) by {
        forall i | 0 <= i < |tail| ensures tail[i] != r[0] {
          assert tail[i] == r[i + 1];
        }
      }
      assert Elems(r) == {r[0]} + Elems(tail) by {
        assert r == [r[0]] + tail;
      }
    }
  }

  /** Counting the rows a `.collect()` returns counts exactly the matching rows. */
  lemma SelectCount<V>(m: map<nat, V>, p: V -> bool, hi: nat)
    requires KeysBelow(m, hi)
    ensures |Select(m, p, hi)| == |Matching(m, p)|
  {
    var r := Select(m, p, hi);
    DistinctCard(r);
    assert Elems(r) == Matching(m, p);
  }
}
