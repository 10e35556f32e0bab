/** The table-join and dispatch macros of `src/macros.rs`. `iter_zip!`
    pairs up two component tables and keeps the entities holding both;
    `update!` expands to one `update` call per listed id, in listed order. */
module Macros {
  import opened Wrappers
  import Ecs

  /** The entity indices from `from` on where both tables hold a value (the
      zip stops at the shorter table). */
  function JoinIndices<A, B>(t1: seq<Option<A>>, t2: seq<Option<B>>, from: nat): seq<nat>
    decreases |t1| - from
  {
    if from >= |t1| || from >= |t2| then []
    else
      var rest := JoinIndices(t1, t2, from + 1);
      if t1[from].Some? && t2[from].Some? then [from] + rest else rest
  }

  /** The joined indices are exactly the indices (from `from` on) where both
      tables hold a value, listed in strictly increasing order. */
  lemma {:induction false} JoinIndicesExact<A, B>(t1: seq<Option<A>>, t2: seq<Option<B>>, from: nat)
    ensures forall i :: 0 <= i < |JoinIndices(t1, t2, from)| ==>
      var e := JoinIndices(t1, t2, from)[i]; from <= e < |t1| && e < |t2| && t1[e].Some? && t2[e].Some?
    ensures forall i, j :: 0 <= i < j < |JoinIndices(t1, t2, from)| ==>
      JoinIndices(t1, t2, from)[i] < JoinIndices(t1, t2, from)[j]
    ensures forall e :: from <= e < |t1| && e < |t2| && t1[e].Some? && t2[e].Some? ==> e in JoinIndices(t1, t2, from)
    decreases |t1| - from
  {
    if from < |t1| && from < |t2| {
      var rest := JoinIndices(t1, t2, from + 1);
      JoinIndicesExact(t1, t2, from + 1);
      if t1[from].Some? && t2[from].Some? {
        var r := [from] + rest;
        assert JoinIndices(t1, t2, from) == r;
        assert forall i :: 1 <= i < |r| ==> r[i] == rest[i - 1];
        forall e | from <= e < |t1| && e < |t2| && t1[e].Some? && t2[e].Some? ensures e in r {
          if e > from {
            assert e in rest;
          }
        }
      } else {
        assert JoinIndices(t1, t2, from) == rest;
        forall e | from <= e < |t1| && e < |t2| && t1[e].Some? && t2[e].Some? ensures e in rest {
          assert e != from;
        }
      }
    }
  }

  /** The pairs at the given indices. */
  function PairsAt<A, B>(t1: seq<Option<A>>, t2: seq<Option<B>>, idx: seq<nat>): seq<(A, B)>
    requires forall i :: 0 <= i < |idx| ==> idx[i] < |t1| && idx[i] < |t2| && t1[idx[i]].Some? && t2[idx[i]].Some?
  {
    seq(|idx|, i requires 0 <= i < |idx| => (t1[idx[i]].value, t2[idx[i]].value))
  }

  /** The iterator chain `zip(..).filter_map(..)`, walked in index order. */
  method ZipPresent<A, B>(t1: seq<Option<A>>, t2: seq<Option<B>>) returns (r: seq<(A, B)>)
    ensures var idx := JoinIndices(t1, t2, 0);
      |r| == |idx| &&
      forall i :: 0 <= i < |r| ==> idx[i] < |t1| && idx[i] < |t2| && t1[idx[i]] == Some(r[i].0) && t2[idx[i]] == Some(r[i].1)
  {
    r := [];
    ghost var done: seq<nat> := [];
    var i: nat := 0;
    while i < |t1| && i < |t2|
      invariant JoinIndices(t1, t2, 0) == done + JoinIndices(t1, t2, i)
      invariant |r| == |done|
      invariant forall k :: 0 <= k < |r| ==>
        done[k] < |t1| && done[k] < |t2| && t1[done[k]] == Some(r[k].0) && t2[done[k]] == Some(r[k].1)
      decreases |t1| - i
    {
      ghost var rest := JoinIndices(t1, t2, i + 1);
      if t1[i].Some? && t2[i].Some? {
        assert JoinIndices(t1, t2, i) == [i] + rest;
        r := r + [(t1[i].value, t2[i].value)];
        done := done + [i];
      } else {
        assert JoinIndices(t1, t2, i) == rest;
      }
      i := i + 1;
    }
    assert JoinIndices(t1, t2, i) == [];
  }

  /** `iter_zip!` over a store: panics when either table is missing,
      otherwise the pairs of the entities holding both kinds, in id order. */
  method IterZip<K(!new), C>(s: Ecs.Store<K, C>, k1: K, k2: K) returns (r: Result<seq<(C, C)>>)
    requires Ecs.Valid(s)
    ensures r.Ok? <==> k1 in s.tables && k2 in s.tables
    ensures r.Ok? ==>
      var idx := JoinIndices(s.tables[k1], s.tables[k2], 0);
      |r.value| == |idx| &&
      forall i :: 0 <= i < |idx| ==>
        idx[i] < s.entitiesCount &&
        Ecs.GetComponent(s, k1, idx[i]) == Some(r.value[i].0) && Ecs.GetComponent(s, k2, idx[i]) == Some(r.value[i].1)
  {
    var t1 := Ecs.BorrowComponentVec(s, k1);
    var t2 := Ecs.BorrowComponentVec(s, k2);
    if t1.None? || t2.None? {
      return Panic(UnwrapNone);
    }
    var pairs := ZipPresent(t1.value, t2.value);
    return Ok(pairs);
  }

  /** The call sequence `update!` expands to: for each listed type in order,
      one call per listed id in order. */
  function Dispatch<T>(groups: seq<(T, seq<nat>)>): (r: seq<(T, nat)>)
    ensures |r| == Calls(groups)
  {
    if |groups| == 0 then []
    else seq(|groups[0].1|, j requires 0 <= j < |groups[0].1| => (groups[0].0, groups[0].1[j])) + Dispatch(groups[1..])
  }

  /** Number of calls of the first `n` groups. */
  function Calls<T>(groups: seq<(T, seq<nat>)>): nat {
    if |groups| == 0 then 0 else |groups[0].1| + Calls(groups[1..])
  }

  /** Calls before group `g`. */
  function Offset<T>(groups: seq<(T, seq<nat>)>, g: nat): nat
    requires g <= |groups|
  {
    if g == 0 then 0 else |groups[0].1| + Offset(groups[1..], g - 1)
  }

  /** Call number `Offset(g) + j` is `<T_g>::update` on the j-th id of group g. */
  lemma {:induction false} DispatchOrder<T>(groups: seq<(T, seq<nat>)>, g: nat, j: nat)
    requires g < |groups| && j < |groups[g].1|
    ensures Offset(groups, g) + j < |Dispatch(groups)|
    ensures Dispatch(groups)[Offset(groups, g) + j] == (groups[g].0, groups[g].1[j])
    decreases g
  {
    var head := seq(|groups[0].1|, k requires 0 <= k < |groups[0].1| => (groups[0].0, groups[0].1[k]));
    assert Dispatch(groups) == head + Dispatch(groups[1..]);
    if g > 0 {
      DispatchOrder(groups[1..], g - 1, j);
      OffsetBound(groups[1..], g - 1);
    }
  }

  lemma {:induction false} OffsetBound<T>(groups: seq<(T, seq<nat>)>, g: nat)
    requires g < |groups|
    ensures Offset(groups, g) + |groups[g].1| <= Calls(groups)
    decreases g
  {
    if g > 0 {
      OffsetBound(groups[1..], g - 1);
    }
  }
}
