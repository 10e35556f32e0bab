/** The obstacle slots of `src/obstacles.rs` (`ObstacleEntry`, `ObstaclePool`):
    a sequence of entity ids, each active or inactive, activated by a
    linear probe from a random start. */
module ObstaclePool {
  import opened Wrappers
  import opened Arith

  datatype ObstacleEntry = ObstacleEntry(id: nat, active: bool, additionalSpeed: real)

  type Pool = seq<ObstacleEntry>


  /** `ObstacleEntry::new`: inactive, no extra speed. */
  function NewEntry(id: nat): (r: ObstacleEntry)
    ensures r.id == id && !r.active && r.additionalSpeed == 0.0
  {
    ObstacleEntry(id, false, 0.0)
  }

  /** `add_cactus` / `add_ptero`: append one inactive slot; a pterodactyl
      flies `pteroSpeed` faster than the scroll. */
  function AddSlot(pool: Pool, id: nat, extra: real): (r: Pool)
    ensures |r| == |pool| + 1 && r[..|pool|] == pool
    ensures r[|pool|].id == id && !r[|pool|].active && r[|pool|].additionalSpeed == extra
  {
    pool + [NewEntry(id).(additionalSpeed := extra)]
  }

  function AddCactus(pool: Pool, id: nat): (r: Pool)
    ensures r == AddSlot(pool, id, 0.0)
  {
    pool + [NewEntry(id)]
  }

  function AddPtero(pool: Pool, id: nat, pteroSpeed: real): (r: Pool)
    ensures r == AddSlot(pool, id, pteroSpeed)
  {
    var entry := NewEntry(id);
    pool + [entry.(additionalSpeed := pteroSpeed)]
  }

  /** Index probed at step `d` of a scan starting at `start`. */
  function ProbeAt(n: nat, start: nat, d: nat): (k: nat)
    requires n > 0
    ensures k < n
  {
    (start + d) % n
  }

  /** Slot `k` is the first inactive slot met when probing from `start`. */
  ghost predicate FirstInactiveFrom(pool: Pool, start: nat, k: nat)
    requires |pool| > 0
  {
    exists d: nat :: d < |pool| && k == ProbeAt(|pool|, start, d) && !pool[k].active &&
      forall d': nat :: d' < d ==> pool[ProbeAt(|pool|, start, d')].active
  }

  /** The probe loop of `activate_next` from step `d` on. */
  function Probe(pool: Pool, start: nat, d: nat): (r: Option<nat>)
    requires |pool| > 0 && d <= |pool|
    requires forall d': nat :: d' < d ==> pool[ProbeAt(|pool|, start, d')].active
    ensures r.None? <==> forall d': nat :: d' < |pool| ==> pool[ProbeAt(|pool|, start, d')].active
    ensures r.Some? ==> r.value < |pool| && FirstInactiveFrom(pool, start, r.value)
    decreases |pool| - d
  {
    if d == |pool| then None
    else if !pool[ProbeAt(|pool|, start, d)].active then Some(ProbeAt(|pool|, start, d))
    else Probe(pool, start, d + 1)
  }

  predicate AllActive(pool: Pool) {
    forall i :: 0 <= i < |pool| ==> pool[i].active
  }

  /** Every slot is met by some probe step. */
  lemma ProbeCovers(n: nat, start: nat, i: nat)
    requires i < n
    ensures exists d: nat :: d < n && ProbeAt(n, start, d) == i
  {
    var q, s := start / n, start % n;
    if s <= i {
      var d: nat := i - s;
      ModUnique(start + d, q, i, n);
      assert ProbeAt(n, start, d) == i;
    } else {
      var d: nat := n - s + i;
      assert start + d == (q + 1) * n + i;
      ModUnique(start + d, q + 1, i, n);
      assert ProbeAt(n, start, d) == i;
    }
  }

  /** `activate_next`: panics on an empty pool (the modulo). Otherwise the
      first inactive slot probing from `r mod len` (wrapping) becomes active
      and its id is returned; when every slot is active nothing changes and
      the answer is `None`. */
  function ActivateNext(pool: Pool, r: nat): (res: Result<(Pool, Option<nat>)>)
    ensures res.Panic? <==> |pool| == 0
    ensures res.Ok? ==> |res.value.0| == |pool|
    ensures res.Ok? ==> (res.value.1.None? <==> AllActive(pool))
    ensures res.Ok? && res.value.1.None? ==> res.value.0 == pool
    ensures res.Ok? && res.value.1.Some? ==>
      exists k :: 0 <= k < |pool| && FirstInactiveFrom(pool, r % |pool|, k) &&
        res.value.1.value == pool[k].id && res.value.0 == pool[k := pool[k].(active := true)]
  {
    if |pool| == 0 then Panic(RemainderByZero)
    else
      var start := r % |pool|;
      match Probe(pool, start, 0)
      case None =>
        assert AllActive(pool) by {
          forall i | 0 <= i < |pool| ensures pool[i].active {
            ProbeCovers(|pool|, start, i);
          }
        }
        Ok((pool, None))
      case Some(k) => Ok((pool[k := pool[k].(active := true)], Some(pool[k].id)))
  }

  /** The probe never picks an active slot, and flips exactly one slot. */
  lemma ActivateNextPicksInactive(pool: Pool, r: nat)
    requires |pool| > 0 && ActivateNext(pool, r).Ok? && ActivateNext(pool, r).value.1.Some?
    ensures exists k :: 0 <= k < |pool| && !pool[k].active && ActivateNext(pool, r).value.0[k].active &&
              forall j :: 0 <= j < |pool| && j != k ==> ActivateNext(pool, r).value.0[j] == pool[j]
  {
    var k :| 0 <= k < |pool| && FirstInactiveFrom(pool, r % |pool|, k) &&
      ActivateNext(pool, r).value.0 == pool[k := pool[k].(active := true)];
  }

  /** On a pool with every slot free the probe takes the start slot itself. */
  lemma ActivateFreePoolTakesStart(pool: Pool, r: nat)
    requires |pool| > 0 && forall i :: 0 <= i < |pool| ==> !pool[i].active
    ensures ActivateNext(pool, r) == Ok((pool[r % |pool| := pool[r % |pool|].(active := true)], Some(pool[r % |pool|].id)))
  {
    ModUnique(r % |pool|, 0, r % |pool|, |pool|);
    assert ProbeAt(|pool|, r % |pool|, 0) == r % |pool|;
  }

  /** `deactivate(id)`: every slot holding `id` becomes inactive. */
  function Deactivate(pool: Pool, id: nat): (r: Pool)
    ensures |r| == |pool|
    ensures forall i :: 0 <= i < |pool| ==>
      r[i].id == pool[i].id && r[i].additionalSpeed == pool[i].additionalSpeed &&
      (r[i].active <==> pool[i].active && pool[i].id != id)
  {
    if |pool| == 0 then []
    else
      var head := if pool[0].id == id then pool[0].(active := false) else pool[0];
      [head] + Deactivate(pool[1..], id)
  }

  /** `deactivate_all`. */
  function DeactivateAll(pool: Pool): (r: Pool)
    ensures |r| == |pool|
    ensures forall i :: 0 <= i < |pool| ==>
      !r[i].active && r[i].id == pool[i].id && r[i].additionalSpeed == pool[i].additionalSpeed
  {
    seq(|pool|, i requires 0 <= i < |pool| => pool[i].(active := false))
  }

  /** The ids of the slots, in slot order (`ObstacleManager::ids`). */
  function Ids(pool: Pool): (r: seq<nat>)
    ensures |r| == |pool| && forall i :: 0 <= i < |pool| ==> r[i] == pool[i].id
  {
    seq(|pool|, i requires 0 <= i < |pool| => pool[i].id)
  }

  /** Activation, deactivation and reset never change which ids are pooled. */
  lemma IdsStable(pool: Pool, r: nat, id: nat)
    ensures Ids(Deactivate(pool, id)) == Ids(pool)
    ensures Ids(DeactivateAll(pool)) == Ids(pool)
    ensures ActivateNext(pool, r).Ok? ==> Ids(ActivateNext(pool, r).value.0) == Ids(pool)
  {
    if ActivateNext(pool, r).Ok? && ActivateNext(pool, r).value.1.Some? {
      ActivateNextPicksInactive(pool, r);
    }
  }
}
