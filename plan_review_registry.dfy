/**
 * The table of plan reviews that are waiting for an answer, keyed by review
 * id. In the extension each entry is the `resolve` function of the promise a
 * review is awaiting; here that continuation is a `Slot` object the waiting
 * review holds, and resolving an entry fills the slot.
 */
module PlanReviewRegistry {

  import opened Wrappers
  import opened PlanReviewTypes

  /**
   * The continuation of one waiting review. Like a promise's `resolve`, its
   * first call delivers the result and any later call has no effect.
   */
  class Slot {
    var result: Option<PanelResult>

    constructor ()
      ensures result == None
    {
      result := None;
    }

    method Deliver(r: PanelResult)
      modifies this
      ensures result == if old(result).None? then Some(r) else old(result)
    {
      if result.None? {
        result := Some(r);
      }
    }
  }

  /** The module-level `pendingReviews` map. */
  class Registry {
    var entries: map<string, Slot>

    /**
     * Every registered continuation is still waiting, and no two ids share
     * one (each review registers its own promise).
     */
    ghost predicate Valid()
      reads this, entries.Values
    {
      && (forall id | id in entries :: entries[id].result.None?)
      && (forall a, b | a in entries && b in entries && a != b :: entries[a] != entries[b])
    }

    constructor ()
      ensures Valid() && entries == map[]
    {
      entries := map[];
    }

    /** `pendingReviews.set(id, resolve)`: a later registration under the same id replaces the earlier one. */
    method Register(id: string, slot: Slot)
      requires Valid()
      requires slot.result.None? && slot !in entries.Values
      modifies this
      ensures Valid()
      ensures entries == old(entries)[id := slot]
    {
      entries := entries[id := slot];
    }

    /**
     * `resolvePlanReview`: when `id` is waiting, deliver `r` to its
     * continuation, drop the entry and answer true; otherwise answer false and
     * change nothing. Only the resolved entry's slot is touched.
     */
    method Resolve(id: string, r: PanelResult) returns (resolved: bool)
      requires Valid()
      modifies this, if id in entries then {entries[id]} else {}
      ensures Valid()
      ensures resolved == (id in old(entries))
      ensures entries == old(entries) - {id}
      ensures resolved ==> old(entries)[id].result == Some(r)
    {
      if id in entries {
        var slot := entries[id];
        slot.Deliver(r);
        entries := entries - {id};
        resolved := true;
      } else {
        resolved := false;
      }
    }

    /** `pendingReviews.delete(id)`: drop the entry without calling its continuation. */
    method Unregister(id: string)
      requires Valid()
      modifies this
      ensures Valid()
      ensures entries == old(entries) - {id}
    {
      entries := entries - {id};
    }
  }

  /**
   * Two surfaces answer the same review: the first answer is delivered, the
   * second finds no entry and reports false, and the continuation keeps the
   * first answer.
   */
  method ResolveTwice(reg: Registry, id: string, first: PanelResult, second: PanelResult)
    returns (firstResolved: bool, secondResolved: bool)
    requires reg.Valid() && id in reg.entries
    modifies reg, reg.entries[id]
    ensures reg.Valid()
    ensures firstResolved && !secondResolved
    ensures old(reg.entries)[id].result == Some(first)
    ensures reg.entries == old(reg.entries) - {id}
  {
    firstResolved := reg.Resolve(id, first);
    secondResolved := reg.Resolve(id, second);
  }
}
