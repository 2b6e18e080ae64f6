/** The entity id allocator of src/entity_manager.rs: a high-water mark
    `next`, a set `deleted` of freed ids below it, and an iterator over the
    live ids. */
module EntityManagers {
  import opened BigEndian
  import opened Wrappers

  /** An entity handle, `Entity(u32)` of src/lib.rs. */
  datatype Entity = Entity(id: u32)

  /* ---------------- the allocator's state, as a value ---------------- */

  /** The two fields of an `EntityManager`. */
  datatype Ids = Ids(next: u32, deleted: set<u32>)

  /** The state `EntityManager::new` starts from. */
  const NoIds: Ids := Ids(0, {})

  /** Every freed id lies below the high-water mark. While this holds, the
      live ids are exactly those handed out and not yet removed. */
  predicate Tidy(s: Ids)
  {
    forall d :: d in s.deleted ==> d < s.next
  }

  /** The ids the iterator yields: below `next` and not freed. */
  function LiveIds(s: Ids): set<u32>
  {
    set i: u32 | i < s.next && i !in s.deleted
  }

  /** `next_entity` hands out `id` and moves from `s` to `t`: some freed id
      (the hash set's first, which the model leaves open) when there is one,
      otherwise the high-water mark, which then grows by one. The increment
      is in range only below `u32::MAX`; Rust's overflow check stops it
      there. */
  predicate Allocates(s: Ids, id: u32, t: Ids)
  {
    if s.deleted != {} then
      id in s.deleted && t == Ids(s.next, s.deleted - {id})
    else
      id == s.next && s.next < 0xFFFF_FFFF && t == Ids(s.next + 1, {})
  }

  /** `remove_entity` as lines 36-49 write it: nothing happens when no id
      was ever handed out or `id` lies above `next - 1`; removing
      `next - 1` lowers `next` to it; removing a smaller id frees it. The
      second branch leaves `deleted` as it was, even if it holds `id`. */
  function RemovedAsWritten(s: Ids, id: u32): Ids
  {
    if s.next == 0 then s
    else if id == s.next - 1 then Ids(id, s.deleted)
    else if id < s.next - 1 then Ids(s.next, s.deleted + {id})
    else s
  }

  /** `remove_entity` with the second branch also dropping `id` from
      `deleted`, so that no freed id is left at or above the new `next`. */
  function Removed(s: Ids, id: u32): Ids
  {
    if s.next == 0 then s
    else if id == s.next - 1 then Ids(id, s.deleted - {id})
    else if id < s.next - 1 then Ids(s.next, s.deleted + {id})
    else s
  }

  /* ---------------- what the allocator keeps ---------------- */

  /** A fresh allocator is tidy and has no live id. */
  lemma NoIdsLive()
    ensures Tidy(NoIds) && LiveIds(NoIds) == {}
  {
  }

  /** From a tidy state, an allocation hands out an id that was not live,
      makes it live, changes nothing else and stays tidy. */
  lemma AllocatesLive(s: Ids, id: u32, t: Ids)
    requires Tidy(s) && Allocates(s, id, t)
    ensures id !in LiveIds(s)
    ensures LiveIds(t) == LiveIds(s) + {id}
    ensures Tidy(t)
  {
    if s.deleted != {} {
      assert id < s.next;
    }
  }

  /** Without freed ids the allocation is determined: the high-water mark. */
  lemma AllocatesFromNone(s: Ids, id: u32, t: Ids)
    requires s.deleted == {}
    ensures Allocates(s, id, t) <==> s.next < 0xFFFF_FFFF && id == s.next && t == Ids(s.next + 1, {})
  {
  }

  /** From a tidy state, the corrected removal makes `id` not live, changes
      no other id and stays tidy. */
  lemma RemovedLive(s: Ids, id: u32)
    requires Tidy(s)
    ensures LiveIds(Removed(s, id)) == LiveIds(s) - {id}
    ensures Tidy(Removed(s, id))
  {
  }

  /** The removal as written retires the right id, but it leaves the state
      tidy exactly unless it lowers `next` onto an id that is still freed. */
  lemma RemovedAsWrittenLive(s: Ids, id: u32)
    requires Tidy(s)
    ensures LiveIds(RemovedAsWritten(s, id)) == LiveIds(s) - {id}
    ensures Tidy(RemovedAsWritten(s, id)) <==> !(s.next > 0 && id == s.next - 1 && id in s.deleted)
  {
    if s.next > 0 && id == s.next - 1 && id in s.deleted {
      assert id in RemovedAsWritten(s, id).deleted;
    }
  }

  /** The two removals differ exactly in that case. */
  lemma RemovalsAgree(s: Ids, id: u32)
    ensures Removed(s, id) == RemovedAsWritten(s, id) <==>
      !(s.next > 0 && id == s.next - 1 && id in s.deleted)
  {
    if s.next > 0 && id == s.next - 1 && id in s.deleted {
      assert id !in Removed(s, id).deleted;
    }
  }

  /** "new, new, delete 0, delete 1, delete 0, new" with the removal as
      written: the last allocation hands out 0 again, yet 0 is not among
      the live ids, though id 0 was handed out and not removed since. */
  lemma ReuseAfterDoubleRemove(a: u32, s1: Ids, b: u32, s2: Ids, c: u32, s6: Ids)
    requires Allocates(NoIds, a, s1) && Allocates(s1, b, s2)
    requires Allocates(RemovedAsWritten(RemovedAsWritten(RemovedAsWritten(s2, 0), 1), 0), c, s6)
    ensures a == 0 && b == 1 && c == 0
    ensures 0 !in LiveIds(s6)
  {
    AllocatesFromNone(NoIds, a, s1);
    AllocatesFromNone(s1, b, s2);
    assert s2 == Ids(2, {});
    var s5 := RemovedAsWritten(RemovedAsWritten(RemovedAsWritten(s2, 0), 1), 0);
    assert s5 == Ids(0, {0});
  }

  /** The same sequence with the corrected removal: id 0 is live again. */
  lemma ReuseAfterDoubleRemoveFixed(a: u32, s1: Ids, b: u32, s2: Ids, c: u32, s6: Ids)
    requires Allocates(NoIds, a, s1) && Allocates(s1, b, s2)
    requires Allocates(Removed(Removed(Removed(s2, 0), 1), 0), c, s6)
    ensures a == 0 && b == 1 && c == 0
    ensures LiveIds(s6) == {0}
  {
    AllocatesFromNone(NoIds, a, s1);
    AllocatesFromNone(s1, b, s2);
    assert s2 == Ids(2, {});
    var s5 := Removed(Removed(Removed(s2, 0), 1), 0);
    assert s5 == Ids(0, {});
    AllocatesFromNone(s5, c, s6);
    assert s6 == Ids(1, {});
  }

  /* ---------------- the iterator's output ---------------- */

  /** What an iterator at `current` below `upper` still yields: the ids of
      `current..upper` not in `deleted`, in order. */
  function Yields(current: u32, upper: u32, deleted: set<u32>): seq<u32>
    decreases upper - current
  {
    if current < upper then
      if current in deleted then Yields(current + 1, upper, deleted)
      else [current] + Yields(current + 1, upper, deleted)
    else []
  }

  /** An id is yielded exactly when it lies in `current..upper` and is not
      freed. */
  lemma {:induction false} YieldsMembers(current: u32, upper: u32, deleted: set<u32>, x: u32)
    ensures x in Yields(current, upper, deleted) <==> current <= x < upper && x !in deleted
    decreases upper - current
  {
    if current < upper {
      YieldsMembers(current + 1, upper, deleted, x);
    }
  }

  /** Strictly increasing, so without repeats. */
  predicate Increasing(ys: seq<u32>)
  {
    forall i, j :: 0 <= i < j < |ys| ==> ys[i] < ys[j]
  }

  /** The ids come out strictly increasing, so each at most once. */
  lemma {:induction false} YieldsIncreasing(current: u32, upper: u32, deleted: set<u32>)
    ensures Increasing(Yields(current, upper, deleted))
    decreases upper - current
  {
    if current < upper {
      var rest := Yields(current + 1, upper, deleted);
      YieldsIncreasing(current + 1, upper, deleted);
      if current !in deleted {
        var ys := [current] + rest;
        forall i, j | 0 <= i < j < |ys|
          ensures ys[i] < ys[j]
        {
          assert ys[j] == rest[j - 1];
          YieldsMembers(current + 1, upper, deleted, rest[j - 1]);
          if i > 0 {
            assert ys[i] == rest[i - 1];
          }
        }
      }
    }
  }

  /** A fresh iterator over an allocator yields its live ids and nothing
      else, in increasing order. */
  lemma IterYieldsLive(s: Ids)
    ensures forall x :: x in Yields(0, s.next, s.deleted) <==> x in LiveIds(s)
    ensures Increasing(Yields(0, s.next, s.deleted))
  {
    forall x: u32
      ensures x in Yields(0, s.next, s.deleted) <==> x in LiveIds(s)
    {
      YieldsMembers(0, s.next, s.deleted, x);
    }
    YieldsIncreasing(0, s.next, s.deleted);
  }

  /* ---------------- the objects ---------------- */

  /** `EntityIterator`: a cursor `current` running up to `upper` and
      skipping what `deleted` holds. The borrowed set is held by value; the
      allocator cannot change while the iterator borrows it. */
  class EntityIterator {
    var current: u32
    var upper: u32
    var deleted: set<u32>

    constructor(upper: u32, deleted: set<u32>)
      ensures this.current == 0 && this.upper == upper && this.deleted == deleted
    {
      this.current := 0;
      this.upper := upper;
      this.deleted := deleted;
    }

    /** `Iterator::next`: the first id still to come, or `None` when none
        is left; the rest of the output is what remains after it. */
    method Next() returns (r: Option<Entity>)
      modifies this
      ensures upper == old(upper) && deleted == old(deleted)
      ensures r.None? <==> Yields(old(current), upper, deleted) == []
      ensures r.Some? ==> Yields(old(current), upper, deleted) == [r.value.id] + Yields(current, upper, deleted)
      ensures r.Some? ==> current == r.value.id + 1
      ensures r.None? ==> current == if old(current) < upper then upper else old(current)
      decreases upper - current
    {
      if current < upper {
        var entity := current;
        current := current + 1;
        if entity in deleted {
          r := Next();
        } else {
          r := Some(Entity(entity));
        }
      } else {
        r := None;
      }
    }
  }

  class EntityManager {
    var next: u32
    var deleted: set<u32>

    function State(): Ids
      reads this
    {
      Ids(next, deleted)
    }

    /** Every freed id lies below `next`; see `Tidy`. */
    ghost predicate Valid()
      reads this
    {
      Tidy(State())
    }

    /** The ids handed out and not removed, when `Valid()` holds. */
    function Live(): set<u32>
      reads this
    {
      LiveIds(State())
    }

    constructor()
      ensures State() == NoIds
      ensures Valid() && Live() == {}
    {
      next := 0;
      deleted := {};
    }

    /** `next_entity`: reuses a freed id when there is one, otherwise hands
        out `next` and moves it up. */
    method NextEntity() returns (e: Entity)
      requires deleted != {} || next < 0xFFFF_FFFF
      modifies this
      ensures Allocates(old(State()), e.id, State())
      ensures old(Valid()) ==> Valid() && e.id !in old(Live()) && Live() == old(Live()) + {e.id}
    {
      if deleted != {} {
        var id :| id in deleted;
        deleted := deleted - {id};
        e := Entity(id);
      } else {
        var n := next;
        next := next + 1;
        e := Entity(n);
      }
      if old(Valid()) {
        AllocatesLive(old(State()), e.id, State());
      }
    }

    /** `remove_entity`, dropping the removed id from `deleted` when it
        lowers `next`; see `RemovedAsWritten` for the code as written. */
    method RemoveEntity(entity: Entity)
      modifies this
      ensures State() == Removed(old(State()), entity.id)
      ensures old(Valid()) ==> Valid() && Live() == old(Live()) - {entity.id}
    {
      if next >= 1 {
        var last := next - 1;
        if entity.id == last {
          next := entity.id;
          deleted := deleted - {entity.id};
        } else if entity.id < last {
          deleted := deleted + {entity.id};
        }
      }
      if old(Valid()) {
        RemovedLive(old(State()), entity.id);
      }
    }

    /** `remove_entity` exactly as lines 36-49 write it: the `Equal` branch
        only lowers `next`, so an id already in `deleted` stays there and
        the state stops being tidy (see `ReuseAfterDoubleRemove`). */
    method RemoveEntityAsWritten(entity: Entity)
      modifies this
      ensures State() == RemovedAsWritten(old(State()), entity.id)
      ensures old(Valid()) ==> Live() == old(Live()) - {entity.id}
      ensures old(Valid()) ==>
        (Valid() <==> !(old(next) > 0 && entity.id == old(next) - 1 && entity.id in old(deleted)))
    {
      if next >= 1 {
        var last := next - 1;
        if entity.id == last {
          next := entity.id;
        } else if entity.id < last {
          deleted := deleted + {entity.id};
        }
      }
      if old(Valid()) {
        RemovedAsWrittenLive(old(State()), entity.id);
      }
    }

    /** `iter`: an iterator over `0..next` skipping the freed ids. */
    method Iter() returns (it: EntityIterator)
      ensures fresh(it)
      ensures it.current == 0 && it.upper == next && it.deleted == deleted
      ensures forall x :: x in Yields(it.current, it.upper, it.deleted) <==> x in Live()
      ensures Increasing(Yields(it.current, it.upper, it.deleted))
    {
      it := new EntityIterator(next, deleted);
      IterYieldsLive(State());
    }
  }

  /** The double removal of `ReuseAfterDoubleRemove`, played on the class
      with `remove_entity` as written: the last `next_entity` hands out 0,
      while the manager counts no id as live. */
  method DoubleRemoveAsWritten() returns (e: Entity, live: set<u32>)
    ensures e == Entity(0) && live == {}
  {
    var m := new EntityManager();
    var a := m.NextEntity();
    var b := m.NextEntity();
    m.RemoveEntityAsWritten(Entity(0));
    m.RemoveEntityAsWritten(Entity(1));
    m.RemoveEntityAsWritten(Entity(0));
    assert m.State() == Ids(0, {0});
    e := m.NextEntity();
    live := m.Live();
  }
}
