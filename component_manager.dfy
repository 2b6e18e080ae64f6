/** The sparse component tables of `ComponentManager` in src/lib.rs: one
    `Vec<Option<T>>` per component kind, indexed by entity id, that grows
    when a component is set and whose slots are emptied when an entity is
    removed. The component types themselves (floating-point vectors, GPU
    handles) are type parameters: the tables never look inside them. */
module ComponentManagers {
  import opened Wrappers
  import opened EntityManagers

  /* ---------------- one table ---------------- */

  /** `get_component`: the component stored for `entity`, if its slot
      exists and is filled. */
  function GetComponent<T>(pool: seq<Option<T>>, entity: Entity): (r: Option<T>)
    ensures r.Some? <==> entity.id < |pool| && pool[entity.id].Some?
    ensures r.Some? ==> pool[entity.id] == r
  {
    if entity.id < |pool| then pool[entity.id] else None
  }

  /** `Vec::resize(n, value)`: cut to `n` slots, or padded with `value` up
      to `n`. */
  function Resized<T>(pool: seq<Option<T>>, n: nat, value: Option<T>): (r: seq<Option<T>>)
    ensures |r| == n
    ensures forall i :: 0 <= i < n && i < |pool| ==> r[i] == pool[i]
    ensures forall i :: |pool| <= i < n ==> r[i] == value
  {
    if n <= |pool| then pool[..n] else pool + seq(n - |pool|, _ => value)
  }

  /** What `set_component(pool, entity, c)` leaves in `after`: at least
      `entity + 1` slots and no more than needed for that, `c` in the
      entity's slot, every other old slot as it was and every new slot
      empty. */
  ghost predicate Placed<T>(before: seq<Option<T>>, after: seq<Option<T>>, entity: Entity, c: T)
  {
    && |after| == (if entity.id < |before| then |before| else entity.id + 1)
    && after[entity.id] == Some(c)
    && (forall i :: 0 <= i < |before| && i != entity.id ==> after[i] == before[i])
    && (forall i :: |before| <= i < |after| && i != entity.id ==> after[i] == None)
  }

  /** `set_component`: replace the slot when it exists; otherwise grow the
      table to `entity + 1` empty slots and try again, which then finds the
      slot, so the recursion is one level deep. */
  method SetComponent<T>(pool: seq<Option<T>>, entity: Entity, component: T) returns (r: seq<Option<T>>)
    ensures Placed(pool, r, entity, component)
    decreases if entity.id < |pool| then 0 else 1
  {
    if entity.id < |pool| {
      r := pool[entity.id := Some(component)];
    } else {
      var grown := Resized(pool, entity.id + 1, None);
      r := SetComponent(grown, entity, component);
    }
  }

  /** What an `update_*_component` call with the in-place edit `f` leaves
      in `after`: the same length, `f` applied to the entity's component if
      it has one, and every other slot as it was. */
  ghost predicate Edited<T>(before: seq<Option<T>>, after: seq<Option<T>>, entity: Entity, f: T -> T)
  {
    && |after| == |before|
    && (forall i :: 0 <= i < |before| && i != entity.id ==> after[i] == before[i])
    && (entity.id < |before| ==>
          after[entity.id] == (if before[entity.id].Some? then Some(f(before[entity.id].value)) else None))
  }

  /** The body shared by the five `update_*_component` methods: call `f` on
      the entity's component when the slot exists and is filled. */
  method UpdateComponent<T>(pool: seq<Option<T>>, entity: Entity, f: T -> T) returns (r: seq<Option<T>>)
    ensures Edited(pool, r, entity, f)
  {
    r := pool;
    if entity.id < |pool| {
      var entry := pool[entity.id];
      if entry.Some? {
        r := pool[entity.id := Some(f(entry.value))];
      }
    }
  }

  /** What one step of `remove_entity` leaves in `after`: the same length,
      the entity's slot empty, every other slot as it was. */
  ghost predicate Emptied<T>(before: seq<Option<T>>, after: seq<Option<T>>, entity: Entity)
  {
    && |after| == |before|
    && (forall i :: 0 <= i < |before| && i != entity.id ==> after[i] == before[i])
    && (entity.id < |before| ==> after[entity.id] == None)
  }

  /** One `if let Some(c) = pool.get_mut(id) { *c = None }` of
      `remove_entity`. */
  method ClearComponent<T>(pool: seq<Option<T>>, entity: Entity) returns (r: seq<Option<T>>)
    ensures Emptied(pool, r, entity)
  {
    r := pool;
    if entity.id < |pool| {
      r := pool[entity.id := None];
    }
  }

  /* ---------------- reading a table after a change ---------------- */

  /** After a set, the entity's component is the one set, and every other
      entity reads as before. */
  lemma GetAfterSet<T>(before: seq<Option<T>>, after: seq<Option<T>>, entity: Entity, c: T, other: Entity)
    requires Placed(before, after, entity, c)
    ensures GetComponent(after, entity) == Some(c)
    ensures other != entity ==> GetComponent(after, other) == GetComponent(before, other)
  {
  }

  /** Setting twice is setting the second component: the table the second
      set leaves has the same length and contents as a single set. */
  lemma SetTwice<T>(p0: seq<Option<T>>, p1: seq<Option<T>>, p2: seq<Option<T>>, entity: Entity, c: T, d: T)
    requires Placed(p0, p1, entity, c) && Placed(p1, p2, entity, d)
    ensures Placed(p0, p2, entity, d)
  {
  }

  /** Setting only ever grows a table, to just cover the entity. */
  lemma SetGrows<T>(before: seq<Option<T>>, after: seq<Option<T>>, entity: Entity, c: T)
    requires Placed(before, after, entity, c)
    ensures |after| >= |before| && |after| > entity.id
    ensures |after| > |before| ==> |after| == entity.id + 1
  {
  }

  /** After an update the entity reads as `f` of what it held, or still
      nothing; an entity without a component is not touched at all; every
      other entity reads as before. */
  lemma GetAfterUpdate<T>(before: seq<Option<T>>, after: seq<Option<T>>, entity: Entity, f: T -> T, other: Entity)
    requires Edited(before, after, entity, f)
    ensures GetComponent(after, entity) ==
      (if GetComponent(before, entity).Some? then Some(f(GetComponent(before, entity).value)) else None)
    ensures GetComponent(before, entity) == None ==> after == before
    ensures other != entity ==> GetComponent(after, other) == GetComponent(before, other)
  {
    if GetComponent(before, entity) == None {
      assert forall i :: 0 <= i < |before| ==> after[i] == before[i];
    }
  }

  /** After clearing, the entity has no component and every other entity
      reads as before. */
  lemma GetAfterClear<T>(before: seq<Option<T>>, after: seq<Option<T>>, entity: Entity, other: Entity)
    requires Emptied(before, after, entity)
    ensures GetComponent(after, entity) == None
    ensures other != entity ==> GetComponent(after, other) == GetComponent(before, other)
  {
  }

  /** Clearing and then setting reads, entity by entity, like setting on
      the old table. */
  lemma ClearThenSet<T>(p0: seq<Option<T>>, p1: seq<Option<T>>, p2: seq<Option<T>>, entity: Entity, c: T, other: Entity)
    requires Emptied(p0, p1, entity) && Placed(p1, p2, entity, c)
    ensures GetComponent(p2, entity) == Some(c)
    ensures other != entity ==> GetComponent(p2, other) == GetComponent(p0, other)
  {
  }

  /* ---------------- the manager ---------------- */

  /** The eight tables, one per component kind, in the field order of
      src/lib.rs. */
  class ComponentManager<Position, Render, Body, Collision, Bullet, Orientation, Health, OffArena> {
    var position: seq<Option<Position>>
    var render: seq<Option<Render>>
    var body: seq<Option<Body>>
    var collision: seq<Option<Collision>>
    var bullet: seq<Option<Bullet>>
    var orientation: seq<Option<Orientation>>
    var health: seq<Option<Health>>
    var offArena: seq<Option<OffArena>>

    constructor()
      ensures position == [] && render == [] && body == [] && collision == []
      ensures bullet == [] && orientation == [] && health == [] && offArena == []
    {
      position := [];
      render := [];
      body := [];
      collision := [];
      bullet := [];
      orientation := [];
      health := [];
      offArena := [];
    }

    /* setters: the named table gets the component, the others stay */

    method SetRenderComponent(entity: Entity, component: Render)
      modifies this
      ensures Placed(old(render), render, entity, component)
      ensures position == old(position) && body == old(body) && collision == old(collision)
      ensures bullet == old(bullet) && orientation == old(orientation) && health == old(health)
      ensures offArena == old(offArena)
    {
      render := SetComponent(render, entity, component);
    }

    method SetPositionComponent(entity: Entity, component: Position)
      modifies this
      ensures Placed(old(position), position, entity, component)
      ensures render == old(render) && body == old(body) && collision == old(collision)
      ensures bullet == old(bullet) && orientation == old(orientation) && health == old(health)
      ensures offArena == old(offArena)
    {
      position := SetComponent(position, entity, component);
    }

    method SetBodyComponent(entity: Entity, component: Body)
      modifies this
      ensures Placed(old(body), body, entity, component)
      ensures position == old(position) && render == old(render) && collision == old(collision)
      ensures bullet == old(bullet) && orientation == old(orientation) && health == old(health)
      ensures offArena == old(offArena)
    {
      body := SetComponent(body, entity, component);
    }

    method SetCollisionComponent(entity: Entity, component: Collision)
      modifies this
      ensures Placed(old(collision), collision, entity, component)
      ensures position == old(position) && render == old(render) && body == old(body)
      ensures bullet == old(bullet) && orientation == old(orientation) && health == old(health)
      ensures offArena == old(offArena)
    {
      collision := SetComponent(collision, entity, component);
    }

    method SetBulletComponent(entity: Entity, component: Bullet)
      modifies this
      ensures Placed(old(bullet), bullet, entity, component)
      ensures position == old(position) && render == old(render) && body == old(body)
      ensures collision == old(collision) && orientation == old(orientation) && health == old(health)
      ensures offArena == old(offArena)
    {
      bullet := SetComponent(bullet, entity, component);
    }

    method SetOrientationComponent(entity: Entity, component: Orientation)
      modifies this
      ensures Placed(old(orientation), orientation, entity, component)
      ensures position == old(position) && render == old(render) && body == old(body)
      ensures collision == old(collision) && bullet == old(bullet) && health == old(health)
      ensures offArena == old(offArena)
    {
      orientation := SetComponent(orientation, entity, component);
    }

    method SetHealthComponent(entity: Entity, component: Health)
      modifies this
      ensures Placed(old(health), health, entity, component)
      ensures position == old(position) && render == old(render) && body == old(body)
      ensures collision == old(collision) && bullet == old(bullet) && orientation == old(orientation)
      ensures offArena == old(offArena)
    {
      health := SetComponent(health, entity, component);
    }

    method SetOffArenaDebuffComponent(entity: Entity, component: OffArena)
      modifies this
      ensures Placed(old(offArena), offArena, entity, component)
      ensures position == old(position) && render == old(render) && body == old(body)
      ensures collision == old(collision) && bullet == old(bullet) && orientation == old(orientation)
      ensures health == old(health)
    {
      offArena := SetComponent(offArena, entity, component);
    }

    /* getters: there are none for the render and collision tables */

    function GetPositionComponent(entity: Entity): (r: Option<Position>)
      reads this
      ensures r.Some? <==> entity.id < |position| && position[entity.id].Some?
      ensures r.Some? ==> position[entity.id] == r
    {
      GetComponent(position, entity)
    }

    function GetOrientationComponent(entity: Entity): (r: Option<Orientation>)
      reads this
      ensures r.Some? <==> entity.id < |orientation| && orientation[entity.id].Some?
      ensures r.Some? ==> orientation[entity.id] == r
    {
      GetComponent(orientation, entity)
    }

    function GetBodyComponent(entity: Entity): (r: Option<Body>)
      reads this
      ensures r.Some? <==> entity.id < |body| && body[entity.id].Some?
      ensures r.Some? ==> body[entity.id] == r
    {
      GetComponent(body, entity)
    }

    function GetBulletComponent(entity: Entity): (r: Option<Bullet>)
      reads this
      ensures r.Some? <==> entity.id < |bullet| && bullet[entity.id].Some?
      ensures r.Some? ==> bullet[entity.id] == r
    {
      GetComponent(bullet, entity)
    }

    function GetHealthComponent(entity: Entity): (r: Option<Health>)
      reads this
      ensures r.Some? <==> entity.id < |health| && health[entity.id].Some?
      ensures r.Some? ==> health[entity.id] == r
    {
      GetComponent(health, entity)
    }

    function GetOffArenaDebuffComponent(entity: Entity): (r: Option<OffArena>)
      reads this
      ensures r.Some? <==> entity.id < |offArena| && offArena[entity.id].Some?
      ensures r.Some? ==> offArena[entity.id] == r
    {
      GetComponent(offArena, entity)
    }

    /* updaters: only position, body, orientation, health and off-arena */

    method UpdatePositionComponent(entity: Entity, f: Position -> Position)
      modifies this
      ensures Edited(old(position), position, entity, f)
      ensures render == old(render) && body == old(body) && collision == old(collision)
      ensures bullet == old(bullet) && orientation == old(orientation) && health == old(health)
      ensures offArena == old(offArena)
    {
      position := UpdateComponent(position, entity, f);
    }

    method UpdateBodyComponent(entity: Entity, f: Body -> Body)
      modifies this
      ensures Edited(old(body), body, entity, f)
      ensures position == old(position) && render == old(render) && collision == old(collision)
      ensures bullet == old(bullet) && orientation == old(orientation) && health == old(health)
      ensures offArena == old(offArena)
    {
      body := UpdateComponent(body, entity, f);
    }

    method UpdateOrientationComponent(entity: Entity, f: Orientation -> Orientation)
      modifies this
      ensures Edited(old(orientation), orientation, entity, f)
      ensures position == old(position) && render == old(render) && body == old(body)
      ensures collision == old(collision) && bullet == old(bullet) && health == old(health)
      ensures offArena == old(offArena)
    {
      orientation := UpdateComponent(orientation, entity, f);
    }

    method UpdateHealthComponent(entity: Entity, f: Health -> Health)
      modifies this
      ensures Edited(old(health), health, entity, f)
      ensures position == old(position) && render == old(render) && body == old(body)
      ensures collision == old(collision) && bullet == old(bullet) && orientation == old(orientation)
      ensures offArena == old(offArena)
    {
      health := UpdateComponent(health, entity, f);
    }

    method UpdateOffArenaDebuffComponent(entity: Entity, f: OffArena -> OffArena)
      modifies this
      ensures Edited(old(offArena), offArena, entity, f)
      ensures position == old(position) && render == old(render) && body == old(body)
      ensures collision == old(collision) && bullet == old(bullet) && orientation == old(orientation)
      ensures health == old(health)
    {
      offArena := UpdateComponent(offArena, entity, f);
    }

    /** `remove_entity`: empties the entity's slot in seven tables; the
        orientation table is left as it was. */
    method RemoveEntity(entity: Entity)
      modifies this
      ensures Emptied(old(position), position, entity)
      ensures Emptied(old(render), render, entity)
      ensures Emptied(old(body), body, entity)
      ensures Emptied(old(collision), collision, entity)
      ensures Emptied(old(bullet), bullet, entity)
      ensures Emptied(old(health), health, entity)
      ensures Emptied(old(offArena), offArena, entity)
      ensures orientation == old(orientation)
    {
      position := ClearComponent(position, entity);
      render := ClearComponent(render, entity);
      body := ClearComponent(body, entity);
      collision := ClearComponent(collision, entity);
      bullet := ClearComponent(bullet, entity);
      health := ClearComponent(health, entity);
      offArena := ClearComponent(offArena, entity);
    }
  }

  /** Setting an orientation and then removing the entity: the position
      reads as absent, but the orientation is still there, because
      `remove_entity` does not clear that table. */
  method RemoveKeepsOrientation<P, R, B, C, U, O, H, A>(m: ComponentManager<P, R, B, C, U, O, H, A>, entity: Entity, o: O)
      returns (before: Option<O>, after: Option<O>, position: Option<P>)
    modifies m
    ensures before == Some(o) && after == Some(o) && position == None
  {
    m.SetOrientationComponent(entity, o);
    before := m.GetOrientationComponent(entity);
    m.RemoveEntity(entity);
    after := m.GetOrientationComponent(entity);
    position := m.GetPositionComponent(entity);
  }
}
