/**
 * ObjectsPool: instances made from a prefab are reused. Each prefab, known
 * by its instance id, has a stack of idle instances; GetOrCreate takes the
 * most recently returned one or instantiates a new one, and an instance
 * returns itself through the handler the pool subscribed when it made it.
 */
module Pooling {
  import opened Wrappers
  import opened Geometry

  /** An instance the pool created, numbered in creation order. */
  type InstanceId = nat

  /** Unity's GetInstanceID of a prefab; it may be negative. */
  type PrefabId = int

  class ObjectsPool {
    /** The idle instances of each prefab seen so far; the top of a stack is its last element. */
    var pool: map<PrefabId, seq<InstanceId>>
    /** PrefabInstanceID of every instance made so far. */
    var prefabOf: map<InstanceId, PrefabId>
    var active: map<InstanceId, bool>
    var position: map<InstanceId, Vec3>
    /** How many instances Instantiate made. */
    var created: nat

    /**
     * The instances made are exactly 0 .. created - 1, and every idle
     * instance sits in the stack of the prefab it was made from.
     */
    ghost predicate Valid()
      reads this
    {
      (forall x: InstanceId :: x in prefabOf <==> x < created)
      && (forall x: InstanceId :: x in active <==> x < created)
      && (forall x: InstanceId :: x in position <==> x < created)
      && forall id, k :: id in pool && 0 <= k < |pool[id]| ==> pool[id][k] in prefabOf && prefabOf[pool[id][k]] == id
    }

    constructor ()
      ensures Valid() && pool == map[] && created == 0
    {
      pool := map[];
      prefabOf := map[];
      active := map[];
      position := map[];
      created := 0;
    }

    /** GetObjects: the prefab's stack, made empty and added when the prefab is new. */
    method GetObjects(id: PrefabId) returns (objects: seq<InstanceId>)
      requires Valid()
      modifies this`pool
      ensures Valid()
      ensures id in old(pool) ==> pool == old(pool) && objects == pool[id]
      ensures id !in old(pool) ==> pool == old(pool)[id := []] && objects == []
    {
      if id !in pool {
        pool := pool[id := []];
      }
      objects := pool[id];
    }

    /**
     * GetOrCreate: a null prefab throws; an idle instance of the prefab is
     * popped (the one returned last), moved to the position and
     * reactivated; with none idle a new instance is made there, tagged with
     * the prefab's id.
     */
    method GetOrCreate(prefab: Option<PrefabId>, at: Vec3) returns (r: Result<InstanceId>)
      requires Valid()
      modifies this
      ensures Valid()
      ensures r.Err? <==> prefab.None?
      ensures r.Err? ==> r.error == ArgumentNull && unchanged(this)
      ensures r.Ok? && prefab.value in old(pool) && old(pool)[prefab.value] != [] ==>
                var stack := old(pool)[prefab.value];
                r.value == stack[|stack| - 1] && pool == old(pool)[prefab.value := stack[..|stack| - 1]]
                && created == old(created) && prefabOf == old(prefabOf)
      ensures r.Ok? && (prefab.value !in old(pool) || old(pool)[prefab.value] == []) ==>
                r.value == old(created) && created == old(created) + 1
                && pool == old(pool)[prefab.value := []] && prefabOf == old(prefabOf)[r.value := prefab.value]
      ensures r.Ok? ==> r.value in prefabOf && prefabOf[r.value] == prefab.value
      ensures r.Ok? ==> active == old(active)[r.value := true] && position == old(position)[r.value := at]
    {
      if prefab.None? {
        return Err(ArgumentNull);
      }
      var id := prefab.value;
      var objects := GetObjects(id);
      var instance;
      if |objects| > 0 {
        instance := objects[|objects| - 1];
        pool := pool[id := objects[..|objects| - 1]];
      } else {
        instance := created;
        created := created + 1;
        prefabOf := prefabOf[instance := id];
      }
      active := active[instance := true];
      position := position[instance := at];
      r := Ok(instance);
    }

    /**
     * OnDestroyHandler: the returned instance is pushed onto its prefab's
     * stack and deactivated. Only instances this pool made are subscribed.
     */
    method OnDestroyHandler(returned: InstanceId)
      requires Valid() && returned in prefabOf
      modifies this`pool, this`active
      ensures Valid()
      ensures var id := prefabOf[returned];
              pool == old(pool)[id := (if id in old(pool) then old(pool)[id] else []) + [returned]]
      ensures active == old(active)[returned := false]
    {
      var id := prefabOf[returned];
      var objects := GetObjects(id);
      pool := pool[id := objects + [returned]];
      active := active[returned := false];
    }

    /** The idle instances of a prefab, top last; none for a prefab never seen. */
    function Stack(id: PrefabId): (stack: seq<InstanceId>)
      reads this
      ensures id !in pool ==> stack == []
    {
      if id in pool then pool[id] else []
    }

    /**
     * GetInstancesCount: a null prefab throws; otherwise the number of idle
     * instances of the prefab, which is 0 for a prefab never seen, not the
     * number ever made.
     */
    function GetInstancesCount(prefab: Option<PrefabId>): (r: Result<nat>)
      reads this
      ensures r.Err? <==> prefab.None?
      ensures r.Err? ==> r.error == ArgumentNull
      ensures r.Ok? ==> r.value == |Stack(prefab.value)|
      ensures r.Ok? && prefab.value !in pool ==> r.value == 0
    {
      if prefab.None? then Err(ArgumentNull)
      else if prefab.value !in pool then Ok(0)
      else Ok(|pool[prefab.value]|)
    }
  }

  /** An instance that returns to the pool is the next one handed out, and the pool is as before. */
  method ReturnedIsReusedFirst(p: ObjectsPool, x: InstanceId, at: Vec3) returns (r: Result<InstanceId>)
    requires p.Valid() && x in p.prefabOf
    modifies p
    ensures p.Valid()
    ensures r == Ok(x) && p.created == old(p.created) && p.active[x]
    ensures var id := old(p.prefabOf)[x];
            p.pool == old(p.pool)[id := if id in old(p.pool) then old(p.pool)[id] else []]
  {
    p.OnDestroyHandler(x);
    r := p.GetOrCreate(Some(p.prefabOf[x]), at);
  }

  /** Two returns come back in reverse order (LIFO). */
  method LastInFirstOut(p: ObjectsPool, x: InstanceId, y: InstanceId, at: Vec3)
    returns (first: Result<InstanceId>, second: Result<InstanceId>)
    requires p.Valid() && x in p.prefabOf && y in p.prefabOf && p.prefabOf[x] == p.prefabOf[y]
    modifies p
    ensures first == Ok(y) && second == Ok(x)
  {
    p.OnDestroyHandler(x);
    p.OnDestroyHandler(y);
    first := p.GetOrCreate(Some(p.prefabOf[x]), at);
    second := p.GetOrCreate(Some(p.prefabOf[x]), at);
  }
}
