/**
 * DIContainer, the composition root: services are registered with a
 * factory, and Resolve builds each one at most once, injecting its
 * [Injection] properties by resolving them in turn. A type whose resolution
 * is in progress resolves to its not yet injected instance, so dependency
 * cycles end. Reflection is replaced by an explicit description of each
 * created object: the element type of every injectable property, in order,
 * and whether the object is IInitiableOnInjecting.
 */
module DI {
  import opened Wrappers

  /** A service type: IDependencyInjector, or any other registered type. */
  datatype ServiceType = DependencyInjector | Service(id: nat)

  /** An [Injection] property: its name and type; an array-typed property resolves its element type. */
  datatype PropertyType = Plain(service: ServiceType) | ArrayOf(element: ServiceType)
  datatype Dependency = Property(name: string, propertyType: PropertyType)

  /** What reflection finds on an object: its injectable properties and whether it wants OnInjected. */
  datatype ObjectSpec = ObjectSpec(dependencies: seq<Dependency>, initiable: bool)

  /**
   * A registration's factory: one object (RegisterSingleton, RegisterType)
   * or an array of them (RegisterTypes with two or three implementations,
   * RegisterSceneObjects with the scene's objects of the type).
   */
  datatype Registration = Single(spec: ObjectSpec) | Array(specs: seq<ObjectSpec>)

  /** The container itself, or the n-th object a factory created. */
  datatype Instance = Container | Made(serial: nat)

  /** A resolved object: one instance or an array of them. */
  datatype Value = One(obj: Instance) | Many(objs: seq<Instance>)

  /** A resolution failure, wrapped once per property on the way out. */
  datatype DIError =
    | NoRegistration(service: ServiceType)                          // InvalidOperationException
    | CannotResolve(property: string, owner: Instance, cause: DIError) // "Can't resolve property ..."

  datatype ResolveResult = Resolved(value: Value) | Failed(error: DIError)

  /** What injecting does to the objects, in order. */
  datatype Injection =
    | SetProperty(target: Instance, property: string, value: Value) // PropertyInfo.SetValue
    | OnInjected(target: Instance)                                  // IInitiableOnInjecting.OnInjected

  /** The type a property is resolved with: the element type for an array property. */
  function InjectionType(d: Dependency): (t: ServiceType)
    ensures d.propertyType.Plain? ==> t == d.propertyType.service
    ensures d.propertyType.ArrayOf? ==> t == d.propertyType.element
  {
    match d.propertyType
    case Plain(s) => s
    case ArrayOf(e) => e
  }

  /** The objects a registration's factory creates, one description each. */
  function Specs(reg: Registration): (r: seq<ObjectSpec>)
    ensures reg.Single? ==> r == [reg.spec]
    ensures reg.Array? ==> r == reg.specs
  {
    match reg
    case Single(s) => [s]
    case Array(ss) => ss
  }

  /** The elements MakeInjections walks: an array element by element, anything else alone. */
  function Objects(v: Value): (r: seq<Instance>)
    ensures v.One? ==> r == [v.obj]
    ensures v.Many? ==> r == v.objs
  {
    match v
    case One(o) => [o]
    case Many(os) => os
  }

  /** The factory's result when the next fresh serial is `next`. */
  function Produce(reg: Registration, next: nat): (v: Value)
    ensures |Objects(v)| == |Specs(reg)|
    ensures forall i :: 0 <= i < |Objects(v)| ==> Objects(v)[i] == Made(next + i)
    ensures v.One? <==> reg.Single?
  {
    match reg
    case Single(_) => One(Made(next))
    case Array(ss) => Many(seq(|ss|, i requires 0 <= i < |ss| => Made(next + i)))
  }

  /** No element twice. */
  predicate NoDuplicates<T(==)>(s: seq<T>) {
    forall i, j :: 0 <= i < j < |s| ==> s[i] != s[j]
  }

  /** Every entry of `before` is still in `after`, unchanged. */
  predicate Keeps<K, V(==)>(before: map<K, V>, after: map<K, V>) {
    forall k :: k in before ==> k in after && after[k] == before[k]
  }

  lemma KeepsTrans<K, V>(a: map<K, V>, b: map<K, V>, c: map<K, V>)
    requires Keeps(a, b) && Keeps(b, c)
    ensures Keeps(a, c)
  {
  }

  class DIContainer {
    var registrations: map<ServiceType, Registration>
    var startedResolving: map<ServiceType, Value>
    var fullyResolved: map<ServiceType, Value>
    /** Every service whose factory has run, in order. */
    var made: seq<ServiceType>
    /** How many objects the factories created. */
    var created: nat
    var injections: seq<Injection>

    /**
     * The container resolves IDependencyInjector to itself; a type is never
     * both in progress and resolved; only registered types are in progress
     * or resolved (besides the container itself); and a factory has run
     * exactly for the types in progress or resolved, each once.
     */
    ghost predicate Valid()
      reads this
    {
      DependencyInjector in fullyResolved && fullyResolved[DependencyInjector] == One(Container)
      && startedResolving.Keys !! fullyResolved.Keys
      && startedResolving.Keys <= registrations.Keys
      && (forall t :: t in fullyResolved && t != DependencyInjector ==> t in registrations)
      && (forall t :: t in made <==> (t in startedResolving || t in fullyResolved) && t != DependencyInjector)
      && NoDuplicates(made)
    }

    /** The registered types Resolve could still build. */
    ghost function Pending(): set<ServiceType>
      reads this
    {
      registrations.Keys - startedResolving.Keys - fullyResolved.Keys
    }

    /** The object a type currently resolves to without running a factory, if any. */
    ghost function Current(t: ServiceType): Option<Value>
      reads this
    {
      if t in fullyResolved then Some(fullyResolved[t])
      else if t in startedResolving then Some(startedResolving[t])
      else None
    }

    /** Property `d` of `obj` was set, after log position `from`, to what its type currently resolves to. */
    ghost predicate HasInjected(obj: Instance, d: Dependency, from: nat)
      reads this
    {
      Current(InjectionType(d)).Some?
      && exists k :: from <= k < |injections| && injections[k] == SetProperty(obj, d.name, Current(InjectionType(d)).value)
    }

    constructor ()
      ensures Valid()
      ensures registrations == map[] && startedResolving == map[]
      ensures fullyResolved == map[DependencyInjector := One(Container)]
      ensures made == [] && created == 0 && injections == []
    {
      registrations := map[];
      startedResolving := map[];
      fullyResolved := map[DependencyInjector := One(Container)];
      made := [];
      created := 0;
      injections := [];
    }

    /** Dictionary.Add of a registration: a type registered before makes it throw. */
    method Register(t: ServiceType, reg: Registration) returns (r: Outcome)
      requires Valid()
      modifies this`registrations
      ensures Valid()
      ensures r.Fail? <==> t in old(registrations)
      ensures r.Fail? ==> r.error == Argument && registrations == old(registrations)
      ensures r.Done? ==> registrations == old(registrations)[t := reg]
    {
      if t in registrations {
        return Fail(Argument);
      }
      registrations := registrations[t := reg];
      r := Done;
    }

    /** RegisterSingleton: the scene's one component of the type, found or created. */
    method RegisterSingleton(t: ServiceType, spec: ObjectSpec) returns (r: Outcome)
      requires Valid()
      modifies this`registrations
      ensures Valid()
      ensures r.Fail? <==> t in old(registrations)
      ensures r.Done? ==> registrations == old(registrations)[t := Single(spec)]
    {
      r := Register(t, Single(spec));
    }

    /** RegisterType: a new instance of the implementation. */
    method RegisterType(t: ServiceType, spec: ObjectSpec) returns (r: Outcome)
      requires Valid()
      modifies this`registrations
      ensures Valid()
      ensures r.Fail? <==> t in old(registrations)
      ensures r.Done? ==> registrations == old(registrations)[t := Single(spec)]
    {
      r := Register(t, Single(spec));
    }

    /** RegisterTypes with two implementations: an array of a new instance of each. */
    method RegisterTypes2(t: ServiceType, first: ObjectSpec, second: ObjectSpec) returns (r: Outcome)
      requires Valid()
      modifies this`registrations
      ensures Valid()
      ensures r.Fail? <==> t in old(registrations)
      ensures r.Done? ==> registrations == old(registrations)[t := Array([first, second])]
    {
      r := Register(t, Array([first, second]));
    }

    /** RegisterTypes with three implementations. */
    method RegisterTypes3(t: ServiceType, first: ObjectSpec, second: ObjectSpec, third: ObjectSpec) returns (r: Outcome)
      requires Valid()
      modifies this`registrations
      ensures Valid()
      ensures r.Fail? <==> t in old(registrations)
      ensures r.Done? ==> registrations == old(registrations)[t := Array([first, second, third])]
    {
      r := Register(t, Array([first, second, third]));
    }

    /** RegisterSceneObjects: the array of the scene's components of the type. */
    method RegisterSceneObjects(t: ServiceType, found: seq<ObjectSpec>) returns (r: Outcome)
      requires Valid()
      modifies this`registrations
      ensures Valid()
      ensures r.Fail? <==> t in old(registrations)
      ensures r.Done? ==> registrations == old(registrations)[t := Array(found)]
    {
      r := Register(t, Array(found));
    }

    /** Running a factory: fresh objects, one per description. */
    method RunFactory(t: ServiceType) returns (v: Value)
      requires t in registrations
      modifies this`created
      ensures v == Produce(registrations[t], old(created))
      ensures created == old(created) + |Specs(registrations[t])|
    {
      v := Produce(registrations[t], created);
      created := created + |Specs(registrations[t])|;
    }

    /**
     * Resolve: a resolved type gives its object, a type in progress its
     * not yet injected object, a registered type runs its factory once,
     * injects the result and becomes resolved; anything else throws.
     */
    method Resolve(t: ServiceType) returns (r: ResolveResult)
      requires Valid()
      modifies this`startedResolving, this`fullyResolved, this`made, this`created, this`injections
      decreases Pending(), 1
      ensures Valid()
      ensures t in old(fullyResolved) ==> r == Resolved(old(fullyResolved)[t]) && unchanged(this)
      ensures t !in old(fullyResolved) && t in old(startedResolving) ==>
                r == Resolved(old(startedResolving)[t]) && unchanged(this)
      ensures t !in old(fullyResolved) && t !in old(startedResolving) && t !in registrations ==>
                r == Failed(NoRegistration(t)) && unchanged(this)
      ensures t !in old(fullyResolved) && t !in old(startedResolving) && t in registrations ==>
                old(made) + [t] <= made
                && (r.Resolved? ==> t in fullyResolved && fullyResolved[t] == r.value && t !in startedResolving)
                && (r.Failed? ==> t in startedResolving)
      ensures r.Resolved? ==> Current(t) == Some(r.value) && startedResolving == old(startedResolving)
      ensures Keeps(old(fullyResolved), fullyResolved) && Keeps(old(startedResolving), startedResolving)
      ensures forall k :: k in fullyResolved && k !in old(fullyResolved) ==> k !in old(startedResolving)
      ensures Pending() <= old(Pending()) && old(made) <= made && old(injections) <= injections
    {
      if t in fullyResolved {
        return Resolved(fullyResolved[t]);
      }
      if t in startedResolving {
        return Resolved(startedResolving[t]);
      }
      if t !in registrations {
        return Failed(NoRegistration(t));
      }
      r := ResolveRegistered(t);
    }

    /** Resolve for a registered type met for the first time: build, inject, then mark resolved. */
    method ResolveRegistered(t: ServiceType) returns (r: ResolveResult)
      requires Valid() && t in Pending()
      modifies this`startedResolving, this`fullyResolved, this`made, this`created, this`injections
      decreases Pending(), 0
      ensures Valid()
      ensures old(made) + [t] <= made
      ensures r.Resolved? ==> t in fullyResolved && fullyResolved[t] == r.value && t !in startedResolving
      ensures r.Failed? ==> t in startedResolving
      ensures r.Resolved? ==> Current(t) == Some(r.value) && startedResolving == old(startedResolving)
      ensures Keeps(old(fullyResolved), fullyResolved) && Keeps(old(startedResolving), startedResolving)
      ensures forall k :: k in fullyResolved && k !in old(fullyResolved) ==> k !in old(startedResolving)
      ensures Pending() <= old(Pending()) && old(injections) <= injections
    {
      var obj := StartResolving(t);
      r := InjectAndFinish(t, obj);
    }

    /** The rest of Resolve once the factory ran: MakeInjections on the new object, then it is resolved. */
    method InjectAndFinish(t: ServiceType, obj: Value) returns (r: ResolveResult)
      requires Valid() && t in registrations && t in startedResolving && startedResolving[t] == obj
      requires |Objects(obj)| == |Specs(registrations[t])|
      modifies this`startedResolving, this`fullyResolved, this`made, this`created, this`injections
      decreases Pending(), 5
      ensures Valid() && old(made) <= made && old(injections) <= injections && Pending() <= old(Pending())
      ensures r.Resolved? ==> r == Resolved(obj) && t in fullyResolved && fullyResolved[t] == obj
                              && startedResolving == old(startedResolving) - {t}
      ensures r.Failed? ==> Keeps(old(startedResolving), startedResolving)
      ensures Keeps(old(fullyResolved), fullyResolved)
      ensures forall k :: k in fullyResolved && k !in old(fullyResolved) ==> k == t || k !in old(startedResolving)
    {
      ghost var full := fullyResolved;
      var e := InjectAll(Objects(obj), Specs(registrations[t]));
      if e.Some? {
        return Failed(e.value);
      }
      ghost var injected := fullyResolved;
      FinishResolving(t, obj);
      KeepsTrans(full, injected, fullyResolved);
      r := Resolved(obj);
    }

    /** The first half of Resolve for a registered type: its factory runs and its object is in progress. */
    method StartResolving(t: ServiceType) returns (obj: Value)
      requires Valid() && t in Pending()
      modifies this`startedResolving, this`made, this`created
      ensures Valid() && obj == Produce(registrations[t], old(created))
      ensures startedResolving == old(startedResolving)[t := obj] && made == old(made) + [t]
      ensures Pending() == old(Pending()) - {t}
    {
      obj := RunFactory(t);
      made := made + [t];
      startedResolving := startedResolving[t := obj];
    }

    /** The last half: the injected object moves from in progress to resolved. */
    method FinishResolving(t: ServiceType, obj: Value)
      requires Valid() && t in startedResolving && startedResolving[t] == obj
      modifies this`startedResolving, this`fullyResolved
      ensures Valid()
      ensures fullyResolved == old(fullyResolved)[t := obj] && startedResolving == old(startedResolving) - {t}
      ensures Pending() == old(Pending())
    {
      fullyResolved := fullyResolved[t := obj];
      startedResolving := startedResolving - {t};
    }

    /** Resolve<T> for IDependencyInjector on a fresh container: the container itself, with nothing built. */
    static method ResolveInjectorOnFreshContainer() returns (c: DIContainer, r: ResolveResult)
      ensures r == Resolved(One(Container)) && c.made == [] && c.created == 0
    {
      c := new DIContainer();
      r := c.Resolve(DependencyInjector);
    }

    /** MakeInjections over the objects of a value: an array element by element. */
    method MakeInjections(injectable: Value, specs: seq<ObjectSpec>) returns (e: Option<DIError>)
      requires Valid() && |specs| == |Objects(injectable)|
      modifies this`startedResolving, this`fullyResolved, this`made, this`created, this`injections
      ensures Valid()
      ensures e.None? ==> startedResolving == old(startedResolving)
      ensures e.None? ==> forall i, j :: 0 <= i < |specs| && 0 <= j < |specs[i].dependencies| ==>
                            HasInjected(Objects(injectable)[i], specs[i].dependencies[j], |old(injections)|)
      ensures Keeps(old(fullyResolved), fullyResolved) && Keeps(old(startedResolving), startedResolving)
      ensures old(injections) <= injections
    {
      e := InjectAll(Objects(injectable), specs);
    }

    /** The outer loop of MakeInjections. */
    method InjectAll(objs: seq<Instance>, specs: seq<ObjectSpec>) returns (e: Option<DIError>)
      requires Valid() && |objs| == |specs|
      modifies this`startedResolving, this`fullyResolved, this`made, this`created, this`injections
      decreases Pending(), 4
      ensures Valid()
      ensures e.None? ==> startedResolving == old(startedResolving)
      ensures e.None? ==> forall i, j :: 0 <= i < |objs| && 0 <= j < |specs[i].dependencies| ==>
                            HasInjected(objs[i], specs[i].dependencies[j], |old(injections)|)
      ensures Keeps(old(fullyResolved), fullyResolved) && Keeps(old(startedResolving), startedResolving)
      ensures forall k :: k in fullyResolved && k !in old(fullyResolved) ==> k !in old(startedResolving)
      ensures Pending() <= old(Pending()) && old(made) <= made && old(injections) <= injections
    {
      var i := 0;
      while i < |objs|
        invariant 0 <= i <= |objs|
        invariant Valid() && registrations == old(registrations) && startedResolving == old(startedResolving)
        invariant Keeps(old(fullyResolved), fullyResolved)
        invariant forall k :: k in fullyResolved && k !in old(fullyResolved) ==> k !in old(startedResolving)
        invariant Pending() <= old(Pending()) && old(made) <= made && old(injections) <= injections
        invariant forall i', j :: 0 <= i' < i && 0 <= j < |specs[i'].dependencies| ==>
                    HasInjected(objs[i'], specs[i'].dependencies[j], |old(injections)|)
      {
        ghost var before := this.injections;
        ghost var fullBefore := this.fullyResolved;
        e := InjectInto(objs[i], specs[i]);
        if e.Some? {
          return;
        }
        forall i', j | 0 <= i' < i && 0 <= j < |specs[i'].dependencies|
          ensures HasInjected(objs[i'], specs[i'].dependencies[j], |old(injections)|)
        {
          StillInjected(objs[i'], specs[i'].dependencies[j], |old(injections)|, before, fullBefore);
        }
        i := i + 1;
      }
      e := None;
    }

    /**
     * A property set before a call that kept the resolved objects and the
     * ones in progress, and only appended to the log, is still set.
     */
    lemma StillInjected(obj: Instance, d: Dependency, from: nat,
                        before: seq<Injection>, fullBefore: map<ServiceType, Value>)
      requires before <= injections && Keeps(fullBefore, fullyResolved)
      requires startedResolving.Keys !! fullyResolved.Keys
      requires var t := InjectionType(d);
               (t in fullBefore || t in startedResolving)
               && exists k :: from <= k < |before|
                    && before[k] == SetProperty(obj, d.name, if t in fullBefore then fullBefore[t] else startedResolving[t])
      ensures HasInjected(obj, d, from)
    {
      var t := InjectionType(d);
      var k :| from <= k < |before|
               && before[k] == SetProperty(obj, d.name, if t in fullBefore then fullBefore[t] else startedResolving[t]);
      assert injections[k] == before[k];
    }

    /** One object of MakeInjections: each property resolved and set in turn, then OnInjected. */
    method InjectInto(obj: Instance, spec: ObjectSpec) returns (e: Option<DIError>)
      requires Valid()
      modifies this`startedResolving, this`fullyResolved, this`made, this`created, this`injections
      decreases Pending(), 3
      ensures Valid()
      ensures e.None? ==> startedResolving == old(startedResolving)
      ensures e.None? ==> forall j :: 0 <= j < |spec.dependencies| ==> HasInjected(obj, spec.dependencies[j], |old(injections)|)
      ensures e.None? && spec.initiable ==> |injections| > 0 && injections[|injections| - 1] == OnInjected(obj)
      ensures e.Some? ==> exists j :: 0 <= j < |spec.dependencies|
                            && e.value.CannotResolve? && e.value.property == spec.dependencies[j].name && e.value.owner == obj
      ensures Keeps(old(fullyResolved), fullyResolved) && Keeps(old(startedResolving), startedResolving)
      ensures forall k :: k in fullyResolved && k !in old(fullyResolved) ==> k !in old(startedResolving)
      ensures Pending() <= old(Pending()) && old(made) <= made && old(injections) <= injections
    {
      var deps := spec.dependencies;
      var j := 0;
      while j < |deps|
        invariant 0 <= j <= |deps|
        invariant Valid() && registrations == old(registrations) && startedResolving == old(startedResolving)
        invariant Keeps(old(fullyResolved), fullyResolved)
        invariant forall k :: k in fullyResolved && k !in old(fullyResolved) ==> k !in old(startedResolving)
        invariant Pending() <= old(Pending()) && old(made) <= made && old(injections) <= injections
        invariant forall j' :: 0 <= j' < j ==> HasInjected(obj, deps[j'], |old(injections)|)
      {
        ghost var before := this.injections;
        ghost var fullBefore := this.fullyResolved;
        e := InjectProperty(obj, deps[j]);
        if e.Some? {
          return;
        }
        forall j' | 0 <= j' < j
          ensures HasInjected(obj, deps[j'], |old(injections)|)
        {
          StillInjected(obj, deps[j'], |old(injections)|, before, fullBefore);
        }
        j := j + 1;
      }
      if spec.initiable {
        ghost var before := this.injections;
        injections := injections + [OnInjected(obj)];
        forall j' | 0 <= j' < |deps|
          ensures HasInjected(obj, deps[j'], |old(injections)|)
        {
          StillInjected(obj, deps[j'], |old(injections)|, before, fullyResolved);
        }
      }
      e := None;
    }

    /**
     * The body of MakeInjections' inner loop: the property's type is
     * resolved and the result set on the object; a failure is rethrown
     * naming the property and the object.
     */
    method InjectProperty(obj: Instance, d: Dependency) returns (e: Option<DIError>)
      requires Valid()
      modifies this`startedResolving, this`fullyResolved, this`made, this`created, this`injections
      decreases Pending(), 2
      ensures Valid()
      ensures e.None? ==> startedResolving == old(startedResolving)
      ensures e.None? ==> Current(InjectionType(d)).Some?
                          && |injections| > |old(injections)|
                          && injections[|injections| - 1] == SetProperty(obj, d.name, Current(InjectionType(d)).value)
      ensures e.Some? ==> e.value.CannotResolve? && e.value.property == d.name && e.value.owner == obj
      ensures Keeps(old(fullyResolved), fullyResolved) && Keeps(old(startedResolving), startedResolving)
      ensures forall k :: k in fullyResolved && k !in old(fullyResolved) ==> k !in old(startedResolving)
      ensures Pending() <= old(Pending()) && old(made) <= made && old(injections) <= injections
    {
      var r := Resolve(InjectionType(d));
      if r.Failed? {
        return Some(CannotResolve(d.name, obj, r.error));
      }
      injections := injections + [SetProperty(obj, d.name, r.value)];
      e := None;
    }
  }
}
