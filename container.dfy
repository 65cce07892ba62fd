/**
 * The `SimpleDi` object: its `_registry` dictionary is a field that
 * `register` updates in place and `get` only reads.
 */
module Container {
  import opened Wrappers
  import opened Registration
  import opened Resolver

  class SimpleDi<!V> {
    var registry: Registry<V>

    /** Every entry is stored under its own name. */
    ghost predicate Valid()
      reads this
    {
      Keyed(registry)
    }

    /** `new SimpleDi()`: the registry starts empty. */
    constructor ()
      ensures Valid()
      ensures registry == map[]
    {
      registry := map[];
    }

    /**
     * `register(name, factory, dependencies)`: throws "factory must be a
     * function!" and leaves the registry alone when `factory` is not a
     * function; otherwise stores the entry, replacing any earlier one.
     */
    method Register(name: Name, factory: FactoryArg<V>, dependencies: Option<seq<Name>>) returns (r: Outcome<Error>)
      requires Valid()
      modifies this
      ensures Valid()
      ensures match Registration.Register(old(registry), name, factory, dependencies)
              case Success(updated) => r == Pass && registry == updated
              case Failure(e) => r == Fail(e) && registry == old(registry)
    {
      if factory.NotAFunction? {
        return Fail(FactoryNotAFunction);
      }
      registry := registry[name := Entry(name, factory.call, DependenciesOrEmpty(dependencies))];
      r := Pass;
    }

    /** `getRegistryItem(name)`: the entry stored under `name`, without side effects. */
    function GetRegistryItem(name: Name): (r: Option<Entry<V>>)
      reads this
      ensures r.Some? <==> name in registry
      ensures r.Some? ==> r.value == registry[name]
      ensures Valid() && r.Some? ==> r.value.name == name
    {
      Lookup(registry, name)
    }

    /**
     * `get(name)`: looks the name up, resolves each declared dependency in
     * order by a recursive call, and applies the factory to the results.
     * The ghost `fuel` bounds the recursion depth; the requires clause says
     * the JavaScript recursion finishes within it. `get` changes nothing.
     */
    method Get(name: Name, ghost fuel: nat) returns (r: Result<V, Error>)
      requires Resolve(registry, name, fuel).Some?
      ensures r == Resolve(registry, name, fuel).value
      decreases fuel
    {
      var item := GetRegistryItem(name);
      if item.None? {
        return Failure(ModuleNotFound(name));
      }
      var entry := item.value;
      var names := entry.dependencies;
      var deps: seq<V> := [];
      var i := 0;
      while i < |names|
        invariant 0 <= i <= |names|
        invariant ResolveAll(registry, names[..i], fuel - 1) == Some(Success(deps))
      {
        assert names[..i + 1][..i] == names[..i];
        if !Succeeds(ResolveAll(registry, names[..i + 1], fuel - 1)) {
          PrefixDecides(registry, names, i + 1, fuel - 1);
        }
        var v := Get(names[i], fuel - 1);
        if v.Failure? {
          PrefixDecides(registry, names, i + 1, fuel - 1);
          return Failure(v.error);
        }
        deps := deps + [v.value];
        i := i + 1;
      }
      assert names[..i] == names;
      r := Success(entry.factory(deps));
    }
  }
}
