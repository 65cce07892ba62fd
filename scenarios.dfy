/**
 * The usage scenarios of the container's test suite that the container
 * actually implements, stated against the `SimpleDi` class, and graph
 * shapes whose outcome follows from the resolver having no cycle check.
 */
module Scenarios {
  import opened Wrappers
  import opened Registration
  import opened Resolver
  import opened Factories
  import opened Container

  /** A factory that ignores its arguments and returns `obj`. */
  function Constant<V>(obj: V): (f: Factory<V>)
  {
    _ => obj
  }

  /** Registering a factory that returns a fixed object, then getting it, yields that object. */
  method RegistersAndGetsASimpleObject<V>(obj: V) returns (got: Result<V, Error>)
    ensures got == Success(obj)
  {
    var di := new SimpleDi<V>();
    var _ := di.Register("foo", Function(Constant(obj)), None);
    NoDependencies(di.registry, "foo", 1);
    got := di.Get("foo", 1);
  }

  /**
   * A name whose dependencies have none of their own resolves in two
   * levels, to its factory applied to their factories' values in order.
   */
  lemma {:induction false} LeafDependencies<V>(reg: Registry<V>, a: Name)
    requires a in reg
    requires forall d :: d in reg[a].dependencies ==> d in reg && reg[d].dependencies == []
    ensures Resolve(reg, a, 2) == Some(Success(reg[a].factory(LeafValues(reg, reg[a].dependencies))))
  {
    var ds := reg[a].dependencies;
    forall i | 0 <= i < |ds| ensures Resolve(reg, ds[i], 1) == Some(Success(LeafValues(reg, ds)[i])) {
      assert ds[i] in ds;
      NoDependencies(reg, ds[i], 1);
    }
    ResolveAllPointwise(reg, ds, 1, LeafValues(reg, ds));
  }

  /** The values of names without dependencies: each factory applied to no arguments. */
  function LeafValues<V>(reg: Registry<V>, names: seq<Name>): (vs: seq<V>)
    requires forall d :: d in names ==> d in reg
  {
    seq(|names|, i requires 0 <= i < |names| => reg[names[i]].factory([]))
  }

  /**
   * `Foo` depends on `Bar` and is registered first; getting `Foo` builds a
   * `Bar` and hands it to `Foo`'s constructor.
   */
  method ResolvesADependency<V(!new)>(foo: Constructor<V>, bar: Constructor<V>) returns (got: Result<V, Error>)
    ensures got == Success(foo([bar([])]))
  {
    var di := new SimpleDi<V>();
    var _ := di.Register("Foo", Function(ConstructorFactory(foo)), Some(["Bar"]));
    var _ := di.Register("Bar", Function(ConstructorFactory(bar)), None);
    LeafDependencies(di.registry, "Foo");
    assert LeafValues(di.registry, ["Bar"]) == [bar([])];
    got := di.Get("Foo", 2);
  }

  /** `Foo` depends on `Bar` and `Baz`: its constructor receives a `Bar` and a `Baz`, in that order. */
  method ResolvesMultipleDependencies<V(!new)>(foo: Constructor<V>, bar: Constructor<V>, baz: Constructor<V>)
    returns (got: Result<V, Error>)
    ensures got == Success(foo([bar([]), baz([])]))
  {
    var di := new SimpleDi<V>();
    var _ := di.Register("Foo", Function(ConstructorFactory(foo)), Some(["Bar", "Baz"]));
    var _ := di.Register("Bar", Function(ConstructorFactory(bar)), None);
    var _ := di.Register("Baz", Function(ConstructorFactory(baz)), None);
    LeafDependencies(di.registry, "Foo");
    assert LeafValues(di.registry, ["Bar", "Baz"]) == [bar([]), baz([])];
    got := di.Get("Foo", 2);
  }

  /**
   * A diamond `A -> [B, C]`, `B -> [D]`, `C -> [D]`: nothing rejects `D`
   * being reached twice, and `D`'s factory is applied once in each branch.
   */
  lemma DiamondResolves<V>(reg: Registry<V>)
    requires "A" in reg && reg["A"].dependencies == ["B", "C"]
    requires "B" in reg && reg["B"].dependencies == ["D"]
    requires "C" in reg && reg["C"].dependencies == ["D"]
    requires "D" in reg && reg["D"].dependencies == []
    ensures Resolve(reg, "A", 3) == Some(Success(reg["A"].factory([
      reg["B"].factory([reg["D"].factory([])]),
      reg["C"].factory([reg["D"].factory([])])])))
  {
    LeafDependencies(reg, "B");
    LeafDependencies(reg, "C");
    var d := reg["D"].factory([]);
    assert LeafValues(reg, ["D"]) == [d];
    var vs := [reg["B"].factory([d]), reg["C"].factory([d])];
    ResolveAllPointwise(reg, ["B", "C"], 2, vs);
  }

  /**
   * `Foo -> [Bar]`, `Bar -> [Foo]`: without a cycle check `get("Foo")`
   * recurses without end; no depth bound lets it finish.
   */
  lemma MutualDependencyNeverFinishes<V>(reg: Registry<V>)
    requires "Foo" in reg && reg["Foo"].dependencies == ["Bar"]
    requires "Bar" in reg && reg["Bar"].dependencies == ["Foo"]
    ensures forall fuel: nat :: Resolve(reg, "Foo", fuel) == None
  {
    forall fuel: nat ensures Resolve(reg, "Foo", fuel) == None {
      FirstDependencyCycleDiverges(reg, {"Foo", "Bar"}, "Foo", fuel);
    }
  }

  /**
   * `A -> [B, A]`, `B -> []`: `B` resolves, then `A` is requested again
   * without end; no depth bound lets `get("A")` finish.
   */
  lemma LaterSelfDependencyNeverFinishes<V>(reg: Registry<V>)
    requires "A" in reg && reg["A"].dependencies == ["B", "A"]
    requires "B" in reg && reg["B"].dependencies == []
    ensures forall fuel: nat :: Resolve(reg, "A", fuel) == None
  {
    assert reg["A"].dependencies[1] == "A";
    forall fuel: nat ensures Resolve(reg, "A", fuel) == None {
      ReachableCycleDiverges(reg, {"A", "B"}, map["A" := "A"], "A", fuel);
    }
  }

  /**
   * `A -> [M, A]` with `M` unregistered: the loop reaches `M` before the
   * cycle, so `get("A")` throws "couldn't find module: M".
   */
  lemma MissingModuleBeforeCycle<V>(reg: Registry<V>, fuel: nat)
    requires "A" in reg && reg["A"].dependencies == ["M", "A"]
    requires "M" !in reg
    requires fuel > 0
    ensures Resolve(reg, "A", fuel) == Some(Failure(ModuleNotFound("M")))
  {
    var ds := reg["A"].dependencies;
    assert ds[..1] == ["M"];
    assert ["M"][..0] == [];
    assert ResolveAll(reg, ds[..1], fuel - 1) == Some(Failure(ModuleNotFound("M")));
    PrefixDecides(reg, ds, 1, fuel - 1);
  }

  /**
   * `A -> [B, C]`, `B -> [M]` with `M` unregistered: the error raised two
   * levels down reaches the caller, and `C` is never resolved.
   */
  lemma DeepMissingModuleFails<V>(reg: Registry<V>, fuel: nat)
    requires "A" in reg && reg["A"].dependencies == ["B", "C"]
    requires "B" in reg && reg["B"].dependencies == ["M"]
    requires "M" !in reg
    requires fuel >= 2
    ensures Resolve(reg, "A", fuel) == Some(Failure(ModuleNotFound("M")))
  {
    assert ["M"][..0] == [];
    assert ResolveAll(reg, ["M"], fuel - 2) == Some(Failure(ModuleNotFound("M")));
    assert Resolve(reg, "B", fuel - 1) == Some(Failure(ModuleNotFound("M")));
    var ds := reg["A"].dependencies;
    assert ds[..1] == ["B"];
    assert ["B"][..0] == [];
    assert ResolveAll(reg, ds[..1], fuel - 1) == Some(Failure(ModuleNotFound("M")));
    PrefixDecides(reg, ds, 1, fuel - 1);
  }

  /**
   * `get` leaves the registry as it was, so getting the same name twice
   * gives the same outcome both times.
   */
  method GetIsRepeatable<V>(di: SimpleDi<V>, name: Name, ghost fuel: nat) returns (first: Result<V, Error>, second: Result<V, Error>)
    requires Resolve(di.registry, name, fuel).Some?
    ensures first == second
    ensures first == Resolve(di.registry, name, fuel).value
  {
    first := di.Get(name, fuel);
    second := di.Get(name, fuel);
  }
}
