/**
 * What `get(name)` computes. `get` recurses through the dependency
 * lists with no cycle check, so the specification carries a `fuel` bound on
 * the recursion depth: `None` means the recursion did not finish within it.
 */
module Resolver {
  import opened Wrappers
  import opened Registration

  /** The outcome of resolving `name` with recursion depth at most `fuel`. */
  function Resolve<V>(reg: Registry<V>, name: Name, fuel: nat): (r: Option<Result<V, Error>>)
    decreases fuel, 0, 0
  {
    if name !in reg then Some(Failure(ModuleNotFound(name)))
    else if fuel == 0 then None
    else
      match ResolveAll(reg, reg[name].dependencies, fuel - 1)
      case None => None
      case Some(Failure(e)) => Some(Failure(e))
      case Some(Success(args)) => Some(Success(reg[name].factory(args)))
  }

  /**
   * Resolves `names` from first to last, stopping at the first one that
   * fails (the `forEach` loop that pushes into `deps`).
   */
  function ResolveAll<V>(reg: Registry<V>, names: seq<Name>, fuel: nat): (r: Option<Result<seq<V>, Error>>)
    decreases fuel, 1, |names|
  {
    if names == [] then Some(Success([]))
    else
      match ResolveAll(reg, names[..|names| - 1], fuel)
      case None => None
      case Some(Failure(e)) => Some(Failure(e))
      case Some(Success(vs)) =>
        match Resolve(reg, names[|names| - 1], fuel)
        case None => None
        case Some(Failure(e)) => Some(Failure(e))
        case Some(Success(v)) => Some(Success(vs + [v]))
  }

  /** Resolution finished and produced a value. */
  predicate Succeeds<V>(r: Option<Result<V, Error>>)
  {
    r.Some? && r.value.Success?
  }

  /**
   * Once a prefix of the dependency list has failed or not finished, the
   * rest of the list is never looked at: the whole list has the same outcome.
   */
  lemma {:induction false} PrefixDecides<V>(reg: Registry<V>, names: seq<Name>, k: nat, fuel: nat)
    requires k <= |names|
    requires !Succeeds(ResolveAll(reg, names[..k], fuel))
    ensures ResolveAll(reg, names, fuel) == ResolveAll(reg, names[..k], fuel)
    decreases |names|
  {
    if k == |names| {
      assert names[..k] == names;
    } else {
      var init := names[..|names| - 1];
      assert init[..k] == names[..k];
      PrefixDecides(reg, init, k, fuel);
    }
  }

  /**
   * The dependency list resolves to `vs` exactly when each name resolves,
   * in declaration order, to the value at the same position of `vs`.
   */
  lemma {:induction false} ResolveAllPointwise<V>(reg: Registry<V>, names: seq<Name>, fuel: nat, vs: seq<V>)
    ensures ResolveAll(reg, names, fuel) == Some(Success(vs)) <==>
      (|vs| == |names| && forall i :: 0 <= i < |names| ==> Resolve(reg, names[i], fuel) == Some(Success(vs[i])))
    decreases |names|
  {
    if names != [] {
      var init := names[..|names| - 1];
      var last := names[|names| - 1];
      if ResolveAll(reg, names, fuel) == Some(Success(vs)) {
        var prefix := ResolveAll(reg, init, fuel);
        assert prefix.Some? && prefix.value.Success?;
        ResolveAllPointwise(reg, init, fuel, prefix.value.value);
        assert vs == prefix.value.value + [vs[|vs| - 1]];
      }
      if |vs| == |names| && forall i :: 0 <= i < |names| ==> Resolve(reg, names[i], fuel) == Some(Success(vs[i])) {
        var front := vs[..|vs| - 1];
        assert forall i :: 0 <= i < |init| ==> init[i] == names[i] && front[i] == vs[i];
        ResolveAllPointwise(reg, init, fuel, front);
        assert Resolve(reg, last, fuel) == Some(Success(vs[|vs| - 1]));
        assert front + [vs[|vs| - 1]] == vs;
      }
    }
  }

  /** If every name of the list resolves, so does the list. */
  lemma {:induction false} ResolveAllSucceeds<V>(reg: Registry<V>, names: seq<Name>, fuel: nat)
    requires forall i :: 0 <= i < |names| ==> Succeeds(Resolve(reg, names[i], fuel))
    ensures Succeeds(ResolveAll(reg, names, fuel))
    decreases |names|
  {
    if names != [] {
      var init := names[..|names| - 1];
      assert forall i :: 0 <= i < |init| ==> init[i] == names[i];
      ResolveAllSucceeds(reg, init, fuel);
      assert Succeeds(Resolve(reg, names[|names| - 1], fuel));
    }
  }

  /** More recursion depth never changes an outcome that was already reached. */
  lemma {:induction false} ResolveMonotonic<V>(reg: Registry<V>, name: Name, fuel: nat, more: nat)
    requires fuel <= more
    requires Resolve(reg, name, fuel).Some?
    ensures Resolve(reg, name, more) == Resolve(reg, name, fuel)
    decreases fuel, 0, 0
  {
    if name in reg {
      ResolveAllMonotonic(reg, reg[name].dependencies, fuel - 1, more - 1);
    }
  }

  lemma {:induction false} ResolveAllMonotonic<V>(reg: Registry<V>, names: seq<Name>, fuel: nat, more: nat)
    requires fuel <= more
    requires ResolveAll(reg, names, fuel).Some?
    ensures ResolveAll(reg, names, more) == ResolveAll(reg, names, fuel)
    decreases fuel, 1, |names|
  {
    if names != [] {
      var init := names[..|names| - 1];
      ResolveAllMonotonic(reg, init, fuel, more);
      if Succeeds(ResolveAll(reg, init, fuel)) {
        ResolveMonotonic(reg, names[|names| - 1], fuel, more);
      }
    }
  }

  /**
   * `get(name)` on an unregistered name throws "couldn't find module: name"
   * at once, whatever the depth.
   */
  lemma UnregisteredFails<V>(reg: Registry<V>, name: Name, fuel: nat)
    requires name !in reg
    ensures Resolve(reg, name, fuel) == Some(Failure(ModuleNotFound(name)))
    ensures Message(Resolve(reg, name, fuel).value.error) == "couldn't find module: " + name
  {
  }

  /** The only error resolution can raise is a missing module, and that module is indeed unregistered. */
  lemma {:induction false} FailureIsMissingModule<V>(reg: Registry<V>, name: Name, fuel: nat, e: Error)
    requires Resolve(reg, name, fuel) == Some(Failure(e))
    ensures e.ModuleNotFound? && e.name !in reg
    decreases fuel, 0, 0
  {
    if name in reg {
      FailureIsMissingModuleAll(reg, reg[name].dependencies, fuel - 1, e);
    }
  }

  lemma {:induction false} FailureIsMissingModuleAll<V>(reg: Registry<V>, names: seq<Name>, fuel: nat, e: Error)
    requires ResolveAll(reg, names, fuel) == Some(Failure(e))
    ensures e.ModuleNotFound? && e.name !in reg
    decreases fuel, 1, |names|
  {
    var init := names[..|names| - 1];
    if ResolveAll(reg, init, fuel) == Some(Failure(e)) {
      FailureIsMissingModuleAll(reg, init, fuel, e);
    } else {
      FailureIsMissingModule(reg, names[|names| - 1], fuel, e);
    }
  }

  /**
   * A successful `get(name)` returns the entry's factory applied to the
   * values of its dependencies, each resolved one level deeper, in
   * declaration order.
   */
  lemma ResolvedValue<V>(reg: Registry<V>, name: Name, fuel: nat, v: V) returns (args: seq<V>)
    requires Resolve(reg, name, fuel) == Some(Success(v))
    ensures name in reg && fuel > 0
    ensures |args| == |reg[name].dependencies|
    ensures forall i :: 0 <= i < |args| ==> Resolve(reg, reg[name].dependencies[i], fuel - 1) == Some(Success(args[i]))
    ensures v == reg[name].factory(args)
  {
    var ds := reg[name].dependencies;
    args := ResolveAll(reg, ds, fuel - 1).value.value;
    ResolveAllPointwise(reg, ds, fuel - 1, args);
  }

  /** A registered name without dependencies resolves to its factory applied to no arguments. */
  lemma NoDependencies<V>(reg: Registry<V>, name: Name, fuel: nat)
    requires name in reg && reg[name].dependencies == []
    requires fuel > 0
    ensures Resolve(reg, name, fuel) == Some(Success(reg[name].factory([])))
  {
  }

  /**
   * A missing module anywhere on a dependency path makes the whole
   * resolution fail: `path` leads from the requested name through declared
   * dependencies to a name that is not registered.
   */
  lemma {:induction false} MissingOnPathFails<V>(reg: Registry<V>, path: seq<Name>, fuel: nat)
    requires |path| > 0
    requires forall i :: 0 <= i < |path| - 1 ==> path[i] in reg && path[i + 1] in reg[path[i]].dependencies
    requires path[|path| - 1] !in reg
    ensures !Succeeds(Resolve(reg, path[0], fuel))
    decreases |path|
  {
    if |path| > 1 && Succeeds(Resolve(reg, path[0], fuel)) {
      var ds := reg[path[0]].dependencies;
      var args := ResolveAll(reg, ds, fuel - 1).value.value;
      ResolveAllPointwise(reg, ds, fuel - 1, args);
      var j :| 0 <= j < |ds| && ds[j] == path[1];
      assert Succeeds(Resolve(reg, path[1], fuel - 1));
      MissingOnPathFails(reg, path[1..], fuel - 1);
      assert false;
    }
  }

  /**
   * `rank` witnesses that the part of the graph it covers is fully
   * registered, closed under dependencies and acyclic: every dependency
   * has a strictly smaller rank.
   */
  ghost predicate Ranked<V>(reg: Registry<V>, rank: map<Name, nat>)
  {
    forall n :: n in rank ==>
      n in reg && forall d :: d in reg[n].dependencies ==> d in rank && rank[d] < rank[n]
  }

  /**
   * When everything reachable from `name` is registered and the reachable
   * graph is acyclic, `get(name)` finishes within depth `rank[name] + 1`
   * and succeeds. Diamonds are allowed: nothing rejects a name met twice.
   */
  lemma {:induction false} RankedResolves<V>(reg: Registry<V>, rank: map<Name, nat>, name: Name)
    requires Ranked(reg, rank) && name in rank
    ensures Succeeds(Resolve(reg, name, rank[name] + 1))
    decreases rank[name]
  {
    var ds := reg[name].dependencies;
    forall i | 0 <= i < |ds|
      ensures Succeeds(Resolve(reg, ds[i], rank[name]))
    {
      assert ds[i] in ds;
      RankedResolves(reg, rank, ds[i]);
      ResolveMonotonic(reg, ds[i], rank[ds[i]] + 1, rank[name]);
    }
    ResolveAllSucceeds(reg, ds, rank[name]);
  }

  /**
   * `rank` covers registered names only. Each dependency of a ranked name
   * is either unregistered or ranked lower, so no cycle runs through
   * registered names, but modules may be missing.
   */
  ghost predicate RankedUpToMissing<V>(reg: Registry<V>, rank: map<Name, nat>)
  {
    forall n :: n in rank ==>
      n in reg && forall d :: d in reg[n].dependencies ==> d !in reg || (d in rank && rank[d] < rank[n])
  }

  /** Without a cycle through registered names, `get(name)` finishes within depth `rank[name] + 1`. */
  lemma {:induction false} RankedFinishes<V>(reg: Registry<V>, rank: map<Name, nat>, name: Name)
    requires RankedUpToMissing(reg, rank) && name in rank
    ensures Resolve(reg, name, rank[name] + 1).Some?
    decreases rank[name], 2, 0
  {
    RankedFinishesAll(reg, rank, reg[name].dependencies, rank[name]);
  }

  lemma {:induction false} RankedFinishesAll<V>(reg: Registry<V>, rank: map<Name, nat>, names: seq<Name>, bound: nat)
    requires RankedUpToMissing(reg, rank)
    requires forall d :: d in names ==> d !in reg || (d in rank && rank[d] < bound)
    ensures ResolveAll(reg, names, bound).Some?
    decreases bound, 1, |names|
  {
    if names != [] {
      var init := names[..|names| - 1];
      var last := names[|names| - 1];
      assert forall d :: d in init ==> d in names;
      RankedFinishesAll(reg, rank, init, bound);
      assert last in names;
      if last in reg {
        RankedFinishes(reg, rank, last);
        ResolveMonotonic(reg, last, rank[last] + 1, bound);
      }
    }
  }

  /**
   * A missing module deep in the tree reaches the caller: without a cycle
   * through registered names, a dependency path that ends in an
   * unregistered name makes `get` finish with "couldn't find module" for
   * some unregistered module.
   */
  lemma RankedMissingFails<V>(reg: Registry<V>, rank: map<Name, nat>, path: seq<Name>)
    requires RankedUpToMissing(reg, rank)
    requires |path| > 0 && path[0] in rank
    requires forall i :: 0 <= i < |path| - 1 ==> path[i] in reg && path[i + 1] in reg[path[i]].dependencies
    requires path[|path| - 1] !in reg
    ensures var r := Resolve(reg, path[0], rank[path[0]] + 1);
      r.Some? && r.value.Failure? && r.value.error.ModuleNotFound? && r.value.error.name !in reg
  {
    var fuel := rank[path[0]] + 1;
    RankedFinishes(reg, rank, path[0]);
    MissingOnPathFails(reg, path, fuel);
    FailureIsMissingModule(reg, path[0], fuel, Resolve(reg, path[0], fuel).value.error);
  }

  /**
   * `get` has no cycle check: when every name of a set is registered
   * and declares a member of the set as its first dependency, resolving any
   * of them never finishes, at any depth.
   */
  lemma {:induction false} FirstDependencyCycleDiverges<V>(reg: Registry<V>, cycle: set<Name>, name: Name, fuel: nat)
    requires forall m :: m in cycle ==>
      m in reg && |reg[m].dependencies| > 0 && reg[m].dependencies[0] in cycle
    requires name in cycle
    ensures Resolve(reg, name, fuel) == None
    decreases fuel
  {
    if fuel > 0 {
      var ds := reg[name].dependencies;
      FirstDependencyCycleDiverges(reg, cycle, ds[0], fuel - 1);
      assert ds[..1][..0] == [];
      PrefixDecides(reg, ds, 1, fuel - 1);
    }
  }

  /** `names` is fully registered and contains every dependency of its members. */
  ghost predicate DependencyClosed<V>(reg: Registry<V>, names: set<Name>)
  {
    forall n :: n in names ==> n in reg && forall d :: d in reg[n].dependencies ==> d in names
  }

  /** Inside a fully registered, dependency-closed set no "couldn't find module" can arise. */
  lemma {:induction false} ClosedNeverFails<V>(reg: Registry<V>, closed: set<Name>, name: Name, fuel: nat)
    requires DependencyClosed(reg, closed) && name in closed
    ensures !(Resolve(reg, name, fuel).Some? && Resolve(reg, name, fuel).value.Failure?)
    decreases fuel, 0, 0
  {
    if fuel > 0 {
      ClosedNeverFailsAll(reg, closed, reg[name].dependencies, fuel - 1);
    }
  }

  lemma {:induction false} ClosedNeverFailsAll<V>(reg: Registry<V>, closed: set<Name>, names: seq<Name>, fuel: nat)
    requires DependencyClosed(reg, closed)
    requires forall d :: d in names ==> d in closed
    ensures !(ResolveAll(reg, names, fuel).Some? && ResolveAll(reg, names, fuel).value.Failure?)
    decreases fuel, 1, |names|
  {
    if names != [] {
      var init := names[..|names| - 1];
      assert forall d :: d in init ==> d in names;
      ClosedNeverFailsAll(reg, closed, init, fuel);
      assert names[|names| - 1] in names;
      ClosedNeverFails(reg, closed, names[|names| - 1], fuel);
    }
  }

  /**
   * `next` picks for each of its names a dependency that is again one of
   * its names, so each name starts an endless chain of dependencies (it
   * reaches a cycle).
   */
  ghost predicate EndlessChains<V>(reg: Registry<V>, next: map<Name, Name>)
  {
    forall m :: m in next ==> m in reg && next[m] in reg[m].dependencies && next[m] in next
  }

  /** A name that starts an endless chain of dependencies never resolves to a value. */
  lemma {:induction false} EndlessChainNeverSucceeds<V>(reg: Registry<V>, next: map<Name, Name>, name: Name, fuel: nat)
    requires EndlessChains(reg, next) && name in next
    ensures !Succeeds(Resolve(reg, name, fuel))
    decreases fuel
  {
    if Succeeds(Resolve(reg, name, fuel)) {
      var ds := reg[name].dependencies;
      var args := ResolvedValue(reg, name, fuel, Resolve(reg, name, fuel).value.value);
      var j :| 0 <= j < |ds| && ds[j] == next[name];
      EndlessChainNeverSucceeds(reg, next, next[name], fuel - 1);
      assert false;
    }
  }

  /**
   * No cycle check: when everything reachable from `name` is registered
   * (`closed`) and `name` reaches a cycle (`next`), `get(name)` never
   * finishes, at any depth.
   */
  lemma ReachableCycleDiverges<V>(reg: Registry<V>, closed: set<Name>, next: map<Name, Name>, name: Name, fuel: nat)
    requires DependencyClosed(reg, closed) && closed >= next.Keys
    requires EndlessChains(reg, next) && name in next
    ensures Resolve(reg, name, fuel) == None
  {
    EndlessChainNeverSucceeds(reg, next, name, fuel);
    ClosedNeverFails(reg, closed, name, fuel);
  }
}
