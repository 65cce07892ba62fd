# SimpleDi: a dependency-injection container, modelled in Dafny

SimpleDi keeps a registry that maps names to `{name, factory, dependencies}`
entries. `register` adds or replaces an entry. `getRegistryItem` looks one
up. `get(name)` resolves a name: it looks the entry up, resolves each
declared dependency in order by calling itself, and applies the entry's
factory to the results. `SimpleDi.constructorFactory` turns a constructor
into a factory by forwarding the factory's arguments to `new`.

The model follows `src/simpledi.js` as written. The test suite also
exercises an API that this file does not define: `withNew`, `always`,
`withNewOnce`, `registerBulk`, `getResolvedDependencyCount`, the
`overwrite` argument with its duplicate check, extra arguments to `get`,
and "Circular Dependency detected" errors. The model has none of these.
Registering a name twice replaces the old entry silently. When `get`
reaches a cycle of registered names before any missing module, it recurses
until the JavaScript stack overflows; the model, whose stack is unbounded,
says it never finishes.

Modules, one per part of the file:

- `Wrappers`: `Option`, `Result` and `Outcome`, used where JavaScript throws.
- `Registration`: entries, the registry as a `map<Name, Entry<V>>`, and
  `Lookup` and `Register` on registry values. Resolved values have an
  abstract type `V`. A factory is a pure function `seq<V> -> V`. The
  argument `register` receives is `Function(f)` or `NotAFunction`, which
  models the `typeof factory !== 'function'` test. An omitted dependency
  list is `None` (`dependencies || []`).
- `Resolver`: the meaning of `get`. `Resolve(reg, name, fuel)` and
  `ResolveAll(reg, names, fuel)` say what `get` and its `forEach` loop
  compute when the recursion depth is at most `fuel`. `None` means the
  recursion did not finish within that depth. The lemmas cover:
  - failure propagation: when no cycle runs through registered names, a
    missing module at any depth ends `get` with a "couldn't find module"
    error (for the first missing module met in declaration order);
  - declaration order;
  - independence from the depth bound;
  - success on acyclic, fully registered graphs, diamonds included;
  - non-termination when the name reaches a cycle and everything reachable
    is registered;
  - non-termination on cycles through first dependencies, whatever else is
    missing.
- `Factories`: `constructorFactory` as argument forwarding through a bound
  constructor.
- `Container`: the `SimpleDi` class. Its `registry` field is reassigned by
  `Register`. `Get` is an imperative, recursive method: a `while` loop
  pushes each resolved dependency into `deps`, then the factory is applied.
  It is proved equal to `Resolve`. The ghost `fuel` argument bounds the
  recursion, and its precondition says the JavaScript recursion finishes
  within that bound. `Get` has no `modifies` clause, so it cannot change the
  registry.
- `Scenarios`: the tests that `src/simpledi.js` really implements, stated against the
  class. Also a diamond graph, cycles, a missing module met before a cycle,
  and repeated `get`.

## Model

| member | source | states |
|---|---|---|
| `Registration.Message` | src/simpledi.js:10-12 | the two error texts: "factory must be a function!" and "couldn't find module: " + name (line 23); `Resolver.UnregisteredFails` states the second for `get` |
| `Registration.DependenciesOrEmpty` | src/simpledi.js:16 | `dependencies \|\| []`: an omitted list becomes the empty list; `Registration.Register` states what gets stored |
| `Registration.Lookup` | src/simpledi.js:34-36 | an entry is returned exactly when the name is registered, and it is the stored entry `reg[name]`; in a registry where entries sit under their own names, it carries the name asked for |
| `Registration.Register` | src/simpledi.js:9-18 | fails with "factory must be a function!" exactly when the factory is not a function; on success the name maps to `{name, factory, dependencies or []}`, every other name's lookup is unchanged, the key set grows by just that name, and entries stay under their own names |
| `Registration.LastRegistrationWins` | src/simpledi.js:13-17 | registering a name a second time gives the same registry as registering only the second entry (no duplicate check); a second registration with a non-function fails |
| `Registration.RegistrationOrderIrrelevant` | src/simpledi.js:13-17 | registrations of two different names commute |
| `Container.SimpleDi.constructor` | src/simpledi.js:3-5 | a new container has an empty registry |
| `Container.SimpleDi.Register` | src/simpledi.js:9-18 | the method's result and new registry are exactly those of `Registration.Register`: on a non-function it reports the error and leaves the registry unchanged |
| `Container.SimpleDi.GetRegistryItem` | src/simpledi.js:34-36 | side-effect-free lookup: returns the entry stored under the name exactly when the name is registered, and that entry carries the name asked for |
| `Container.SimpleDi.Get` | src/simpledi.js:20-32 | the recursive loop returns exactly the outcome `Resolve` specifies (a value or the first "couldn't find module" error) and changes no state |
| `Resolver.Resolve` | src/simpledi.js:20-32 | the meaning of `get` within a depth bound; `Resolver.ResolvedValue`, `Resolver.UnregisteredFails`, `Resolver.FailureIsMissingModule`, `Resolver.RankedResolves` and `Resolver.ReachableCycleDiverges` characterise it |
| `Resolver.ResolveAll` | src/simpledi.js:25-28 | the meaning of the `forEach` loop over the dependencies; `Resolver.ResolveAllPointwise` and `Resolver.PrefixDecides` characterise it |
| `Resolver.PrefixDecides` | src/simpledi.js:26-28 | once a prefix of the dependency list fails or does not finish, the whole list has that same outcome: later dependencies are never resolved |
| `Resolver.ResolveAllPointwise` | src/simpledi.js:25-28 | the dependency list resolves to `vs` if and only if `vs` has one value per name and each name resolves to the value at its own position |
| `Resolver.ResolveAllSucceeds` | src/simpledi.js:25-28 | if every name of a list resolves to a value, the list does |
| `Resolver.ResolveMonotonic` | src/simpledi.js:20-32 | an outcome reached within some depth stays the same for any larger depth, so it does not depend on the bound |
| `Resolver.ResolveAllMonotonic` | src/simpledi.js:26-28 | the same for dependency lists |
| `Resolver.UnregisteredFails` | src/simpledi.js:21-24 | `get` of an unregistered name fails with "couldn't find module: " followed by the name, at any depth |
| `Resolver.FailureIsMissingModule` | src/simpledi.js:20-32 | every error from `get` is a missing-module error naming an unregistered module (factories are assumed to return normally) |
| `Resolver.FailureIsMissingModuleAll` | src/simpledi.js:26-28 | the same for a dependency list |
| `Resolver.ResolvedValue` | src/simpledi.js:25-31 | a successful `get(name)` means the name is registered and the result is its factory applied to exactly one value per declared dependency, each that dependency's own resolved value, in declaration order |
| `Resolver.NoDependencies` | src/simpledi.js:25-31 | a registered name without dependencies resolves to its factory applied to the empty argument list |
| `Resolver.MissingOnPathFails` | src/simpledi.js:21-28 | if a chain of declared dependencies from the requested name reaches an unregistered name, `get` does not succeed |
| `Resolver.RankedFinishes` | src/simpledi.js:20-32 | when a rank over the registered names decreases along every dependency that is registered (no cycle through registered names, modules may be missing), `get` finishes within depth rank + 1 |
| `Resolver.RankedFinishesAll` | src/simpledi.js:26-28 | the same for a dependency list: it finishes within any bound above the ranks of its registered names |
| `Resolver.RankedMissingFails` | src/simpledi.js:21-28 | with no cycle through registered names, a dependency path that ends at an unregistered name makes `get` finish with "couldn't find module" for an unregistered module, from any depth |
| `Resolver.RankedResolves` | src/simpledi.js:20-32 | when everything reachable is registered and a rank strictly decreasing along dependencies exists (the reachable graph is acyclic), `get` finishes and succeeds |
| `Resolver.FirstDependencyCycleDiverges` | src/simpledi.js:26-28 | no cycle check: if every name in a set is registered and its first dependency is in the set, resolving any of them never finishes, even when other names are missing |
| `Resolver.ClosedNeverFails` | src/simpledi.js:21-24 | when everything reachable from a name is registered, `get` never throws "couldn't find module" |
| `Resolver.ClosedNeverFailsAll` | src/simpledi.js:26-28 | the same for a dependency list |
| `Resolver.EndlessChainNeverSucceeds` | src/simpledi.js:25-31 | a name that starts an endless chain of dependencies (one that reaches a cycle) never resolves to a value |
| `Resolver.ReachableCycleDiverges` | src/simpledi.js:20-32 | no cycle check: when everything reachable is registered and the name reaches a cycle, `get` finishes within no depth |
| `Factories.Bind` | src/simpledi.js:42 | `Constructor.bind(thisArg, ...deps)`: the arguments are bound in front, the receiver dropped; `Factories.ConstructorFactory` states the effect |
| `Factories.New` | src/simpledi.js:43 | `new` on a bound constructor calls it with the bound arguments first; `Factories.ConstructorFactory` states the effect |
| `Factories.ConstructorFactory` | src/simpledi.js:38-45 | the factory passes all of its arguments, unchanged and in order, to the constructor |
| `Scenarios.RegistersAndGetsASimpleObject` | test/simpledi-spec.js:11-18 | register a factory that returns a fixed object, then `get` yields that object |
| `Scenarios.LeafDependencies` | src/simpledi.js:25-31 | a name whose dependencies have none of their own resolves to its factory applied to their factories' values, in order |
| `Scenarios.ResolvesADependency` | test/simpledi-spec.js:82-95 | `Foo -> [Bar]`, registered before `Bar`: `get("Foo")` is `Foo` constructed with a new `Bar` |
| `Scenarios.ResolvesMultipleDependencies` | test/simpledi-spec.js:140-159 | `Foo -> [Bar, Baz]`: `Foo` is constructed with a `Bar` and a `Baz`, in that order |
| `Scenarios.DiamondResolves` | src/simpledi.js:25-31 | the diamond `A -> [B, C]`, `B -> [D]`, `C -> [D]` resolves, and `D`'s factory is applied once in each branch |
| `Scenarios.MutualDependencyNeverFinishes` | src/simpledi.js:26-28 | `Foo -> [Bar]`, `Bar -> [Foo]`: `get("Foo")` finishes within no depth |
| `Scenarios.LaterSelfDependencyNeverFinishes` | src/simpledi.js:26-28 | `A -> [B, A]`, `B -> []`: `get("A")` finishes within no depth |
| `Scenarios.MissingModuleBeforeCycle` | src/simpledi.js:21-28 | `A -> [M, A]` with `M` unregistered: `get("A")` throws "couldn't find module: M" before reaching the cycle |
| `Scenarios.DeepMissingModuleFails` | src/simpledi.js:21-28 | `A -> [B, C]`, `B -> [M]` with `M` unregistered: `get("A")` throws "couldn't find module: M" two levels down, and `C` is never resolved |
| `Scenarios.GetIsRepeatable` | src/simpledi.js:20-32 | two successive `get`s of the same name give the same outcome, since `get` leaves the registry unchanged |

## Left out

- The API that only the test suite uses (`withNew`, `always`, `withNewOnce`, `registerBulk`, `getResolvedDependencyCount`, the `overwrite` argument, extra arguments to `get`, "Circular Dependency detected" errors). `src/simpledi.js` does not define it.
- Stack exhaustion: the JavaScript call stack is finite, and the model's is not. Recursion that never finishes (a cycle reached before any missing name) ends there in a `RangeError`; the model says `Resolve` is `None` at every depth, and `Container.SimpleDi.Get` cannot be called. A long enough acyclic chain can overflow the stack too; the model resolves it.
- Container.SimpleDi.Get: the ghost `fuel` argument has no counterpart in `src/simpledi.js`. It only bounds the recursion so that termination can be proved; `Resolver.ResolveMonotonic` shows the outcome does not depend on it.
- Factories.ConstructorFactory: object identity, `new`, `Function.prototype.bind` and prototypes are not modelled. The constructed object is an abstract value, and the throwaway receiver objects (`thisArg`) are dropped because `new` ignores a bound receiver.
- Factories are pure functions that always return normally. Side effects inside user factories are not modelled, and neither is a factory that calls `register` during a `get`. In the JavaScript a factory that throws makes `get` throw that exception, and the remaining dependencies are never resolved. A class registered directly is an example: `typeof` calls it a function, so `register` accepts it, but `apply` at src/simpledi.js:31 throws a `TypeError`. The model has neither error.
- Names are strings and the registry is a plain map. JavaScript's coercion of non-string keys is not modelled. Neither are keys inherited from `Object.prototype` (such as `"constructor"`, or `"__proto__"` on `register`), which a plain `{}` dictionary exposes.
- The dependency list is a sequence of names or omitted. Other values are excluded by the types: `register` stores any truthy value as it is, and `get` then calls its `forEach`, which accepts a `Set` or any object with a `forEach` method and throws a `TypeError` for the rest.
- Aliasing: `register` stores the caller's `dependencies` array itself, not a copy (src/simpledi.js:16), and `getRegistryItem` returns the live entry object (src/simpledi.js:35). A caller who later mutates either one changes what `get` resolves or which factory it calls, without any `register`. The model stores and returns values, so it does not capture this.
- The receiver of factory calls: `get` calls each factory with a fresh empty object as `this` (src/simpledi.js:30-31), which a factory could read, change or return. The model's factories receive only their argument list.
- `example.js` is a wiring demo that ends in `console.log`, which is output, so it is not part of this model.
