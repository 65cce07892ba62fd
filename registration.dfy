/**
 * The registry of a SimpleDi container: a string-keyed dictionary of
 * `{name, factory, dependencies}` entries, modelled as a finite map.
 */
module Registration {
  import opened Wrappers

  type Name = string

  /** A factory receives the resolved dependencies, in order, and builds a value. */
  type Factory<!V> = seq<V> -> V

  datatype Entry<!V> = Entry(name: Name, factory: Factory<V>, dependencies: seq<Name>)

  type Registry<!V> = map<Name, Entry<V>>

  /** What a caller may pass as `factory`: JavaScript checks it with `typeof`. */
  datatype FactoryArg<!V> = Function(call: Factory<V>) | NotAFunction

  /** The errors the container throws. */
  datatype Error = FactoryNotAFunction | ModuleNotFound(name: Name)

  /** The text of the JavaScript `Error` thrown for each kind. */
  function Message(e: Error): (s: string)
  {
    match e
    case FactoryNotAFunction => "factory must be a function!"
    case ModuleNotFound(name) => "couldn't find module: " + name
  }

  /** Every entry is stored under its own name. */
  ghost predicate Keyed<V>(reg: Registry<V>)
  {
    forall n :: n in reg ==> reg[n].name == n
  }

  /** `dependencies || []`: an omitted dependency list means no dependencies. */
  function DependenciesOrEmpty(dependencies: Option<seq<Name>>): (ds: seq<Name>)
  {
    match dependencies
    case None => []
    case Some(ds) => ds
  }

  /** `getRegistryItem(name)`: the stored entry, or nothing. */
  function Lookup<V>(reg: Registry<V>, name: Name): (r: Option<Entry<V>>)
    ensures r.Some? <==> name in reg
    ensures r.Some? ==> r.value == reg[name]
    ensures Keyed(reg) && r.Some? ==> r.value.name == name
  {
    if name in reg then Some(reg[name]) else None
  }

  /**
   * `register(name, factory, dependencies)` on a registry value: a
   * non-function factory is refused and the registry is left as it was;
   * otherwise the entry for `name` is (re)placed and no other name changes.
   */
  function Register<V>(reg: Registry<V>, name: Name, factory: FactoryArg<V>,
                       dependencies: Option<seq<Name>>): (r: Result<Registry<V>, Error>)
    ensures r.Failure? <==> factory.NotAFunction?
    ensures r.Failure? ==> r.error == FactoryNotAFunction
    ensures r.Success? ==>
      Lookup(r.value, name) == Some(Entry(name, factory.call, DependenciesOrEmpty(dependencies)))
    ensures r.Success? ==>
      forall other :: other != name ==> Lookup(r.value, other) == Lookup(reg, other)
    ensures r.Success? ==> r.value.Keys == reg.Keys + {name}
    ensures Keyed(reg) && r.Success? ==> Keyed(r.value)
  {
    match factory
    case NotAFunction => Failure(FactoryNotAFunction)
    case Function(f) => Success(reg[name := Entry(name, f, DependenciesOrEmpty(dependencies))])
  }

  /** Registering a name twice keeps only the second entry: there is no duplicate check. */
  lemma LastRegistrationWins<V>(reg: Registry<V>, name: Name, first: Factory<V>, firstDeps: Option<seq<Name>>,
                                 second: FactoryArg<V>, secondDeps: Option<seq<Name>>)
    ensures Register(reg, name, Function(first), firstDeps).Success?
    ensures Register(Register(reg, name, Function(first), firstDeps).value, name, second, secondDeps)
            == match second
               case NotAFunction => Failure(FactoryNotAFunction)
               case Function(_) => Register(reg, name, second, secondDeps)
  {
    if second.Function? {
      var once := Register(reg, name, Function(first), firstDeps).value;
      assert once[name := Entry(name, second.call, DependenciesOrEmpty(secondDeps))]
          == reg[name := Entry(name, second.call, DependenciesOrEmpty(secondDeps))];
    }
  }

  /** Entries under different names can be registered in either order. */
  lemma RegistrationOrderIrrelevant<V>(reg: Registry<V>, a: Name, fa: Factory<V>, da: Option<seq<Name>>,
                                        b: Name, fb: Factory<V>, db: Option<seq<Name>>)
    requires a != b
    ensures Register(reg, a, Function(fa), da).Success? && Register(reg, b, Function(fb), db).Success?
    ensures Register(Register(reg, a, Function(fa), da).value, b, Function(fb), db)
         == Register(Register(reg, b, Function(fb), db).value, a, Function(fa), da)
  {
    var ea := Entry(a, fa, DependenciesOrEmpty(da));
    var eb := Entry(b, fb, DependenciesOrEmpty(db));
    assert reg[a := ea][b := eb] == reg[b := eb][a := ea];
  }
}
