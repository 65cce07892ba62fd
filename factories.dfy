/**
 * `SimpleDi.constructorFactory`: turns a constructor into a factory by
 * binding the factory's arguments to the constructor and invoking it with
 * `new`. Only the argument forwarding is modelled; the constructed object
 * is left abstract.
 */
module Factories {
  import opened Registration

  /** `new C(a1, ..., an)`, as an abstract function of the arguments. */
  type Constructor<!V> = seq<V> -> V

  /** A constructor with some leading arguments already bound (`C.bind(thisArg, ...args)`). */
  datatype BoundConstructor<!V> = BoundConstructor(target: Constructor<V>, boundArgs: seq<V>)

  /** Binds `args` in front of the constructor's arguments; the receiver is dropped, as `new` ignores it. */
  function Bind<V>(target: Constructor<V>, args: seq<V>): (b: BoundConstructor<V>)
  {
    BoundConstructor(target, args)
  }

  /** `new B(...args)` on a bound constructor: the bound arguments come first. */
  function New<V>(b: BoundConstructor<V>, args: seq<V>): (v: V)
  {
    b.target(b.boundArgs + args)
  }

  /**
   * The factory copies its arguments, binds them all to the constructor and
   * constructs with no further arguments, so the constructor receives
   * exactly the factory's arguments, in the same order.
   */
  function ConstructorFactory<V(!new)>(c: Constructor<V>): (f: Factory<V>)
    ensures forall args :: f(args) == c(args)
  {
    assert forall args: seq<V> :: args + [] == args;
    args => New(Bind(c, args), [])
  }
}
