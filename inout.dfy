/**
 * Types shared by the pieces of the string codec: the built-in operation tags
 * the registry assigns to terms, the codec's errors, and the outcome of a
 * step that threads a mutable writer or builder.
 */
module Inout {
  import opened Wrappers
  import opened Bytes
  import opened Env

  /** The built-in string operations: `s0`, `s1`, `sadd`, `scons`, `ch` and
      the hex digits `x0`..`xf`. */
  datatype InoutStringType = S0 | S1 | SAdd | SCons | Ch | Hex(h: nibble)

  /** The registry: which terms are built-in operations. */
  type Terms = map<TermID, InoutStringType>

  /** Number of arguments of each built-in operation. */
  function Arity(k: InoutStringType): nat
  {
    match k
    case S0 => 0
    case S1 => 1
    case SAdd => 2
    case SCons => 2
    case Ch => 2
    case Hex(_) => 0
  }

  /** Every registered term exists and has as many binders as its tag takes. */
  predicate RegistryFits(env: Environment, terms: Terms)
  {
    forall t :: t in terms ==> t < |env.terms| && |env.terms[t].args| == Arity(terms[t])
  }

  /** The codec's logical errors. Sink failures are not modelled: writes always
      succeed. */
  datatype Error =
    | SortNotFound(name: string)
    | TermNotFound(name: string)
    | DefShouldBeTerm(name: string)
    | TermShouldBeDef(name: string)
    | IncorrectType(name: string, args: seq<SortID>, ret: SortID)
    | DummyNotPermitted
    | DummyVariable
    | UnknownDefinition

  /** The state a step leaves in the object it mutates, and its error if it
      stopped early. On an error the state holds what was done before it. */
  datatype Outcome<S> = Outcome(st: S, err: Option<Error>)
}
