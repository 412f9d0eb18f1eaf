/**
 * The part of the elaborator's environment the string codec reads. The real
 * environment (atoms, declarations, sorts, terms) is not part of this model; it
 * is abstracted as a map from atom names to their sort and declaration, and a
 * sequence of term declarations indexed by term id.
 */
module Env {
  import opened Wrappers

  type SortID = nat
  type TermID = nat

  /** A binder's type: a bound variable of a sort, or a regular variable of a
      sort with a dependency mask. */
  datatype Type = Bound(sort: SortID) | Reg(sort: SortID, deps: nat)

  /** A node of an expression DAG: a reference to a binder or an earlier heap
      slot, a dummy variable, or a term application. */
  datatype ExprNode =
    | Ref(i: nat)
    | Dummy(atom: nat, sort: SortID)
    | App(t: TermID, ns: seq<ExprNode>)

  /** A definition body: a heap of shared subexpressions and the head node. */
  datatype Expr = Expr(heap: seq<ExprNode>, head: ExprNode)

  /** A term is either a term proper (no value) or a def, which may or may
      not carry a body. */
  datatype TermKind = Axiomatic | Definition(value: Option<Expr>)

  datatype TermDecl = TermDecl(args: seq<Type>, ret: (SortID, nat), kind: TermKind)

  datatype DeclKey = Term(t: TermID) | Thm(thm: nat)

  /** What an atom (a name) is bound to: possibly a sort, possibly a declaration. */
  datatype AtomData = AtomData(sort: Option<SortID>, decl: Option<DeclKey>)

  datatype Environment = Environment(atoms: map<string, AtomData>, terms: seq<TermDecl>)

  /** The expression is well-scoped and well-typed as the elaborator produces it:
      references are below `nrefs`, applications name terms below `bound` and
      carry one argument per binder of the term. */
  predicate NodeWF(env: Environment, e: ExprNode, nrefs: nat, bound: nat)
    decreases e
  {
    match e
    case Ref(i) => i < nrefs
    case Dummy(_, _) => true
    case App(t, ns) =>
      && t < bound
      && t < |env.terms|
      && |ns| == |env.terms[t].args|
      && forall k :: 0 <= k < |ns| ==> NodeWF(env, ns[k], nrefs, bound)
  }

  /** A def body: its heap starts with one slot per binder, every later slot
      refers only to earlier slots, and only terms declared before the def
      itself occur in it. */
  predicate TermWF(env: Environment, t: TermID)
    requires t < |env.terms|
  {
    var td := env.terms[t];
    match td.kind
    case Definition(Some(expr)) =>
      && |td.args| <= |expr.heap|
      && (forall k :: |td.args| <= k < |expr.heap| ==> NodeWF(env, expr.heap[k], k, t))
      && NodeWF(env, expr.head, |expr.heap|, t)
    case _ => true
  }

  /** Distinct names denote distinct sorts and distinct declarations. */
  predicate AtomsInjective(env: Environment)
  {
    forall a, b :: a in env.atoms && b in env.atoms && a != b ==>
      && (env.atoms[a].sort.Some? && env.atoms[b].sort.Some? ==> env.atoms[a].sort != env.atoms[b].sort)
      && (env.atoms[a].decl.Some? && env.atoms[b].decl.Some? ==> env.atoms[a].decl != env.atoms[b].decl)
  }

  /** The invariants the elaborator maintains for the environment. */
  predicate EnvWF(env: Environment)
  {
    && AtomsInjective(env)
    && (forall a :: a in env.atoms && env.atoms[a].decl.Some? && env.atoms[a].decl.value.Term? ==>
          env.atoms[a].decl.value.t < |env.terms|)
    && (forall t :: 0 <= t < |env.terms| ==> TermWF(env, t))
  }
}
