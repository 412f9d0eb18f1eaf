/**
 * The streaming evaluator (`write_node` and `write_output_string` in
 * mm0-rs/src/elab/inout.rs). Built-in operations write bytes and nibbles into
 * the current writer; an application of any other def is unfolded: each
 * argument and each heap slot of the def's body is evaluated in a fresh
 * writer into a `StringPart`, and the body's head is then written into the
 * current writer against those parts.
 *
 * Unfolding terminates because a def's body only uses terms declared before
 * it (`EnvWF`); the ghost `bound` is a term id above every term still to be
 * unfolded.
 */
module Output {
  import opened Wrappers
  import opened Env
  import opened Inout
  import opened Writer

  /** The context every evaluation step needs. */
  predicate Ready(terms: Terms, env: Environment, bound: nat)
  {
    EnvWF(env) && RegistryFits(env, terms) && bound <= |env.terms|
  }

  /** `write_node`: writes `e` into the writer state `st`, against the parts
      `heap` that references resolve to. */
  function Written(terms: Terms, env: Environment, heap: seq<StringPart>, e: ExprNode, st: WriterState, bound: nat)
    : Outcome<WriterState>
    requires Ready(terms, env, bound) && NodeWF(env, e, |heap|, bound)
    decreases bound, e, 0
  {
    match e
    case Dummy(_, _) => Outcome(st, Some(DummyVariable))
    case Ref(i) => Outcome(st.WritePart(heap[i]), None)
    case App(t, ns) =>
      if t in terms then
        match terms[t]
        case S0 => Outcome(st, None)
        case S1 => Written(terms, env, heap, ns[0], st, bound)
        case Hex(h) => Outcome(st.WriteHex(h), None)
        case _ =>
          var o := Written(terms, env, heap, ns[0], st, bound);
          if o.err.Some? then o else Written(terms, env, heap, ns[1], o.st, bound)
      else
        var kind := env.terms[t].kind;
        if kind.Definition? && kind.value.Some? then
          var expr := kind.value.value;
          assert TermWF(env, t);
          match ArgParts(terms, env, heap, ns, bound)
          case Failure(err) => Outcome(st, Some(err))
          case Success(args) =>
            match HeapParts(terms, env, expr.heap[|ns|..], args, t)
            case Failure(err) => Outcome(st, Some(err))
            case Success(refs) => Written(terms, env, refs, expr.head, st, t)
        else Outcome(st, Some(UnknownDefinition))
  }

  /** Evaluates `e` in a fresh writer and turns the writer into a part. */
  function Part(terms: Terms, env: Environment, heap: seq<StringPart>, e: ExprNode, bound: nat)
    : Result<StringPart, Error>
    requires Ready(terms, env, bound) && NodeWF(env, e, |heap|, bound)
    decreases bound, e, 1
  {
    var o := Written(terms, env, heap, e, Fresh, bound);
    if o.err.Some? then Failure(o.err.value) else Success(o.st.Into())
  }

  /** The parts of the actual arguments of an unfolded def, left to right. */
  function ArgParts(terms: Terms, env: Environment, heap: seq<StringPart>, ns: seq<ExprNode>, bound: nat)
    : (r: Result<seq<StringPart>, Error>)
    requires Ready(terms, env, bound)
    requires forall k :: 0 <= k < |ns| ==> NodeWF(env, ns[k], |heap|, bound)
    ensures r.Success? ==> |r.value| == |ns|
    decreases bound, ns, 2
  {
    if ns == [] then Success([])
    else
      var init :- ArgParts(terms, env, heap, ns[..|ns| - 1], bound);
      var last :- Part(terms, env, heap, ns[|ns| - 1], bound);
      Success(init + [last])
  }

  /** Heap slots evaluated in index order, each against `base` and the parts
      of the slots before it; the result is `base` followed by their parts. */
  function HeapParts(terms: Terms, env: Environment, nodes: seq<ExprNode>, base: seq<StringPart>, bound: nat)
    : (r: Result<seq<StringPart>, Error>)
    requires Ready(terms, env, bound)
    requires forall k :: 0 <= k < |nodes| ==> NodeWF(env, nodes[k], |base| + k, bound)
    ensures r.Success? ==> |r.value| == |base| + |nodes| && r.value[..|base|] == base
    decreases bound, nodes, 2
  {
    if nodes == [] then Success(base)
    else
      var prev :- HeapParts(terms, env, nodes[..|nodes| - 1], base, bound);
      var p :- Part(terms, env, prev, nodes[|nodes| - 1], bound);
      Success(prev + [p])
  }

  lemma {:induction false} ArgPartsPrefixFailure(terms: Terms, env: Environment, heap: seq<StringPart>, ns: seq<ExprNode>, bound: nat, k: nat)
    requires Ready(terms, env, bound)
    requires forall j :: 0 <= j < |ns| ==> NodeWF(env, ns[j], |heap|, bound)
    requires k <= |ns| && ArgParts(terms, env, heap, ns[..k], bound).Failure?
    ensures ArgParts(terms, env, heap, ns, bound) == ArgParts(terms, env, heap, ns[..k], bound)
    decreases |ns|
  {
    if k < |ns| {
      var init := ns[..|ns| - 1];
      assert init[..k] == ns[..k];
      ArgPartsPrefixFailure(terms, env, heap, init, bound, k);
    } else {
      assert ns[..k] == ns;
    }
  }

  lemma {:induction false} HeapPartsPrefixFailure(terms: Terms, env: Environment, nodes: seq<ExprNode>, base: seq<StringPart>, bound: nat, k: nat)
    requires Ready(terms, env, bound)
    requires forall j :: 0 <= j < |nodes| ==> NodeWF(env, nodes[j], |base| + j, bound)
    requires k <= |nodes| && HeapParts(terms, env, nodes[..k], base, bound).Failure?
    ensures HeapParts(terms, env, nodes, base, bound) == HeapParts(terms, env, nodes[..k], base, bound)
    decreases |nodes|
  {
    if k < |nodes| {
      var init := nodes[..|nodes| - 1];
      assert init[..k] == nodes[..k];
      HeapPartsPrefixFailure(terms, env, init, base, bound, k);
    } else {
      assert nodes[..k] == nodes;
    }
  }

  lemma HeapPartsSnoc(terms: Terms, env: Environment, nodes: seq<ExprNode>, base: seq<StringPart>, bound: nat, j: nat, prev: seq<StringPart>)
    requires Ready(terms, env, bound)
    requires forall k :: 0 <= k < |nodes| ==> NodeWF(env, nodes[k], |base| + k, bound)
    requires j < |nodes| && HeapParts(terms, env, nodes[..j], base, bound) == Success(prev)
    ensures |prev| == |base| + j
    ensures var p := Part(terms, env, prev, nodes[j], bound);
      HeapParts(terms, env, nodes[..j + 1], base, bound) == if p.Failure? then Failure(p.error) else Success(prev + [p.value])
  {
    assert nodes[..j + 1][..j] == nodes[..j];
    assert nodes[..j + 1][j] == nodes[j];
  }

  lemma ArgPartsSnoc(terms: Terms, env: Environment, heap: seq<StringPart>, ns: seq<ExprNode>, bound: nat, j: nat, args: seq<StringPart>)
    requires Ready(terms, env, bound)
    requires forall k :: 0 <= k < |ns| ==> NodeWF(env, ns[k], |heap|, bound)
    requires j < |ns| && ArgParts(terms, env, heap, ns[..j], bound) == Success(args)
    ensures var p := Part(terms, env, heap, ns[j], bound);
      ArgParts(terms, env, heap, ns[..j + 1], bound) == if p.Failure? then Failure(p.error) else Success(args + [p.value])
  {
    assert ns[..j + 1][..j] == ns[..j];
    assert ns[..j + 1][j] == ns[j];
  }

  /** `write_node`, on a writer updated in place. */
  method WriteNode(terms: Terms, env: Environment, heap: seq<StringPart>, e: ExprNode, w: StringWriter, ghost bound: nat)
    returns (err: Option<Error>)
    requires Ready(terms, env, bound) && NodeWF(env, e, |heap|, bound)
    modifies w
    ensures Outcome(w.State(), err) == Written(terms, env, heap, e, old(w.State()), bound)
    decreases bound, e, 0
  {
    match e
    case Dummy(_, _) =>
      err := Some(DummyVariable);
    case Ref(i) =>
      w.WritePart(heap[i]);
      err := None;
    case App(t, ns) =>
      if t in terms {
        match terms[t]
        case S0 =>
          err := None;
        case S1 =>
          err := WriteNode(terms, env, heap, ns[0], w, bound);
        case Hex(h) =>
          w.WriteHex(h);
          err := None;
        case _ =>
          err := WriteNode(terms, env, heap, ns[0], w, bound);
          if err.None? {
            err := WriteNode(terms, env, heap, ns[1], w, bound);
          }
      } else if env.terms[t].kind.Definition? && env.terms[t].kind.value.Some? {
        var expr := env.terms[t].kind.value.value;
        assert TermWF(env, t);
        var args: seq<StringPart> := [];
        for k := 0 to |ns|
          invariant ArgParts(terms, env, heap, ns[..k], bound) == Success(args)
          invariant w.State() == old(w.State())
        {
          ArgPartsSnoc(terms, env, heap, ns, bound, k, args);
          var aw := new StringWriter();
          var e' := WriteNode(terms, env, heap, ns[k], aw, bound);
          if e'.Some? {
            ArgPartsPrefixFailure(terms, env, heap, ns, bound, k + 1);
            return e';
          }
          args := args + [aw.State().Into()];
        }
        assert ns[..|ns|] == ns;
        var refs := WriteHeap(terms, env, expr.heap[|ns|..], args, t);
        if refs.Failure? {
          return Some(refs.error);
        }
        err := WriteNode(terms, env, refs.value, expr.head, w, t);
      } else {
        err := Some(UnknownDefinition);
      }
  }

  /** The heap loop shared by `write_output_string` and the unfolding branch
      of `write_node`: each slot in a fresh writer, in index order. */
  method WriteHeap(terms: Terms, env: Environment, nodes: seq<ExprNode>, base: seq<StringPart>, ghost bound: nat)
    returns (r: Result<seq<StringPart>, Error>)
    requires Ready(terms, env, bound)
    requires forall k :: 0 <= k < |nodes| ==> NodeWF(env, nodes[k], |base| + k, bound)
    ensures r == HeapParts(terms, env, nodes, base, bound)
    decreases bound, nodes, 2
  {
    var args := base;
    for j := 0 to |nodes|
      invariant HeapParts(terms, env, nodes[..j], base, bound) == Success(args)
    {
      HeapPartsSnoc(terms, env, nodes, base, bound, j, args);
      var hw := new StringWriter();
      var e' := WriteNode(terms, env, args, nodes[j], hw, bound);
      if e'.Some? {
        HeapPartsPrefixFailure(terms, env, nodes, base, bound, j + 1);
        return Failure(e'.value);
      }
      args := args + [hw.State().Into()];
    }
    assert nodes[..|nodes|] == nodes;
    r := Success(args);
  }

  /** What `write_output_string` needs of a statement's heap and roots:
      every heap slot only refers to slots before it, every root to the heap. */
  predicate OutputWF(env: Environment, heap: seq<ExprNode>, exprs: seq<ExprNode>)
  {
    && (forall k :: 0 <= k < |heap| ==> NodeWF(env, heap[k], k, |env.terms|))
    && (forall k :: 0 <= k < |exprs| ==> NodeWF(env, exprs[k], |heap|, |env.terms|))
  }

  /** The roots written one after another into one writer, stopping at the
      first error. */
  function RootsWritten(terms: Terms, env: Environment, args: seq<StringPart>, exprs: seq<ExprNode>, st: WriterState)
    : Outcome<WriterState>
    requires Ready(terms, env, |env.terms|)
    requires forall k :: 0 <= k < |exprs| ==> NodeWF(env, exprs[k], |args|, |env.terms|)
    decreases |exprs|
  {
    if exprs == [] then Outcome(st, None)
    else
      var o := RootsWritten(terms, env, args, exprs[..|exprs| - 1], st);
      if o.err.Some? then o else Written(terms, env, args, exprs[|exprs| - 1], o.st, |env.terms|)
  }

  /** `write_output_string`: the heap slots are evaluated into parts, then
      every root is written into the output writer. */
  function OutputWritten(terms: Terms, env: Environment, heap: seq<ExprNode>, exprs: seq<ExprNode>, st: WriterState)
    : Outcome<WriterState>
    requires Ready(terms, env, |env.terms|) && OutputWF(env, heap, exprs)
  {
    match HeapParts(terms, env, heap, [], |env.terms|)
    case Failure(err) => Outcome(st, Some(err))
    case Success(args) => RootsWritten(terms, env, args, exprs, st)
  }

  lemma {:induction false} RootsPrefixFailure(terms: Terms, env: Environment, args: seq<StringPart>, exprs: seq<ExprNode>, st: WriterState, k: nat)
    requires Ready(terms, env, |env.terms|)
    requires forall j :: 0 <= j < |exprs| ==> NodeWF(env, exprs[j], |args|, |env.terms|)
    requires k <= |exprs| && RootsWritten(terms, env, args, exprs[..k], st).err.Some?
    ensures RootsWritten(terms, env, args, exprs, st) == RootsWritten(terms, env, args, exprs[..k], st)
    decreases |exprs|
  {
    if k < |exprs| {
      var init := exprs[..|exprs| - 1];
      assert init[..k] == exprs[..k];
      RootsPrefixFailure(terms, env, args, init, st, k);
    } else {
      assert exprs[..k] == exprs;
    }
  }

  /** `write_output_string`, on the output writer updated in place. */
  method WriteOutputString(terms: Terms, env: Environment, w: StringWriter, heap: seq<ExprNode>, exprs: seq<ExprNode>)
    returns (err: Option<Error>)
    requires Ready(terms, env, |env.terms|) && OutputWF(env, heap, exprs)
    modifies w
    ensures Outcome(w.State(), err) == OutputWritten(terms, env, heap, exprs, old(w.State()))
  {
    var args := WriteHeap(terms, env, heap, [], |env.terms|);
    if args.Failure? {
      return Some(args.error);
    }
    err := None;
    for k := 0 to |exprs|
      invariant RootsWritten(terms, env, args.value, exprs[..k], old(w.State())) == Outcome(w.State(), err)
      invariant err.None?
    {
      assert exprs[..k + 1][..k] == exprs[..k];
      assert exprs[..k + 1][k] == exprs[k];
      err := WriteNode(terms, env, args.value, exprs[k], w, |env.terms|);
      if err.Some? {
        RootsPrefixFailure(terms, env, args.value, exprs, old(w.State()), k + 1);
        return;
      }
    }
    assert exprs[..|exprs|] == exprs;
  }
}
