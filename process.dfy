/**
 * The symbolic evaluator (`process_node`, `make` and `process_def` in
 * mm0-rs/src/elab/inout.rs). It turns an expression node into a segment
 * sequence: formal arguments become `Var` segments, earlier heap slots are
 * spliced in, built-in operations push literal bytes and nibbles, and any other
 * term becomes one opaque `Term` segment.
 */
module Process {
  import opened Wrappers
  import opened Env
  import opened Inout
  import opened SegBuilder

  /** What `process_node` needs of its input: references below `nrefs` (the
      formal arguments first, then earlier heap slots), every formal argument it
      reads a regular variable without dependencies, and every built-in
      application with enough arguments. */
  predicate Shaped(terms: Terms, args: seq<Type>, nrefs: nat, e: ExprNode)
    decreases e
  {
    match e
    case Ref(i) => i < nrefs && (i < |args| ==> args[i].Reg? && args[i].deps == 0)
    case Dummy(_, _) => true
    case App(t, ns) =>
      && (t in terms ==> Arity(terms[t]) <= |ns|)
      && forall k :: 0 <= k < |ns| ==> Shaped(terms, args, nrefs, ns[k])
  }

  /** `process_node`: evaluates `e` into the builder `out`, against the formal
      arguments `args` and the segment sequences `heap` of earlier heap slots. */
  function Processed(terms: Terms, args: seq<Type>, e: ExprNode, heap: seq<seq<StringSeg>>, out: BuilderState)
    : Outcome<BuilderState>
    requires Shaped(terms, args, |args| + |heap|, e)
    decreases e, 0
  {
    match e
    case Dummy(_, _) => Outcome(out, Some(DummyNotPermitted))
    case Ref(i) =>
      if i < |args| then Outcome(out.PushSeg(Var(args[i].sort, i)), None)
      else Outcome(out.Splice(heap[i - |args|]), None)
    case App(t, ns) =>
      if t !in terms then
        match MadeArgs(terms, args, ns, heap)
        case Failure(err) => Outcome(out, Some(err))
        case Success(segs) => Outcome(out.PushSeg(StringSeg.Term(t, segs)), None)
      else
        match terms[t]
        case S0 => Outcome(out, None)
        case S1 => Processed(terms, args, ns[0], heap, out)
        case Hex(h) => Outcome(out.PushHex(h), None)
        case _ =>
          var o := Processed(terms, args, ns[0], heap, out);
          if o.err.Some? then o else Processed(terms, args, ns[1], heap, o.st)
  }

  /** `make(|out| process_node(.., e, .., out))`: evaluates `e` into an empty
      builder and flushes it. */
  function Made(terms: Terms, args: seq<Type>, e: ExprNode, heap: seq<seq<StringSeg>>)
    : Result<seq<StringSeg>, Error>
    requires Shaped(terms, args, |args| + |heap|, e)
    decreases e, 1
  {
    var o := Processed(terms, args, e, heap, Empty);
    if o.err.Some? then Failure(o.err.value) else Success(o.st.Flush().built)
  }

  /** The argument sequences of an opaque application, built left to right;
      the first failure stops the collection. */
  function MadeArgs(terms: Terms, args: seq<Type>, ns: seq<ExprNode>, heap: seq<seq<StringSeg>>)
    : (r: Result<seq<seq<StringSeg>>, Error>)
    requires forall k :: 0 <= k < |ns| ==> Shaped(terms, args, |args| + |heap|, ns[k])
    ensures r.Success? ==> |r.value| == |ns|
    decreases ns, 2
  {
    if ns == [] then Success([])
    else
      var init :- MadeArgs(terms, args, ns[..|ns| - 1], heap);
      var last :- Made(terms, args, ns[|ns| - 1], heap);
      Success(init + [last])
  }

  /** A failure on a prefix of the arguments is the failure of the whole collection. */
  lemma {:induction false} MadeArgsPrefixFailure(terms: Terms, args: seq<Type>, ns: seq<ExprNode>, heap: seq<seq<StringSeg>>, k: nat)
    requires forall j :: 0 <= j < |ns| ==> Shaped(terms, args, |args| + |heap|, ns[j])
    requires k <= |ns| && MadeArgs(terms, args, ns[..k], heap).Failure?
    ensures MadeArgs(terms, args, ns, heap) == MadeArgs(terms, args, ns[..k], heap)
    decreases |ns|
  {
    if k < |ns| {
      var init := ns[..|ns| - 1];
      assert init[..k] == ns[..k];
      MadeArgsPrefixFailure(terms, args, init, heap, k);
    } else {
      assert ns[..k] == ns;
    }
  }

  /** `process_node`, on a builder updated in place. */
  method ProcessNode(terms: Terms, args: seq<Type>, e: ExprNode, heap: seq<seq<StringSeg>>, out: StringSegBuilder)
    returns (err: Option<Error>)
    requires Shaped(terms, args, |args| + |heap|, e)
    modifies out
    ensures Outcome(out.State(), err) == Processed(terms, args, e, heap, old(out.State()))
    decreases e, 0
  {
    match e
    case Dummy(_, _) =>
      err := Some(DummyNotPermitted);
    case Ref(i) =>
      if i < |args| {
        out.PushSeg(Var(args[i].sort, i));
      } else {
        out.Flush();
        out.built := out.built + heap[i - |args|];
      }
      err := None;
    case App(t, ns) =>
      if t !in terms {
        var segs: seq<seq<StringSeg>> := [];
        for k := 0 to |ns|
          invariant MadeArgs(terms, args, ns[..k], heap) == Success(segs)
          invariant out.State() == old(out.State())
        {
          var r := Make(terms, args, ns[k], heap);
          assert ns[..k + 1][..k] == ns[..k];
          if r.Failure? {
            MadeArgsPrefixFailure(terms, args, ns, heap, k + 1);
            return Some(r.error);
          }
          segs := segs + [r.value];
        }
        assert ns[..|ns|] == ns;
        out.PushSeg(StringSeg.Term(t, segs));
        err := None;
      } else {
        match terms[t]
        case S0 =>
          err := None;
        case S1 =>
          err := ProcessNode(terms, args, ns[0], heap, out);
        case Hex(h) =>
          out.PushHex(h);
          err := None;
        case _ =>
          err := ProcessNode(terms, args, ns[0], heap, out);
          if err.None? {
            err := ProcessNode(terms, args, ns[1], heap, out);
          }
      }
  }

  /** `StringSegBuilder::make` applied to `process_node`. */
  method Make(terms: Terms, args: seq<Type>, e: ExprNode, heap: seq<seq<StringSeg>>)
    returns (r: Result<seq<StringSeg>, Error>)
    requires Shaped(terms, args, |args| + |heap|, e)
    ensures r == Made(terms, args, e, heap)
    decreases e, 1
  {
    var out := new StringSegBuilder();
    var err := ProcessNode(terms, args, e, heap, out);
    if err.Some? {
      return Failure(err.value);
    }
    out.Flush();
    r := Success(out.built);
  }

  /** What `process_def` needs of a def: its heap holds a slot per formal
      argument, and every later slot and the head are shaped for `process_node`. */
  predicate DefShaped(terms: Terms, td: TermDecl)
  {
    match td.kind
    case Definition(Some(expr)) =>
      && |td.args| <= |expr.heap|
      && (forall k :: |td.args| <= k < |expr.heap| ==> Shaped(terms, td.args, k, expr.heap[k]))
      && Shaped(terms, td.args, |expr.heap|, expr.head)
    case _ => true
  }

  /** The `refs` of `process_def`: each heap slot past the formal arguments,
      built by `make` against the slots before it, in index order. */
  function HeapSegs(terms: Terms, args: seq<Type>, nodes: seq<ExprNode>): (r: Result<seq<seq<StringSeg>>, Error>)
    requires forall k :: 0 <= k < |nodes| ==> Shaped(terms, args, |args| + k, nodes[k])
    ensures r.Success? ==> |r.value| == |nodes|
    decreases |nodes|
  {
    if nodes == [] then Success([])
    else
      var refs :- HeapSegs(terms, args, nodes[..|nodes| - 1]);
      var res :- Made(terms, args, nodes[|nodes| - 1], refs);
      Success(refs + [res])
  }

  lemma {:induction false} HeapSegsPrefixFailure(terms: Terms, args: seq<Type>, nodes: seq<ExprNode>, k: nat)
    requires forall j :: 0 <= j < |nodes| ==> Shaped(terms, args, |args| + j, nodes[j])
    requires k <= |nodes| && HeapSegs(terms, args, nodes[..k]).Failure?
    ensures HeapSegs(terms, args, nodes) == HeapSegs(terms, args, nodes[..k])
    decreases |nodes|
  {
    if k < |nodes| {
      var init := nodes[..|nodes| - 1];
      assert init[..k] == nodes[..k];
      HeapSegsPrefixFailure(terms, args, init, k);
    } else {
      assert nodes[..k] == nodes;
    }
  }

  /** `process_def`: the segment sequence of the body of def `t`, or an error
      naming `name` when `t` has no body. */
  function DefProcessed(terms: Terms, env: Environment, t: TermID, name: string): Result<seq<StringSeg>, Error>
    requires t < |env.terms| && DefShaped(terms, env.terms[t])
  {
    var td := env.terms[t];
    match td.kind
    case Definition(Some(expr)) =>
      var refs :- HeapSegs(terms, td.args, expr.heap[|td.args|..]);
      Made(terms, td.args, expr.head, refs)
    case _ => Failure(TermShouldBeDef(name))
  }

  /** One more heap slot: the result so far, extended by `make` of the next slot. */
  lemma HeapSegsSnoc(terms: Terms, args: seq<Type>, nodes: seq<ExprNode>, j: nat, refs: seq<seq<StringSeg>>)
    requires forall k :: 0 <= k < |nodes| ==> Shaped(terms, args, |args| + k, nodes[k])
    requires j < |nodes| && HeapSegs(terms, args, nodes[..j]) == Success(refs)
    ensures var m := Made(terms, args, nodes[j], refs);
      HeapSegs(terms, args, nodes[..j + 1]) == if m.Failure? then Failure(m.error) else Success(refs + [m.value])
  {
    assert nodes[..j + 1][..j] == nodes[..j];
    assert nodes[..j + 1][j] == nodes[j];
  }

  /** With the heap slots done, `process_def` is `make` of the head. */
  lemma DefProcessedByHeap(terms: Terms, env: Environment, t: TermID, name: string, expr: Expr)
    requires t < |env.terms| && DefShaped(terms, env.terms[t])
    requires env.terms[t].kind == Definition(Some(expr))
    ensures |env.terms[t].args| <= |expr.heap|
    ensures var args := env.terms[t].args;
      forall j :: 0 <= j < |expr.heap| - |args| ==> Shaped(terms, args, |args| + j, expr.heap[|args|..][j])
    ensures var args := env.terms[t].args;
      var h := HeapSegs(terms, args, expr.heap[|args|..]);
      && (h.Failure? ==> DefProcessed(terms, env, t, name) == Failure(h.error))
      && (h.Success? ==> DefProcessed(terms, env, t, name) == Made(terms, args, expr.head, h.value))
  {
    var args := env.terms[t].args;
    forall j | 0 <= j < |expr.heap| - |args|
      ensures Shaped(terms, args, |args| + j, expr.heap[|args|..][j])
    {
      assert expr.heap[|args|..][j] == expr.heap[|args| + j];
    }
  }

  /** The loop of `process_def` that builds `refs`, slot by slot. */
  method ProcessHeap(terms: Terms, args: seq<Type>, nodes: seq<ExprNode>) returns (r: Result<seq<seq<StringSeg>>, Error>)
    requires forall k :: 0 <= k < |nodes| ==> Shaped(terms, args, |args| + k, nodes[k])
    ensures r == HeapSegs(terms, args, nodes)
  {
    var refs: seq<seq<StringSeg>> := [];
    for j := 0 to |nodes|
      invariant HeapSegs(terms, args, nodes[..j]) == Success(refs)
    {
      HeapSegsSnoc(terms, args, nodes, j, refs);
      var res := Make(terms, args, nodes[j], refs);
      if res.Failure? {
        HeapSegsPrefixFailure(terms, args, nodes, j + 1);
        return Failure(res.error);
      }
      refs := refs + [res.value];
    }
    assert nodes[..|nodes|] == nodes;
    r := Success(refs);
  }

  method ProcessDef(terms: Terms, env: Environment, t: TermID, name: string) returns (r: Result<seq<StringSeg>, Error>)
    requires t < |env.terms| && DefShaped(terms, env.terms[t])
    ensures r == DefProcessed(terms, env, t, name)
  {
    var td := env.terms[t];
    if td.kind.Definition? && td.kind.value.Some? {
      var expr := td.kind.value.value;
      DefProcessedByHeap(terms, env, t, name, expr);
      var refs := ProcessHeap(terms, td.args, expr.heap[|td.args|..]);
      if refs.Failure? {
        return Failure(refs.error);
      }
      r := Make(terms, td.args, expr.head, refs.value);
    } else {
      r := Failure(TermShouldBeDef(name));
    }
  }

  /** The dummy nodes `process_node` visits: every argument of an opaque
      application, the arguments a built-in operation reads, and nothing
      below a reference. */
  predicate ReachesDummy(terms: Terms, e: ExprNode)
    decreases e
  {
    match e
    case Dummy(_, _) => true
    case Ref(_) => false
    case App(t, ns) =>
      if t !in terms then exists k :: 0 <= k < |ns| && ReachesDummy(terms, ns[k])
      else match terms[t]
        case S1 => |ns| >= 1 && ReachesDummy(terms, ns[0])
        case SAdd => |ns| >= 2 && (ReachesDummy(terms, ns[0]) || ReachesDummy(terms, ns[1]))
        case SCons => |ns| >= 2 && (ReachesDummy(terms, ns[0]) || ReachesDummy(terms, ns[1]))
        case Ch => |ns| >= 2 && (ReachesDummy(terms, ns[0]) || ReachesDummy(terms, ns[1]))
        case _ => false
  }

  /** `process_node` fails exactly when it reaches a dummy node, and then with
      "dummy not permitted". */
  lemma {:induction false} ProcessedFailsOnlyOnDummy(terms: Terms, args: seq<Type>, e: ExprNode, heap: seq<seq<StringSeg>>, out: BuilderState)
    requires Shaped(terms, args, |args| + |heap|, e)
    ensures var o := Processed(terms, args, e, heap, out);
      && (o.err.Some? <==> ReachesDummy(terms, e))
      && (o.err.Some? ==> o.err == Some(DummyNotPermitted))
    decreases e, 0
  {
    match e
    case Dummy(_, _) =>
    case Ref(_) =>
    case App(t, ns) =>
      if t !in terms {
        MadeArgsFailsOnlyOnDummy(terms, args, ns, heap);
      } else {
        match terms[t]
        case S0 =>
        case Hex(_) =>
        case S1 =>
          ProcessedFailsOnlyOnDummy(terms, args, ns[0], heap, out);
        case _ =>
          ProcessedFailsOnlyOnDummy(terms, args, ns[0], heap, out);
          var o := Processed(terms, args, ns[0], heap, out);
          ProcessedFailsOnlyOnDummy(terms, args, ns[1], heap, o.st);
      }
  }

  lemma {:induction false} MadeArgsFailsOnlyOnDummy(terms: Terms, args: seq<Type>, ns: seq<ExprNode>, heap: seq<seq<StringSeg>>)
    requires forall k :: 0 <= k < |ns| ==> Shaped(terms, args, |args| + |heap|, ns[k])
    ensures var r := MadeArgs(terms, args, ns, heap);
      && (r.Failure? <==> exists k :: 0 <= k < |ns| && ReachesDummy(terms, ns[k]))
      && (r.Failure? ==> r.error == DummyNotPermitted)
    decreases ns, 2
  {
    if ns != [] {
      var init := ns[..|ns| - 1];
      MadeArgsFailsOnlyOnDummy(terms, args, init, heap);
      ProcessedFailsOnlyOnDummy(terms, args, ns[|ns| - 1], heap, Empty);
      assert forall k :: 0 <= k < |init| ==> init[k] == ns[k];
    }
  }

  /** Splicing does not merge literal runs: two heap slots holding literal
      bytes, concatenated, give two adjacent literal segments. */
  lemma SpliceLeavesAdjacentLiterals(sadd: TermID)
    ensures Made(map[sadd := SAdd], [], App(sadd, [Ref(0), Ref(1)]), [[Str([1])], [Str([2])]])
      == Success([Str([1]), Str([2])])
  {
    var terms := map[sadd := SAdd];
    var heap := [[Str([1])], [Str([2])]];
    var b1 := Empty.Splice([Str([1])]);
    assert b1 == BuilderState([Str([1])], [], None);
    var o1 := Processed(terms, [], Ref(0), heap, Empty);
    assert o1 == Outcome(b1, None);
    var b2 := b1.Splice([Str([2])]);
    assert b2 == BuilderState([Str([1]), Str([2])], [], None);
    var o2 := Processed(terms, [], Ref(1), heap, b1);
    assert o2 == Outcome(b2, None);
    assert Processed(terms, [], App(sadd, [Ref(0), Ref(1)]), heap, Empty) == o2;
  }
}
