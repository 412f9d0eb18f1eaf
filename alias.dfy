/**
 * Why admitting `scons` as a built-in is sound. The registry admits a def
 * when `process_def` turns its body into exactly `[Var(char, 0), Var(string, 1)]`.
 * This module relates the symbolic evaluator to the streaming one: a run of
 * `process_node` that produces only variable segments predicts what
 * `write_node` writes for the same node, namely the arguments' bytes in the
 * order of the segments. Hence unfolding an admitted `scons` writes its first
 * argument and then its second; on children that evaluate to bytes, with no
 * nibble pending, that is what the built-in concatenation `sadd` writes.
 */
module Alias {
  import opened Wrappers
  import opened Bytes
  import opened Env
  import opened Inout
  import opened Writer
  import opened SegBuilder
  import opened Process
  import opened Output
  import opened OutputFacts
  import opened Registry

  /** Every segment is a formal-argument reference. */
  predicate AllVars(segs: seq<StringSeg>)
  {
    forall k :: 0 <= k < |segs| ==> segs[k].Var?
  }

  /** The bytes one segment stands for: a formal argument's bytes. */
  function SegBytes(seg: StringSeg, argBytes: seq<seq<byte>>): seq<byte>
  {
    if seg.Var? && seg.i < |argBytes| then argBytes[seg.i] else []
  }

  /** The bytes a segment sequence of variables stands for, when the formal
      arguments evaluate to the bytes `argBytes`. */
  function VarsBytes(segs: seq<StringSeg>, argBytes: seq<seq<byte>>): seq<byte>
    decreases |segs|
  {
    if segs == [] then []
    else VarsBytes(segs[..|segs| - 1], argBytes) + SegBytes(segs[|segs| - 1], argBytes)
  }

  lemma {:induction false} VarsBytesAppend(a: seq<StringSeg>, b: seq<StringSeg>, argBytes: seq<seq<byte>>)
    ensures VarsBytes(a + b, argBytes) == VarsBytes(a, argBytes) + VarsBytes(b, argBytes)
    decreases |b|
  {
    if b == [] {
      assert a + b == a;
    } else {
      var b' := b[..|b| - 1];
      var last := SegBytes(b[|b| - 1], argBytes);
      assert (a + b)[..|a + b| - 1] == a + b';
      assert (a + b)[|a + b| - 1] == b[|b| - 1];
      assert VarsBytes(a + b, argBytes) == VarsBytes(a + b', argBytes) + last;
      VarsBytesAppend(a, b', argBytes);
      assert VarsBytes(b, argBytes) == VarsBytes(b', argBytes) + last;
      assert VarsBytes(a, argBytes) + VarsBytes(b', argBytes) + last == VarsBytes(a, argBytes) + (VarsBytes(b', argBytes) + last);
    }
  }

  /** The formal arguments evaluate to the bytes `argBytes`, and every heap
      slot whose segments are all variables evaluates to the bytes those
      segments stand for. */
  predicate HeapRel(hsegs: seq<seq<StringSeg>>, refs: seq<StringPart>, argBytes: seq<seq<byte>>)
  {
    && |refs| == |argBytes| + |hsegs|
    && (forall i :: 0 <= i < |argBytes| ==> refs[i] == StringPart.Str(argBytes[i]))
    && (forall j :: 0 <= j < |hsegs| && AllVars(hsegs[j]) ==>
          refs[|argBytes| + j] == StringPart.Str(VarsBytes(hsegs[j], argBytes)))
  }

  lemma AllVarsPrefix(a: seq<StringSeg>, b: seq<StringSeg>)
    requires AllVars(a + b)
    ensures AllVars(a)
  {
    assert forall k :: 0 <= k < |a| ==> a[k] == (a + b)[k];
  }

  lemma AllVarsSuffix(a: seq<StringSeg>, b: seq<StringSeg>)
    requires AllVars(a + b)
    ensures AllVars(b)
  {
    assert forall k :: 0 <= k < |b| ==> b[k] == (a + b)[|a| + k];
  }

  /** A successful run through an application of an opaque term ends with
      that term's segment. */
  lemma OpaqueEndsWithTerm(terms: Terms, args: seq<Type>, e: ExprNode, heap: seq<seq<StringSeg>>, out: BuilderState)
    requires Shaped(terms, args, |args| + |heap|, e)
    requires e.App? && e.t !in terms
    ensures var o := Processed(terms, args, e, heap, out);
      o.err.None? ==> |o.st.Segments()| > 0 && o.st.Segments()[|o.st.Segments()| - 1].Term?
  {
  }

  /** A run through a nibble ends with a pending nibble. */
  lemma HexEndsWithNibble(terms: Terms, args: seq<Type>, e: ExprNode, heap: seq<seq<StringSeg>>, out: BuilderState)
    requires Shaped(terms, args, |args| + |heap|, e)
    requires e.App? && e.t in terms && terms[e.t].Hex?
    ensures var o := Processed(terms, args, e, heap, out);
      |o.st.Segments()| > 0 && o.st.Segments()[|o.st.Segments()| - 1].Hex?
  {
    var o := out.PushHex(terms[e.t].h);
    assert o.Pending() == (if o.str != [] then [StringSeg.Str(o.str)] else []) + [StringSeg.Hex(o.hex.value)];
  }

  /** A segment that is not a variable never disappears: a successful run
      that ends with only variables started with only variables. */
  lemma {:induction false} VarsOnlyBefore(terms: Terms, args: seq<Type>, e: ExprNode, heap: seq<seq<StringSeg>>, out: BuilderState)
    requires Shaped(terms, args, |args| + |heap|, e)
    ensures var o := Processed(terms, args, e, heap, out);
      o.err.None? && AllVars(o.st.Segments()) ==> AllVars(out.Segments())
    decreases e
  {
    match e
    case Dummy(_, _) =>
    case Ref(i) =>
      var o := Processed(terms, args, e, heap, out);
      if AllVars(o.st.Segments()) {
        if i < |args| {
          AllVarsPrefix(out.Segments(), [Var(args[i].sort, i)]);
        } else {
          AllVarsPrefix(out.Segments(), heap[i - |args|]);
        }
      }
    case App(t, ns) =>
      if t !in terms {
        OpaqueEndsWithTerm(terms, args, e, heap, out);
      } else {
        match terms[t]
        case S0 =>
        case S1 => VarsOnlyBefore(terms, args, ns[0], heap, out);
        case Hex(h) => HexEndsWithNibble(terms, args, e, heap, out);
        case _ =>
          VarsOnlyBefore(terms, args, ns[0], heap, out);
          var o1 := Processed(terms, args, ns[0], heap, out);
          if o1.err.None? {
            VarsOnlyBefore(terms, args, ns[1], heap, o1.st);
          }
      }
  }

  /** A symbolic outcome `o` (started from builder `out`) predicts a
      streaming outcome `w` (started from writer `st`): when the symbolic run
      succeeded with variables only, the builder stayed clean, it gained
      segments at its end, and the writer wrote the bytes those segments
      stand for. */
  predicate Agrees(o: Outcome<BuilderState>, w: Outcome<WriterState>, out: BuilderState, argBytes: seq<seq<byte>>, st: WriterState)
  {
    o.err.None? && AllVars(o.st.Segments()) ==>
      && o.st.Clean()
      && |out.built| <= |o.st.built| && o.st.built[..|out.built|] == out.built
      && w == Outcome(st.WriteStr(VarsBytes(o.st.built[|out.built|..], argBytes)), None)
  }

  /** What the simulation promises for one node and one starting builder. */
  ghost predicate Simulates(terms: Terms, env: Environment, targs: seq<Type>, e: ExprNode, hsegs: seq<seq<StringSeg>>,
                            out: BuilderState, refs: seq<StringPart>, argBytes: seq<seq<byte>>, st: WriterState, bound: nat)
    requires Ready(terms, env, bound) && NodeWF(env, e, |refs|, bound)
    requires Shaped(terms, targs, |targs| + |hsegs|, e)
  {
    Agrees(Processed(terms, targs, e, hsegs, out), Written(terms, env, refs, e, st, bound), out, argBytes, st)
  }

  /** Writing two byte strings is writing their concatenation. */
  lemma WriteStrTwice(st: WriterState, a: seq<byte>, b: seq<byte>)
    ensures st.WriteStr(a).WriteStr(b) == st.WriteStr(a + b)
  {
    assert st.w + a + b == st.w + (a + b);
  }

  /** Running two steps in sequence keeps the agreement, provided a step
      never turns a builder holding other segments into one holding only
      variables. */
  lemma AgreesSequence(o1: Outcome<BuilderState>, o2: Outcome<BuilderState>, w1: Outcome<WriterState>, w2: Outcome<WriterState>,
                       out: BuilderState, argBytes: seq<seq<byte>>, st: WriterState)
    requires Agrees(o1, w1, out, argBytes, st)
    requires o1.err.None? && AllVars(o1.st.Segments()) ==>
      Agrees(o2, w2, o1.st, argBytes, st.WriteStr(VarsBytes(o1.st.built[|out.built|..], argBytes)))
    requires o1.err.None? && o2.err.None? && AllVars(o2.st.Segments()) ==> AllVars(o1.st.Segments())
    ensures Agrees(if o1.err.Some? then o1 else o2, if w1.err.Some? then w1 else w2, out, argBytes, st)
  {
    if o1.err.None? && o2.err.None? && AllVars(o2.st.Segments()) {
      var d1 := o1.st.built[|out.built|..];
      var d2 := o2.st.built[|o1.st.built|..];
      var st1 := st.WriteStr(VarsBytes(d1, argBytes));
      assert w1 == Outcome(st1, None);
      assert w2 == Outcome(st1.WriteStr(VarsBytes(d2, argBytes)), None);
      ExtendTwice(out.built, o1.st.built, o2.st.built);
      VarsBytesAppend(d1, d2, argBytes);
      WriteStrTwice(st, VarsBytes(d1, argBytes), VarsBytes(d2, argBytes));
    }
  }

  /** What `process_node` does with a reference to a formal argument: it
      appends that argument's variable segment to a clean builder. */
  lemma ArgBuilt(terms: Terms, targs: seq<Type>, i: nat, hsegs: seq<seq<StringSeg>>, out: BuilderState)
    requires Shaped(terms, targs, |targs| + |hsegs|, Ref(i))
    requires out.Clean() && i < |targs|
    ensures var o := Processed(terms, targs, Ref(i), hsegs, out);
      && o.err.None? && o.st.Clean()
      && |out.built| <= |o.st.built| && o.st.built[..|out.built|] == out.built
      && o.st.built[|out.built|..] == [Var(targs[i].sort, i)]
  {
    var v := Var(targs[i].sort, i);
    var o := Processed(terms, targs, Ref(i), hsegs, out);
    assert o == Outcome(out.PushSeg(v), None);
    assert out.Segments() == out.built;
    assert o.st.built == out.built + [v];
  }

  /** What `process_node` does with a reference to a heap slot: it splices
      the slot's segments into a clean builder. */
  lemma SlotBuilt(terms: Terms, targs: seq<Type>, i: nat, hsegs: seq<seq<StringSeg>>, out: BuilderState)
    requires Shaped(terms, targs, |targs| + |hsegs|, Ref(i))
    requires out.Clean() && |targs| <= i
    ensures var o := Processed(terms, targs, Ref(i), hsegs, out);
      && o.err.None? && o.st.Clean()
      && |out.built| <= |o.st.built| && o.st.built[..|out.built|] == out.built
      && o.st.built[|out.built|..] == hsegs[i - |targs|]
      && (AllVars(o.st.Segments()) ==> AllVars(hsegs[i - |targs|]))
  {
    var segs := hsegs[i - |targs|];
    var o := Processed(terms, targs, Ref(i), hsegs, out);
    assert o == Outcome(out.Splice(segs), None);
    assert out.Segments() == out.built;
    assert o.st.built == out.built + segs;
    if AllVars(o.st.Segments()) {
      AllVarsSuffix(out.built, segs);
    }
  }

  /** The variable segment of one formal argument stands for its bytes. */
  lemma VarBytes(argBytes: seq<seq<byte>>, sort: SortID, i: nat)
    requires i < |argBytes|
    ensures VarsBytes([Var(sort, i)], argBytes) == argBytes[i]
  {
    assert VarsBytes([Var(sort, i)], argBytes) == VarsBytes([], argBytes) + argBytes[i];
  }

  /** `write_node` on a reference replays the referenced part. */
  lemma RefWritten(terms: Terms, env: Environment, i: nat, refs: seq<StringPart>, st: WriterState, bound: nat)
    requires Ready(terms, env, bound) && NodeWF(env, Ref(i), |refs|, bound)
    ensures Written(terms, env, refs, Ref(i), st, bound) == Outcome(st.WritePart(refs[i]), None)
  {
  }

  /** The simulation for a reference to a formal argument or a heap slot. */
  lemma SimulatesRef(terms: Terms, env: Environment, targs: seq<Type>, i: nat, hsegs: seq<seq<StringSeg>>,
                     out: BuilderState, refs: seq<StringPart>, argBytes: seq<seq<byte>>, st: WriterState, bound: nat)
    requires Ready(terms, env, bound) && NodeWF(env, Ref(i), |refs|, bound)
    requires Shaped(terms, targs, |targs| + |hsegs|, Ref(i))
    requires |targs| == |argBytes| && HeapRel(hsegs, refs, argBytes)
    requires out.Clean()
    ensures Simulates(terms, env, targs, Ref(i), hsegs, out, refs, argBytes, st, bound)
  {
    RefWritten(terms, env, i, refs, st, bound);
    if i < |targs| {
      ArgBuilt(terms, targs, i, hsegs, out);
      VarBytes(argBytes, targs[i].sort, i);
      assert refs[i] == StringPart.Str(argBytes[i]);
    } else {
      SlotBuilt(terms, targs, i, hsegs, out);
      var j := i - |targs|;
      assert AllVars(hsegs[j]) ==> refs[|argBytes| + j] == StringPart.Str(VarsBytes(hsegs[j], argBytes));
    }
  }

  /** Two consecutive extensions of a builder's finished segments. */
  lemma ExtendTwice(a: seq<StringSeg>, b: seq<StringSeg>, c: seq<StringSeg>)
    requires |a| <= |b| && b[..|a|] == a
    requires |b| <= |c| && c[..|b|] == b
    ensures |a| <= |c| && c[..|a|] == a
    ensures c[|a|..] == b[|a|..] + c[|b|..]
  {
  }

  /** What `process_node` does with a two-argument built-in: the second child
      continues from where the first stopped. */
  lemma PairProcessed(terms: Terms, targs: seq<Type>, t: TermID, ns: seq<ExprNode>, hsegs: seq<seq<StringSeg>>, out: BuilderState)
    requires Shaped(terms, targs, |targs| + |hsegs|, App(t, ns))
    requires t in terms && Arity(terms[t]) == 2
    ensures var o1 := Processed(terms, targs, ns[0], hsegs, out);
      Processed(terms, targs, App(t, ns), hsegs, out) == if o1.err.Some? then o1 else Processed(terms, targs, ns[1], hsegs, o1.st)
  {
  }

  /** What `write_node` does with a two-argument built-in: the second child
      is written after the first. */
  lemma PairWritten(terms: Terms, env: Environment, t: TermID, ns: seq<ExprNode>, refs: seq<StringPart>, st: WriterState, bound: nat)
    requires Ready(terms, env, bound) && NodeWF(env, App(t, ns), |refs|, bound)
    requires t in terms && Arity(terms[t]) == 2
    ensures var w1 := Written(terms, env, refs, ns[0], st, bound);
      Written(terms, env, refs, App(t, ns), st, bound) == if w1.err.Some? then w1 else Written(terms, env, refs, ns[1], w1.st, bound)
  {
  }

  /** The simulation for a two-argument built-in, given it for both children. */
  lemma SimulatesPair(terms: Terms, env: Environment, targs: seq<Type>, t: TermID, ns: seq<ExprNode>, hsegs: seq<seq<StringSeg>>,
                      out: BuilderState, refs: seq<StringPart>, argBytes: seq<seq<byte>>, st: WriterState, bound: nat)
    requires Ready(terms, env, bound) && NodeWF(env, App(t, ns), |refs|, bound)
    requires Shaped(terms, targs, |targs| + |hsegs|, App(t, ns))
    requires t in terms && Arity(terms[t]) == 2
    requires var o1 := Processed(terms, targs, ns[0], hsegs, out);
      && Simulates(terms, env, targs, ns[0], hsegs, out, refs, argBytes, st, bound)
      && (o1.err.None? && AllVars(o1.st.Segments()) ==>
            Simulates(terms, env, targs, ns[1], hsegs, o1.st, refs, argBytes,
                      st.WriteStr(VarsBytes(o1.st.built[|out.built|..], argBytes)), bound))
    ensures Simulates(terms, env, targs, App(t, ns), hsegs, out, refs, argBytes, st, bound)
  {
    PairProcessed(terms, targs, t, ns, hsegs, out);
    PairWritten(terms, env, t, ns, refs, st, bound);
    var o1 := Processed(terms, targs, ns[0], hsegs, out);
    var w1 := Written(terms, env, refs, ns[0], st, bound);
    var o2 := Processed(terms, targs, ns[1], hsegs, o1.st);
    var w2 := Written(terms, env, refs, ns[1], w1.st, bound);
    VarsOnlyBefore(terms, targs, ns[1], hsegs, o1.st);
    AgreesSequence(o1, o2, w1, w2, out, argBytes, st);
  }

  /** The simulation: when `process_node` succeeds from a clean builder and
      everything is a variable afterwards, the builder is clean, it gained
      variable segments only, and `write_node` on the same node writes
      exactly the bytes those segments stand for, into any writer. */
  lemma {:induction false} Simulation(terms: Terms, env: Environment, targs: seq<Type>, e: ExprNode, hsegs: seq<seq<StringSeg>>,
                                      out: BuilderState, refs: seq<StringPart>, argBytes: seq<seq<byte>>, st: WriterState, bound: nat)
    requires Ready(terms, env, bound) && NodeWF(env, e, |refs|, bound)
    requires Shaped(terms, targs, |targs| + |hsegs|, e)
    requires |targs| == |argBytes| && HeapRel(hsegs, refs, argBytes)
    requires out.Clean()
    ensures Simulates(terms, env, targs, e, hsegs, out, refs, argBytes, st, bound)
    decreases e
  {
    match e
    case Dummy(_, _) =>
    case Ref(i) =>
      SimulatesRef(terms, env, targs, i, hsegs, out, refs, argBytes, st, bound);
    case App(t, ns) =>
      if t !in terms {
        OpaqueEndsWithTerm(terms, targs, e, hsegs, out);
      } else {
        match terms[t]
        case S0 =>
          assert out.built[|out.built|..] == [];
          assert st.WriteStr(VarsBytes([], argBytes)) == st;
        case S1 =>
          Simulation(terms, env, targs, ns[0], hsegs, out, refs, argBytes, st, bound);
        case Hex(_) =>
          HexEndsWithNibble(terms, targs, e, hsegs, out);
        case _ =>
          Simulation(terms, env, targs, ns[0], hsegs, out, refs, argBytes, st, bound);
          var o1 := Processed(terms, targs, ns[0], hsegs, out);
          if o1.err.None? && AllVars(o1.st.Segments()) {
            Simulation(terms, env, targs, ns[1], hsegs, o1.st, refs, argBytes,
                       st.WriteStr(VarsBytes(o1.st.built[|out.built|..], argBytes)), bound);
          }
          SimulatesPair(terms, env, targs, t, ns, hsegs, out, refs, argBytes, st, bound);
      }
  }

  /** The formal arguments, as parts holding their bytes. */
  predicate ArgsAsParts(base: seq<StringPart>, argBytes: seq<seq<byte>>)
  {
    |base| == |argBytes| && forall i :: 0 <= i < |base| ==> base[i] == StringPart.Str(argBytes[i])
  }

  /** Agreement from an empty builder and a fresh writer: a finished
      segment sequence of variables only is written as exactly its bytes. */
  lemma AgreesFromEmpty(o: Outcome<BuilderState>, w: Outcome<WriterState>, argBytes: seq<seq<byte>>)
    requires Agrees(o, w, Empty, argBytes, Fresh)
    requires o.err.None? && AllVars(o.st.Flush().built)
    ensures w == Outcome(WriterState(VarsBytes(o.st.Flush().built, argBytes), None), None)
  {
    assert o.st.Flush().built == o.st.Segments();
    assert o.st.built == o.st.Segments();
    assert o.st.built[|Empty.built|..] == o.st.built;
    var b := VarsBytes(o.st.built, argBytes);
    assert Fresh.WriteStr(b) == WriterState([] + b, None);
    assert [] + b == b;
  }

  /** A heap slot: symbolic evaluation into an empty builder predicts
      streaming evaluation into a fresh writer, so a slot made of variables
      only becomes the part holding the bytes those variables stand for. */
  lemma SlotAgrees(terms: Terms, env: Environment, targs: seq<Type>, e: ExprNode, hsegs: seq<seq<StringSeg>>,
                   refs: seq<StringPart>, argBytes: seq<seq<byte>>, bound: nat)
    requires Ready(terms, env, bound) && NodeWF(env, e, |refs|, bound)
    requires Shaped(terms, targs, |targs| + |hsegs|, e)
    requires |targs| == |argBytes| && HeapRel(hsegs, refs, argBytes)
    ensures var m := Made(terms, targs, e, hsegs);
      var p := Part(terms, env, refs, e, bound);
      m.Success? && AllVars(m.value) ==> p == Success(StringPart.Str(VarsBytes(m.value, argBytes)))
  {
    var o := Processed(terms, targs, e, hsegs, Empty);
    var w := Written(terms, env, refs, e, Fresh, bound);
    Simulation(terms, env, targs, e, hsegs, Empty, refs, argBytes, Fresh, bound);
    assert Agrees(o, w, Empty, argBytes, Fresh);
    if o.err.None? && AllVars(o.st.Flush().built) {
      AgreesFromEmpty(o, w, argBytes);
    }
  }

  /** Building the heap slot by slot on both sides keeps `HeapRel`. */
  lemma {:induction false} HeapAgrees(terms: Terms, env: Environment, targs: seq<Type>, nodes: seq<ExprNode>,
                                      base: seq<StringPart>, argBytes: seq<seq<byte>>, bound: nat)
    requires Ready(terms, env, bound)
    requires forall k :: 0 <= k < |nodes| ==> NodeWF(env, nodes[k], |base| + k, bound)
    requires forall k :: 0 <= k < |nodes| ==> Shaped(terms, targs, |targs| + k, nodes[k])
    requires |targs| == |argBytes| && ArgsAsParts(base, argBytes)
    ensures var h := HeapSegs(terms, targs, nodes);
      var r := HeapParts(terms, env, nodes, base, bound);
      h.Success? && r.Success? ==> HeapRel(h.value, r.value, argBytes)
    decreases |nodes|
  {
    var h := HeapSegs(terms, targs, nodes);
    var r := HeapParts(terms, env, nodes, base, bound);
    if nodes != [] && h.Success? && r.Success? {
      var j := |nodes| - 1;
      var init := nodes[..j];
      HeapAgrees(terms, env, targs, init, base, argBytes, bound);
      var hprev := HeapSegs(terms, targs, init).value;
      var rprev := HeapParts(terms, env, init, base, bound).value;
      var m := Made(terms, targs, nodes[j], hprev);
      var p := Part(terms, env, rprev, nodes[j], bound);
      assert h.value == hprev + [m.value];
      assert r.value == rprev + [p.value];
      SlotAgrees(terms, env, targs, nodes[j], hprev, rprev, argBytes, bound);
      HeapRelSnoc(hprev, rprev, argBytes, m.value, p.value);
    }
  }

  /** One more slot on both sides keeps `HeapRel` when the slot's part holds
      the bytes its segments stand for. */
  lemma HeapRelSnoc(hsegs: seq<seq<StringSeg>>, refs: seq<StringPart>, argBytes: seq<seq<byte>>, segs: seq<StringSeg>, part: StringPart)
    requires HeapRel(hsegs, refs, argBytes)
    requires AllVars(segs) ==> part == StringPart.Str(VarsBytes(segs, argBytes))
    ensures HeapRel(hsegs + [segs], refs + [part], argBytes)
  {
    var h := hsegs + [segs];
    var r := refs + [part];
    forall j | 0 <= j < |h| && AllVars(h[j])
      ensures r[|argBytes| + j] == StringPart.Str(VarsBytes(h[j], argBytes))
    {
      if j < |hsegs| {
        assert h[j] == hsegs[j] && r[|argBytes| + j] == refs[|argBytes| + j];
      }
    }
  }

  /** The facts about a def's body that unfolding it needs: it is a def
      with a body, and its heap slots and head are well formed against the
      terms declared before it. */
  predicate BodyReady(terms: Terms, env: Environment, t: TermID)
  {
    && Ready(terms, env, t) && t < |env.terms|
    && env.terms[t].kind.Definition? && env.terms[t].kind.value.Some?
    && var td := env.terms[t];
       var expr := td.kind.value.value;
       && |td.args| <= |expr.heap|
       && (forall k :: 0 <= k < |expr.heap| - |td.args| ==> NodeWF(env, expr.heap[|td.args|..][k], |td.args| + k, t))
       && NodeWF(env, expr.head, |expr.heap|, t)
  }

  /** Every def with a body in a well-formed environment is ready to unfold. */
  lemma DefBodyReady(terms: Terms, env: Environment, t: TermID)
    requires EnvWF(env) && RegistryFits(env, terms) && t < |env.terms|
    requires env.terms[t].kind.Definition? && env.terms[t].kind.value.Some?
    ensures BodyReady(terms, env, t)
  {
    assert TermWF(env, t);
    var td := env.terms[t];
    var expr := td.kind.value.value;
    forall k | 0 <= k < |expr.heap| - |td.args|
      ensures NodeWF(env, expr.heap[|td.args|..][k], |td.args| + k, t)
    {
      assert expr.heap[|td.args|..][k] == expr.heap[|td.args| + k];
    }
  }

  /** A def whose body `process_def` made successfully has a body. */
  lemma ProcessedIsDef(terms: Terms, env: Environment, t: TermID, name: string)
    requires t < |env.terms| && DefShaped(terms, env.terms[t])
    requires DefProcessed(terms, env, t, name).Success?
    ensures env.terms[t].kind.Definition? && env.terms[t].kind.value.Some?
  {
  }

  /** The central fact behind the alias check of `new_string_handler`: a def
      whose body `process_def` turns into `[Var(_, 0), Var(_, 1)]` writes, when
      unfolded by `write_node` with argument parts `x` and `y`, exactly
      `x + y`, which is what the built-in concatenation writes. The unfolding
      runs against the registry the check used. */
  lemma ConsBodyConcatenates(terms: Terms, env: Environment, t: TermID, name: string, c: SortID, sstr: SortID,
                             x: seq<byte>, y: seq<byte>, refs: seq<StringPart>, st: WriterState)
    requires BodyReady(terms, env, t) && |env.terms[t].args| == 2
    requires DefShaped(terms, env.terms[t])
    requires DefProcessed(terms, env, t, name) == Success([Var(c, 0), Var(sstr, 1)])
    requires var expr := env.terms[t].kind.value.value;
      HeapParts(terms, env, expr.heap[2..], [StringPart.Str(x), StringPart.Str(y)], t) == Success(refs)
    ensures Written(terms, env, refs, env.terms[t].kind.value.value.head, st, t) == Outcome(st.WriteStr(x + y), None)
  {
    var td := env.terms[t];
    var expr := td.kind.value.value;
    var targs := td.args;
    var nodes := expr.heap[2..];
    var base := [StringPart.Str(x), StringPart.Str(y)];
    var argBytes := [x, y];
    DefProcessedByHeap(terms, env, t, name, expr);
    var h := HeapSegs(terms, targs, nodes);
    var segs := [Var(c, 0), Var(sstr, 1)];
    assert h.Success? && Made(terms, targs, expr.head, h.value) == Success(segs);
    HeapAgrees(terms, env, targs, nodes, base, argBytes, t);
    assert HeapRel(h.value, refs, argBytes);
    var o := Processed(terms, targs, expr.head, h.value, Empty);
    var w := Written(terms, env, refs, expr.head, st, t);
    assert o.st.Flush().built == segs;
    assert o.err.None?;
    Simulation(terms, env, targs, expr.head, h.value, Empty, refs, argBytes, st, t);
    ConsAgrees(o, w, c, sstr, x, y, st);
  }

  /** The value-level step of `ConsBodyConcatenates`. */
  lemma ConsAgrees(o: Outcome<BuilderState>, w: Outcome<WriterState>, c: SortID, sstr: SortID, x: seq<byte>, y: seq<byte>, st: WriterState)
    requires Agrees(o, w, Empty, [x, y], st)
    requires o.err.None? && o.st.Flush().built == [Var(c, 0), Var(sstr, 1)]
    ensures w == Outcome(st.WriteStr(x + y), None)
  {
    var segs := [Var(c, 0), Var(sstr, 1)];
    assert o.st.Segments() == segs;
    assert AllVars(segs);
    assert o.st.built == o.st.Segments();
    assert o.st.built[|Empty.built|..] == segs;
    assert VarsBytes(segs, [x, y]) == VarsBytes([Var(c, 0)], [x, y]) + y;
    VarBytes([x, y], c, 0);
  }

  /** Unfolding def `t` against registry `base`, with argument parts holding
      `x` and `y`, writes `x + y` whenever its heap evaluates to `refs`. */
  ghost predicate UnfoldsToConcat(base: Terms, env: Environment, t: TermID, x: seq<byte>, y: seq<byte>, refs: seq<StringPart>, st: WriterState)
  {
    && BodyReady(base, env, t) && |env.terms[t].args| == 2
    && var expr := env.terms[t].kind.value.value;
       HeapParts(base, env, expr.heap[2..], [StringPart.Str(x), StringPart.Str(y)], t) == Success(refs) ==>
         Written(base, env, refs, expr.head, st, t) == Outcome(st.WriteStr(x + y), None)
  }

  /** For a registry in which `t` is `scons` with the facts the alias check
      establishes: unfolding `t` against the rest of the registry writes
      its first argument then its second. */
  lemma AdmittedConsConcatenates(env: Environment, s: Sorts, m: Terms, t: TermID, x: seq<byte>, y: seq<byte>, refs: seq<StringPart>, st: WriterState)
    requires EnvWF(env) && RegistryFits(env, m)
    requires t in m && m[t] == SCons
    requires t < |env.terms| && DefShaped(m - {t}, env.terms[t])
    requires DefProcessed(m - {t}, env, t, "scons") == Success(ConsSegs(s))
    ensures UnfoldsToConcat(m - {t}, env, t, x, y, refs, st)
  {
    var base := m - {t};
    assert RegistryFits(env, base);
    assert |env.terms[t].args| == Arity(SCons);
    ProcessedIsDef(base, env, t, "scons");
    DefBodyReady(base, env, t);
    var expr := env.terms[t].kind.value.value;
    if HeapParts(base, env, expr.heap[2..], [StringPart.Str(x), StringPart.Str(y)], t) == Success(refs) {
      ConsBodyConcatenates(base, env, t, "scons", s.chr, s.str, x, y, refs, st);
    }
  }

  /** For the handler `new_string_handler` returns: the term it registers as
      `scons` is the def named `scons`, and unfolding that def (against the
      registry without it) writes its first argument then its second. */
  lemma HandlerConsConcatenates(env: Environment, s: Sorts, m: Terms, t: TermID, x: seq<byte>, y: seq<byte>, refs: seq<StringPart>, st: WriterState)
    requires EnvWF(env) && StringHandler(env) == Success((s, m))
    requires t in m && m[t] == SCons
    ensures TermNamed(env, "scons") == Some(t)
    ensures UnfoldsToConcat(m - {t}, env, t, x, y, refs, st)
  {
    HandlerConsEntry(env, s, m, t);
    AdmittedConsConcatenates(env, s, m, t, x, y, refs, st);
  }

  /** The body of def `t`, unfolded with argument parts holding `x` and `y`,
      has heap slots that all evaluate. */
  ghost predicate ConsHeapSucceeds(base: Terms, env: Environment, t: TermID, x: seq<byte>, y: seq<byte>)
  {
    && BodyReady(base, env, t) && |env.terms[t].args| == 2
    && HeapParts(base, env, env.terms[t].kind.value.value.heap[2..], [StringPart.Str(x), StringPart.Str(y)], t).Success?
  }

  /** An admitted `scons` is written as `sadd` is: on the same two children,
      evaluating to the bytes `x` and `y`, unfolding `t` and the built-in
      concatenation both write `x + y` into a writer with nothing pending. */
  lemma ConsWritesAsConcat(env: Environment, s: Sorts, m: Terms, t: TermID, sadd: TermID, heap: seq<StringPart>,
                           a: ExprNode, b: ExprNode, x: seq<byte>, y: seq<byte>, st: WriterState, bound: nat)
    requires EnvWF(env) && RegistryFits(env, m)
    requires t in m && m[t] == SCons && sadd in m && m[sadd] == SAdd
    requires t < |env.terms| && DefShaped(m - {t}, env.terms[t])
    requires DefProcessed(m - {t}, env, t, "scons") == Success(ConsSegs(s))
    requires bound <= |env.terms| && NodeWF(env, App(t, [a, b]), |heap|, bound) && NodeWF(env, App(sadd, [a, b]), |heap|, bound)
    requires NodeWF(env, a, |heap|, bound) && NodeWF(env, b, |heap|, bound)
    requires Part(m - {t}, env, heap, a, bound) == Success(StringPart.Str(x))
    requires Part(m - {t}, env, heap, b, bound) == Success(StringPart.Str(y))
    requires ConsHeapSucceeds(m - {t}, env, t, x, y) && st.hex.None?
    ensures Written(m - {t}, env, heap, App(t, [a, b]), st, bound) == Written(m - {t}, env, heap, App(sadd, [a, b]), st, bound)
    ensures Written(m - {t}, env, heap, App(sadd, [a, b]), st, bound) == Outcome(st.WriteStr(x + y), None)
  {
    var base := m - {t};
    assert sadd in base && base[sadd] == SAdd;
    var args := [StringPart.Str(x), StringPart.Str(y)];
    ArgPartsPair(base, env, heap, a, b, bound, args[0], args[1]);
    var expr := env.terms[t].kind.value.value;
    var refs := HeapParts(base, env, expr.heap[2..], args, t).value;
    assert TermWF(env, t);
    UnfoldStep(base, env, heap, t, [a, b], st, bound, args, refs);
    AdmittedConsConcatenates(env, s, m, t, x, y, refs, st);
    PairWritten(base, env, sadd, [a, b], heap, st, bound);
    PartReplaysStr(base, env, heap, a, st, bound, x);
    PartReplaysStr(base, env, heap, b, st.WriteStr(x), bound, y);
    WriteStrTwice(st, x, y);
  }

  /** For the handler `new_string_handler` returns: the term it registers as
      `scons`, unfolded, writes what `sadd` writes on the same children. */
  lemma HandlerConsWritesAsConcat(env: Environment, s: Sorts, m: Terms, t: TermID, sadd: TermID, heap: seq<StringPart>,
                                  a: ExprNode, b: ExprNode, x: seq<byte>, y: seq<byte>, st: WriterState, bound: nat)
    requires EnvWF(env) && StringHandler(env) == Success((s, m)) && RegistryFits(env, m)
    requires t in m && m[t] == SCons && sadd in m && m[sadd] == SAdd
    requires bound <= |env.terms| && NodeWF(env, App(t, [a, b]), |heap|, bound) && NodeWF(env, App(sadd, [a, b]), |heap|, bound)
    requires NodeWF(env, a, |heap|, bound) && NodeWF(env, b, |heap|, bound)
    requires Part(m - {t}, env, heap, a, bound) == Success(StringPart.Str(x))
    requires Part(m - {t}, env, heap, b, bound) == Success(StringPart.Str(y))
    requires ConsHeapSucceeds(m - {t}, env, t, x, y) && st.hex.None?
    ensures Written(m - {t}, env, heap, App(t, [a, b]), st, bound) == Written(m - {t}, env, heap, App(sadd, [a, b]), st, bound)
    ensures Written(m - {t}, env, heap, App(sadd, [a, b]), st, bound) == Outcome(st.WriteStr(x + y), None)
  {
    HandlerConsEntry(env, s, m, t);
    ConsWritesAsConcat(env, s, m, t, sadd, heap, a, b, x, y, st, bound);
  }
}
