/**
 * Properties of the streaming evaluator: what it writes does not depend on
 * what the sink already holds, children are written left to right (so the
 * concatenating built-ins are associative), an evaluated part replays to the
 * same bytes, unfolding substitutes parts for binders, and the only errors are
 * a dummy variable and an unknown definition.
 */
module OutputFacts {
  import opened Wrappers
  import opened Bytes
  import opened Env
  import opened Inout
  import opened Writer
  import opened Output

  /** The writer state `st` with `p` already in its sink before everything else. */
  function Behind(p: seq<byte>, st: WriterState): WriterState
  {
    WriterState(p + st.w, st.hex)
  }

  lemma HexBehind(p: seq<byte>, st: WriterState, h: nibble)
    ensures Behind(p, st).WriteHex(h) == Behind(p, st.WriteHex(h))
  {
    if st.hex.Some? {
      assert (p + st.w) + [Join(st.hex.value, h)] == p + (st.w + [Join(st.hex.value, h)]);
    }
  }

  lemma PartBehind(p: seq<byte>, st: WriterState, part: StringPart)
    ensures Behind(p, st).WritePart(part) == Behind(p, st.WritePart(part))
  {
    match part
    case Hex(h) => HexBehind(p, st, h);
    case Str(s) => assert (p + st.w) + s == p + (st.w + s);
  }

  /** Writing never looks at the sink: with `p` in front of it, the same
      bytes follow and the same error, if any, is raised. */
  lemma {:induction false} WrittenBehind(terms: Terms, env: Environment, heap: seq<StringPart>, e: ExprNode, st: WriterState, bound: nat, p: seq<byte>)
    requires Ready(terms, env, bound) && NodeWF(env, e, |heap|, bound)
    ensures var o := Written(terms, env, heap, e, st, bound);
      Written(terms, env, heap, e, Behind(p, st), bound) == Outcome(Behind(p, o.st), o.err)
    decreases bound, e
  {
    match e
    case Dummy(_, _) =>
    case Ref(i) => PartBehind(p, st, heap[i]);
    case App(t, ns) =>
      if t in terms {
        match terms[t]
        case S0 =>
        case S1 => WrittenBehind(terms, env, heap, ns[0], st, bound, p);
        case Hex(h) => HexBehind(p, st, h);
        case _ =>
          WrittenBehind(terms, env, heap, ns[0], st, bound, p);
          var o := Written(terms, env, heap, ns[0], st, bound);
          if o.err.None? {
            WrittenBehind(terms, env, heap, ns[1], o.st, bound, p);
          }
      } else {
        var kind := env.terms[t].kind;
        if kind.Definition? && kind.value.Some? {
          var expr := kind.value.value;
          assert TermWF(env, t);
          var a := ArgParts(terms, env, heap, ns, bound);
          if a.Success? {
            var r := HeapParts(terms, env, expr.heap[|ns|..], a.value, t);
            if r.Success? {
              WrittenBehind(terms, env, r.value, expr.head, st, t, p);
            }
          }
        }
      }
  }

  /** The writer only ever appends: the new sink is the old one followed by
      what the same node writes into an empty sink. */
  lemma WrittenAppends(terms: Terms, env: Environment, heap: seq<StringPart>, e: ExprNode, st: WriterState, bound: nat)
    requires Ready(terms, env, bound) && NodeWF(env, e, |heap|, bound)
    ensures var o := Written(terms, env, heap, e, WriterState([], st.hex), bound);
      Written(terms, env, heap, e, st, bound) == Outcome(WriterState(st.w + o.st.w, o.st.hex), o.err)
  {
    WrittenBehind(terms, env, heap, e, WriterState([], st.hex), bound, st.w);
    assert Behind(st.w, WriterState([], st.hex)) == st;
  }

  /** Substituting a part is sound: a node whose evaluation in a fresh writer
      is the bytes `s` writes exactly `s` into any writer with no nibble
      pending, as `write_part` replays it. */
  lemma PartReplaysStr(terms: Terms, env: Environment, heap: seq<StringPart>, e: ExprNode, st: WriterState, bound: nat, s: seq<byte>)
    requires Ready(terms, env, bound) && NodeWF(env, e, |heap|, bound)
    requires Part(terms, env, heap, e, bound) == Success(StringPart.Str(s)) && st.hex.None?
    ensures Written(terms, env, heap, e, st, bound) == Outcome(st.WritePart(StringPart.Str(s)), None)
  {
    WrittenBehind(terms, env, heap, e, Fresh, bound, st.w);
    assert Behind(st.w, Fresh) == st;
  }

  /** Replays parts through a writer, one `write_part` at a time. */
  function WriteParts(st: WriterState, ps: seq<StringPart>): WriterState
    decreases |ps|
  {
    if ps == [] then st else WriteParts(st, ps[..|ps| - 1]).WritePart(ps[|ps| - 1])
  }

  lemma {:induction false} WritePartsAppend(st: WriterState, ps: seq<StringPart>, qs: seq<StringPart>)
    ensures WriteParts(st, ps + qs) == WriteParts(WriteParts(st, ps), qs)
    decreases |qs|
  {
    if qs == [] {
      assert ps + qs == ps;
    } else {
      assert (ps + qs)[..|ps + qs| - 1] == ps + qs[..|qs| - 1];
      WritePartsAppend(st, ps, qs[..|qs| - 1]);
    }
  }

  /** The parts `write_node` hands to the writer, in order: literal strings,
      replayed heap parts and hex digits. They depend on the node and the
      heap, not on the writer. */
  function WrittenParts(terms: Terms, env: Environment, heap: seq<StringPart>, e: ExprNode, bound: nat): seq<StringPart>
    requires Ready(terms, env, bound) && NodeWF(env, e, |heap|, bound)
    decreases bound, e
  {
    match e
    case Dummy(_, _) => []
    case Ref(i) => [heap[i]]
    case App(t, ns) =>
      if t in terms then
        match terms[t]
        case S0 => []
        case S1 => WrittenParts(terms, env, heap, ns[0], bound)
        case Hex(h) => [StringPart.Hex(h)]
        case _ => WrittenParts(terms, env, heap, ns[0], bound) + WrittenParts(terms, env, heap, ns[1], bound)
      else
        var kind := env.terms[t].kind;
        if kind.Definition? && kind.value.Some? then
          var expr := kind.value.value;
          assert TermWF(env, t);
          match ArgParts(terms, env, heap, ns, bound)
          case Failure(_) => []
          case Success(args) =>
            match HeapParts(terms, env, expr.heap[|ns|..], args, t)
            case Failure(_) => []
            case Success(refs) => WrittenParts(terms, env, refs, expr.head, t)
        else []
  }

  /** A successful `write_node` is the replay of its parts into the writer it
      was given, whatever that writer holds. */
  lemma {:induction false} WrittenReplaysParts(terms: Terms, env: Environment, heap: seq<StringPart>, e: ExprNode, st: WriterState, bound: nat)
    requires Ready(terms, env, bound) && NodeWF(env, e, |heap|, bound)
    ensures var o := Written(terms, env, heap, e, st, bound);
      o.err.None? ==> o.st == WriteParts(st, WrittenParts(terms, env, heap, e, bound))
    decreases bound, e
  {
    match e
    case Dummy(_, _) =>
    case Ref(i) => assert [heap[i]][..0] == [];
    case App(t, ns) =>
      if t in terms {
        match terms[t]
        case S0 =>
        case S1 => WrittenReplaysParts(terms, env, heap, ns[0], st, bound);
        case Hex(h) => assert [StringPart.Hex(h)][..0] == [];
        case _ =>
          var o := Written(terms, env, heap, ns[0], st, bound);
          WrittenReplaysParts(terms, env, heap, ns[0], st, bound);
          if o.err.None? {
            WrittenReplaysParts(terms, env, heap, ns[1], o.st, bound);
            WritePartsAppend(st, WrittenParts(terms, env, heap, ns[0], bound), WrittenParts(terms, env, heap, ns[1], bound));
          }
      } else {
        var kind := env.terms[t].kind;
        if kind.Definition? && kind.value.Some? {
          var expr := kind.value.value;
          assert TermWF(env, t);
          var a := ArgParts(terms, env, heap, ns, bound);
          if a.Success? {
            var r := HeapParts(terms, env, expr.heap[|ns|..], a.value, t);
            if r.Success? {
              WrittenReplaysParts(terms, env, r.value, expr.head, st, t);
            }
          }
        }
      }
  }

  /** Parts that leave a fresh writer with no bytes and at most a pending
      nibble wrote only empty strings and that one nibble, so from any writer
      they amount to writing that nibble, or to nothing. */
  lemma {:induction false} QuietParts(ps: seq<StringPart>, x: Option<nibble>, st: WriterState)
    requires WriteParts(Fresh, ps) == WriterState([], x)
    ensures WriteParts(st, ps) == if x.Some? then st.WriteHex(x.value) else st
    decreases |ps|
  {
    if ps != [] {
      var init := ps[..|ps| - 1];
      var prev := WriteParts(Fresh, init);
      match ps[|ps| - 1]
      case Str(b) =>
        assert prev.w + b == [];
        QuietParts(init, x, st);
        assert WriteParts(st, init).w + b == WriteParts(st, init).w;
      case Hex(h) =>
        if prev.hex.None? {
          QuietParts(init, None, st);
        }
    }
  }

  /** The same for a part that is a lone nibble, provided the node wrote no
      whole byte before it (the conversion to a part drops such bytes). The
      nibble joins whatever the writer holds: it becomes pending, or goes out
      as one byte with the nibble already pending. */
  lemma PartReplaysHex(terms: Terms, env: Environment, heap: seq<StringPart>, e: ExprNode, st: WriterState, bound: nat, h: nibble)
    requires Ready(terms, env, bound) && NodeWF(env, e, |heap|, bound)
    requires Part(terms, env, heap, e, bound) == Success(StringPart.Hex(h))
    requires Written(terms, env, heap, e, Fresh, bound).st.w == []
    ensures Written(terms, env, heap, e, st, bound) == Outcome(st.WritePart(StringPart.Hex(h)), None)
  {
    WrittenFailsIffReached(terms, env, heap, e, Fresh, bound);
    WrittenFailsIffReached(terms, env, heap, e, st, bound);
    WrittenReplaysParts(terms, env, heap, e, Fresh, bound);
    WrittenReplaysParts(terms, env, heap, e, st, bound);
    QuietParts(WrittenParts(terms, env, heap, e, bound), Some(h), st);
  }

  lemma ChildWF(env: Environment, t: TermID, ns: seq<ExprNode>, nrefs: nat, bound: nat, k: nat)
    requires NodeWF(env, App(t, ns), nrefs, bound) && k < |ns|
    ensures NodeWF(env, ns[k], nrefs, bound)
  {
  }

  /** The built-ins that write their two children one after the other. */
  predicate Concatenating(k: InoutStringType)
  {
    k == SAdd || k == SCons || k == Ch
  }

  /** Children are written left to right, so regrouping a chain of
      concatenations does not change what is written or which error is
      raised. */
  lemma ConcatAssociative(terms: Terms, env: Environment, heap: seq<StringPart>, f: TermID, g: TermID,
                          a: ExprNode, b: ExprNode, c: ExprNode, st: WriterState, bound: nat)
    requires Ready(terms, env, bound)
    requires f in terms && g in terms && Concatenating(terms[f]) && Concatenating(terms[g])
    requires NodeWF(env, App(f, [App(g, [a, b]), c]), |heap|, bound)
    requires NodeWF(env, App(g, [a, App(f, [b, c])]), |heap|, bound)
    ensures Written(terms, env, heap, App(f, [App(g, [a, b]), c]), st, bound)
         == Written(terms, env, heap, App(g, [a, App(f, [b, c])]), st, bound)
  {
    var left := App(f, [App(g, [a, b]), c]);
    var right := App(g, [a, App(f, [b, c])]);
    ChildWF(env, f, [App(g, [a, b]), c], |heap|, bound, 0);
    ChildWF(env, f, [App(g, [a, b]), c], |heap|, bound, 1);
    ChildWF(env, g, [a, b], |heap|, bound, 0);
    ChildWF(env, g, [a, b], |heap|, bound, 1);
    var oa := Written(terms, env, heap, a, st, bound);
    if oa.err.None? {
      var ob := Written(terms, env, heap, b, oa.st, bound);
      assert Written(terms, env, heap, App(g, [a, b]), st, bound) == ob;
      if ob.err.None? {
        assert Written(terms, env, heap, App(f, [b, c]), oa.st, bound) == Written(terms, env, heap, c, ob.st, bound);
      } else {
        assert Written(terms, env, heap, App(f, [b, c]), oa.st, bound) == ob;
      }
    } else {
      assert Written(terms, env, heap, App(g, [a, b]), st, bound) == oa;
    }
  }

  /** `ch` applied to two hex digits writes their nibbles, high first, as
      `write_hex` would. */
  lemma ChWritesHexes(terms: Terms, env: Environment, heap: seq<StringPart>, ch: TermID, xa: TermID, xb: TermID,
                      st: WriterState, bound: nat)
    requires Ready(terms, env, bound)
    requires ch in terms && terms[ch] == Ch && xa in terms && terms[xa].Hex? && xb in terms && terms[xb].Hex?
    requires NodeWF(env, App(ch, [App(xa, []), App(xb, [])]), |heap|, bound)
    ensures Written(terms, env, heap, App(ch, [App(xa, []), App(xb, [])]), st, bound)
         == Outcome(st.WriteHex(terms[xa].h).WriteHex(terms[xb].h), None)
  {
    ChildWF(env, ch, [App(xa, []), App(xb, [])], |heap|, bound, 0);
    ChildWF(env, ch, [App(xa, []), App(xb, [])], |heap|, bound, 1);
  }

  /** Two nibbles into a writer: they extend its nibble stream, and with
      nothing pending they make one byte. */
  lemma HexPair(st: WriterState, a: nibble, b: nibble)
    ensures st.WriteHex(a).WriteHex(b).Nibbles() == st.Nibbles() + [a, b]
    ensures st.hex.None? ==> st.WriteHex(a).WriteHex(b) == WriterState(st.w + [a * 16 + b], None)
  {
    var s1 := st.WriteHex(a);
    assert s1.WriteHex(b).Nibbles() == st.Nibbles() + [a] + [b];
  }

  /** So `ch(xA, xB)` feeds the nibbles A and B into the writer's stream; with
      nothing pending that is the one byte `A * 16 + B`. */
  lemma ChWritesNibbles(terms: Terms, env: Environment, heap: seq<StringPart>, ch: TermID, xa: TermID, xb: TermID,
                        st: WriterState, bound: nat)
    requires Ready(terms, env, bound)
    requires ch in terms && terms[ch] == Ch && xa in terms && terms[xa].Hex? && xb in terms && terms[xb].Hex?
    requires NodeWF(env, App(ch, [App(xa, []), App(xb, [])]), |heap|, bound)
    ensures var o := Written(terms, env, heap, App(ch, [App(xa, []), App(xb, [])]), st, bound);
      && o.err.None?
      && o.st.Nibbles() == st.Nibbles() + [terms[xa].h, terms[xb].h]
      && (st.hex.None? ==> o.st == WriterState(st.w + [terms[xa].h * 16 + terms[xb].h], None))
  {
    ChWritesHexes(terms, env, heap, ch, xa, xb, st, bound);
    HexPair(st, terms[xa].h, terms[xb].h);
  }

  /** The errors `write_node` can raise. */
  predicate WriteError(err: Error)
  {
    err == DummyVariable || err == UnknownDefinition
  }

  /** `write_node` raises no error but a dummy variable or an unknown
      definition, however deep in the unfolding it arises. */
  lemma {:induction false} WrittenErrors(terms: Terms, env: Environment, heap: seq<StringPart>, e: ExprNode, st: WriterState, bound: nat)
    requires Ready(terms, env, bound) && NodeWF(env, e, |heap|, bound)
    ensures var o := Written(terms, env, heap, e, st, bound); o.err.Some? ==> WriteError(o.err.value)
    decreases bound, e, 0
  {
    match e
    case Dummy(_, _) =>
    case Ref(_) =>
    case App(t, ns) =>
      if t in terms {
        match terms[t]
        case S0 =>
        case S1 => WrittenErrors(terms, env, heap, ns[0], st, bound);
        case Hex(_) =>
        case _ =>
          WrittenErrors(terms, env, heap, ns[0], st, bound);
          var o := Written(terms, env, heap, ns[0], st, bound);
          if o.err.None? {
            WrittenErrors(terms, env, heap, ns[1], o.st, bound);
          }
      } else {
        var kind := env.terms[t].kind;
        if kind.Definition? && kind.value.Some? {
          var expr := kind.value.value;
          assert TermWF(env, t);
          ArgPartsErrors(terms, env, heap, ns, bound);
          var a := ArgParts(terms, env, heap, ns, bound);
          if a.Success? {
            HeapPartsErrors(terms, env, expr.heap[|ns|..], a.value, t);
            var r := HeapParts(terms, env, expr.heap[|ns|..], a.value, t);
            if r.Success? {
              WrittenErrors(terms, env, r.value, expr.head, st, t);
            }
          }
        }
      }
  }

  lemma {:induction false} ArgPartsErrors(terms: Terms, env: Environment, heap: seq<StringPart>, ns: seq<ExprNode>, bound: nat)
    requires Ready(terms, env, bound)
    requires forall k :: 0 <= k < |ns| ==> NodeWF(env, ns[k], |heap|, bound)
    ensures var r := ArgParts(terms, env, heap, ns, bound); r.Failure? ==> WriteError(r.error)
    decreases bound, ns, 2
  {
    if ns != [] {
      ArgPartsErrors(terms, env, heap, ns[..|ns| - 1], bound);
      WrittenErrors(terms, env, heap, ns[|ns| - 1], Fresh, bound);
    }
  }

  lemma {:induction false} HeapPartsErrors(terms: Terms, env: Environment, nodes: seq<ExprNode>, base: seq<StringPart>, bound: nat)
    requires Ready(terms, env, bound)
    requires forall k :: 0 <= k < |nodes| ==> NodeWF(env, nodes[k], |base| + k, bound)
    ensures var r := HeapParts(terms, env, nodes, base, bound); r.Failure? ==> WriteError(r.error)
    decreases bound, nodes, 2
  {
    if nodes != [] {
      HeapPartsErrors(terms, env, nodes[..|nodes| - 1], base, bound);
      var prev := HeapParts(terms, env, nodes[..|nodes| - 1], base, bound);
      if prev.Success? {
        WrittenErrors(terms, env, prev.value, nodes[|nodes| - 1], Fresh, bound);
      }
    }
  }

  /** A position the writer evaluates holds a dummy variable, or an
      application of a term that is neither a built-in nor a def with a body:
      under the built-ins' children it walks, among the arguments of a def it
      unfolds, or in that def's body, in a heap slot past the binders or in
      the head. */
  predicate ErrorReached(terms: Terms, env: Environment, e: ExprNode, bound: nat)
    decreases bound, e
  {
    match e
    case Dummy(_, _) => true
    case Ref(_) => false
    case App(t, ns) =>
      if t in terms then
        || (terms[t] == S1 && |ns| > 0 && ErrorReached(terms, env, ns[0], bound))
        || (Concatenating(terms[t]) && |ns| > 1 && (ErrorReached(terms, env, ns[0], bound) || ErrorReached(terms, env, ns[1], bound)))
      else
        || (exists k :: 0 <= k < |ns| && ErrorReached(terms, env, ns[k], bound))
        || (&& t < |env.terms|
            && (|| !(env.terms[t].kind.Definition? && env.terms[t].kind.value.Some?)
                || (&& t < bound
                    && var expr := env.terms[t].kind.value.value;
                       || (exists k :: |ns| <= k < |expr.heap| && ErrorReached(terms, env, expr.heap[k], t))
                       || ErrorReached(terms, env, expr.head, t))))
  }

  /** One failing argument makes the whole argument list fail. */
  lemma {:induction false} ArgPartsFailOnOne(terms: Terms, env: Environment, heap: seq<StringPart>, ns: seq<ExprNode>, bound: nat, k: nat)
    requires Ready(terms, env, bound)
    requires forall j :: 0 <= j < |ns| ==> NodeWF(env, ns[j], |heap|, bound)
    requires k < |ns| && Part(terms, env, heap, ns[k], bound).Failure?
    ensures ArgParts(terms, env, heap, ns, bound).Failure?
    decreases |ns|
  {
    var init := ns[..|ns| - 1];
    if k < |ns| - 1 {
      assert init[k] == ns[k];
      ArgPartsFailOnOne(terms, env, heap, init, bound, k);
    }
  }

  /** A reached dummy variable or unknown definition always makes
      `write_node` fail. */
  lemma {:induction false} ReachedFails(terms: Terms, env: Environment, heap: seq<StringPart>, e: ExprNode, st: WriterState, bound: nat)
    requires Ready(terms, env, bound) && NodeWF(env, e, |heap|, bound) && ErrorReached(terms, env, e, bound)
    ensures Written(terms, env, heap, e, st, bound).err.Some?
    decreases bound, 1, e
  {
    match e
    case Dummy(_, _) =>
    case App(t, ns) =>
      if t in terms {
        if terms[t] == S1 {
          ReachedFails(terms, env, heap, ns[0], st, bound);
        } else {
          var o := Written(terms, env, heap, ns[0], st, bound);
          if ErrorReached(terms, env, ns[0], bound) {
            ReachedFails(terms, env, heap, ns[0], st, bound);
          } else if o.err.None? {
            ReachedFails(terms, env, heap, ns[1], o.st, bound);
          }
        }
      } else if exists k :: 0 <= k < |ns| && ErrorReached(terms, env, ns[k], bound) {
        var k :| 0 <= k < |ns| && ErrorReached(terms, env, ns[k], bound);
        ReachedFails(terms, env, heap, ns[k], Fresh, bound);
        ArgPartsFailOnOne(terms, env, heap, ns, bound, k);
      } else if env.terms[t].kind.Definition? && env.terms[t].kind.value.Some? {
        UnfoldReachedFails(terms, env, heap, t, ns, st, bound);
      }
  }

  /** The unfolding case: the error is reached in the body of the unfolded def. */
  lemma {:induction false} UnfoldReachedFails(terms: Terms, env: Environment, heap: seq<StringPart>, t: TermID, ns: seq<ExprNode>,
                                            st: WriterState, bound: nat)
    requires Ready(terms, env, bound) && NodeWF(env, App(t, ns), |heap|, bound) && t !in terms
    requires env.terms[t].kind.Definition? && env.terms[t].kind.value.Some?
    requires var expr := env.terms[t].kind.value.value;
      || (exists k :: |ns| <= k < |expr.heap| && ErrorReached(terms, env, expr.heap[k], t))
      || ErrorReached(terms, env, expr.head, t)
    ensures Written(terms, env, heap, App(t, ns), st, bound).err.Some?
    decreases bound, 0
  {
    var expr := env.terms[t].kind.value.value;
    assert TermWF(env, t);
    var a := ArgParts(terms, env, heap, ns, bound);
    if a.Success? {
      var nodes := expr.heap[|ns|..];
      var r := HeapParts(terms, env, nodes, a.value, t);
      if exists k :: |ns| <= k < |expr.heap| && ErrorReached(terms, env, expr.heap[k], t) {
        var k :| |ns| <= k < |expr.heap| && ErrorReached(terms, env, expr.heap[k], t);
        assert nodes[k - |ns|] == expr.heap[k];
        HeapPartsFailOnReached(terms, env, nodes, a.value, t, k - |ns|);
      } else if r.Success? {
        ReachedFails(terms, env, r.value, expr.head, st, t);
      }
    }
  }

  /** A heap slot that reaches an error makes the heap loop fail,
      whatever the slots before it evaluate to. */
  lemma {:induction false} HeapPartsFailOnReached(terms: Terms, env: Environment, nodes: seq<ExprNode>, base: seq<StringPart>, bound: nat, j: nat)
    requires Ready(terms, env, bound)
    requires forall k :: 0 <= k < |nodes| ==> NodeWF(env, nodes[k], |base| + k, bound)
    requires j < |nodes| && ErrorReached(terms, env, nodes[j], bound)
    ensures HeapParts(terms, env, nodes, base, bound).Failure?
    decreases bound, 2, |nodes|
  {
    var init := nodes[..|nodes| - 1];
    var prev := HeapParts(terms, env, init, base, bound);
    if j < |nodes| - 1 {
      assert init[j] == nodes[j];
      HeapPartsFailOnReached(terms, env, init, base, bound, j);
    } else if prev.Success? {
      ReachedFails(terms, env, prev.value, nodes[j], Fresh, bound);
    }
  }

  /** Conversely, `write_node` fails exactly when it reaches a dummy
      variable or an unknown definition; which one that is depends on the
      node alone, not on the heap's parts or on the writer. */
  lemma {:induction false} WrittenFailsIffReached(terms: Terms, env: Environment, heap: seq<StringPart>, e: ExprNode, st: WriterState, bound: nat)
    requires Ready(terms, env, bound) && NodeWF(env, e, |heap|, bound)
    ensures Written(terms, env, heap, e, st, bound).err.Some? <==> ErrorReached(terms, env, e, bound)
    decreases bound, e, 0
  {
    if ErrorReached(terms, env, e, bound) {
      ReachedFails(terms, env, heap, e, st, bound);
    } else {
      match e
      case Ref(_) =>
      case App(t, ns) =>
        if t in terms {
          match terms[t]
          case S0 =>
          case S1 => WrittenFailsIffReached(terms, env, heap, ns[0], st, bound);
          case Hex(_) =>
          case _ =>
            WrittenFailsIffReached(terms, env, heap, ns[0], st, bound);
            var o := Written(terms, env, heap, ns[0], st, bound);
            WrittenFailsIffReached(terms, env, heap, ns[1], o.st, bound);
        } else if env.terms[t].kind.Definition? && env.terms[t].kind.value.Some? {
          var expr := env.terms[t].kind.value.value;
          assert TermWF(env, t);
          ArgPartsFailsIffReached(terms, env, heap, ns, bound);
          var a := ArgParts(terms, env, heap, ns, bound);
          if a.Success? {
            var nodes := expr.heap[|ns|..];
            HeapPartsFailsIffReached(terms, env, nodes, a.value, t);
            forall k | 0 <= k < |nodes|
              ensures !ErrorReached(terms, env, nodes[k], t)
            {
              assert nodes[k] == expr.heap[|ns| + k];
            }
            var r := HeapParts(terms, env, nodes, a.value, t);
            if r.Success? {
              WrittenFailsIffReached(terms, env, r.value, expr.head, st, t);
            }
          }
        }
    }
  }

  /** The argument loop fails exactly when one of the arguments reaches an
      error. */
  lemma {:induction false} ArgPartsFailsIffReached(terms: Terms, env: Environment, heap: seq<StringPart>, ns: seq<ExprNode>, bound: nat)
    requires Ready(terms, env, bound)
    requires forall k :: 0 <= k < |ns| ==> NodeWF(env, ns[k], |heap|, bound)
    ensures ArgParts(terms, env, heap, ns, bound).Failure? <==> exists k :: 0 <= k < |ns| && ErrorReached(terms, env, ns[k], bound)
    decreases bound, ns, 2
  {
    if ns != [] {
      var init := ns[..|ns| - 1];
      ArgPartsFailsIffReached(terms, env, heap, init, bound);
      WrittenFailsIffReached(terms, env, heap, ns[|ns| - 1], Fresh, bound);
      assert forall k :: 0 <= k < |init| ==> init[k] == ns[k];
    }
  }

  /** The heap loop fails exactly when one of its slots reaches an error. */
  lemma {:induction false} HeapPartsFailsIffReached(terms: Terms, env: Environment, nodes: seq<ExprNode>, base: seq<StringPart>, bound: nat)
    requires Ready(terms, env, bound)
    requires forall k :: 0 <= k < |nodes| ==> NodeWF(env, nodes[k], |base| + k, bound)
    ensures HeapParts(terms, env, nodes, base, bound).Failure? <==> exists k :: 0 <= k < |nodes| && ErrorReached(terms, env, nodes[k], bound)
    decreases bound, nodes, 2
  {
    if nodes != [] {
      var init := nodes[..|nodes| - 1];
      HeapPartsFailsIffReached(terms, env, init, base, bound);
      assert forall k :: 0 <= k < |init| ==> init[k] == nodes[k];
      var prev := HeapParts(terms, env, init, base, bound);
      if prev.Success? {
        WrittenFailsIffReached(terms, env, prev.value, nodes[|nodes| - 1], Fresh, bound);
      }
    }
  }

  /** Writing the roots fails exactly when one of them reaches an error. */
  lemma {:induction false} RootsFailIffReached(terms: Terms, env: Environment, args: seq<StringPart>, exprs: seq<ExprNode>, st: WriterState)
    requires Ready(terms, env, |env.terms|)
    requires forall k :: 0 <= k < |exprs| ==> NodeWF(env, exprs[k], |args|, |env.terms|)
    ensures RootsWritten(terms, env, args, exprs, st).err.Some? <==> exists k :: 0 <= k < |exprs| && ErrorReached(terms, env, exprs[k], |env.terms|)
    decreases |exprs|
  {
    if exprs != [] {
      var init := exprs[..|exprs| - 1];
      RootsFailIffReached(terms, env, args, init, st);
      assert forall k :: 0 <= k < |init| ==> init[k] == exprs[k];
      var o := RootsWritten(terms, env, args, init, st);
      if o.err.None? {
        WrittenFailsIffReached(terms, env, args, exprs[|exprs| - 1], o.st, |env.terms|);
      }
    }
  }

  /** `write_output_string` fails exactly when a statement heap slot or a
      root reaches a dummy variable or an unknown definition. */
  lemma OutputFailsIffReached(terms: Terms, env: Environment, heap: seq<ExprNode>, exprs: seq<ExprNode>, st: WriterState)
    requires Ready(terms, env, |env.terms|) && OutputWF(env, heap, exprs)
    ensures OutputWritten(terms, env, heap, exprs, st).err.Some? <==>
      || (exists k :: 0 <= k < |heap| && ErrorReached(terms, env, heap[k], |env.terms|))
      || (exists k :: 0 <= k < |exprs| && ErrorReached(terms, env, exprs[k], |env.terms|))
  {
    HeapPartsFailsIffReached(terms, env, heap, [], |env.terms|);
    var h := HeapParts(terms, env, heap, [], |env.terms|);
    if h.Success? {
      RootsFailIffReached(terms, env, h.value, exprs, st);
    }
  }

  /** Nothing is rolled back on an error: what a concatenation wrote before
      reaching a dummy variable stays in the sink. */
  lemma ErrorKeepsEarlierWrites(terms: Terms, env: Environment, heap: seq<StringPart>, f: TermID, a: ExprNode,
                                x: nat, s: SortID, st: WriterState, bound: nat)
    requires Ready(terms, env, bound) && f in terms && Concatenating(terms[f])
    requires NodeWF(env, App(f, [a, Dummy(x, s)]), |heap|, bound) && NodeWF(env, a, |heap|, bound)
    requires Written(terms, env, heap, a, st, bound).err.None?
    ensures var o := Written(terms, env, heap, App(f, [a, Dummy(x, s)]), st, bound);
      && o == Outcome(Written(terms, env, heap, a, st, bound).st, Some(DummyVariable))
      && |st.w| <= |o.st.w| && o.st.w[..|st.w|] == st.w
  {
    WrittenAppends(terms, env, heap, a, st, bound);
  }

  /** The body `sadd(s1(x), s0())` writes whatever part `x` is bound to. */
  lemma WrapBodyWrites(terms: Terms, env: Environment, sadd: TermID, s1: TermID, s0: TermID, bs: seq<byte>, st: WriterState, bound: nat)
    requires Ready(terms, env, bound)
    requires sadd in terms && terms[sadd] == SAdd && s1 in terms && terms[s1] == S1 && s0 in terms && terms[s0] == S0
    requires NodeWF(env, App(sadd, [App(s1, [Ref(0)]), App(s0, [])]), 1, bound)
    ensures Written(terms, env, [StringPart.Str(bs)], App(sadd, [App(s1, [Ref(0)]), App(s0, [])]), st, bound)
         == Outcome(st.WriteStr(bs), None)
  {
    ChildWF(env, sadd, [App(s1, [Ref(0)]), App(s0, [])], 1, bound, 0);
    ChildWF(env, sadd, [App(s1, [Ref(0)]), App(s0, [])], 1, bound, 1);
    ChildWF(env, s1, [Ref(0)], 1, bound, 0);
    var refs := [StringPart.Str(bs)];
    assert Written(terms, env, refs, App(s1, [Ref(0)]), st, bound) == Outcome(st.WriteStr(bs), None);
  }

  lemma UnfoldStep(terms: Terms, env: Environment, heap: seq<StringPart>, t: TermID, ns: seq<ExprNode>, st: WriterState, bound: nat,
                   args: seq<StringPart>, refs: seq<StringPart>)
    requires Ready(terms, env, bound) && NodeWF(env, App(t, ns), |heap|, bound) && t !in terms
    requires env.terms[t].kind.Definition? && env.terms[t].kind.value.Some?
    requires TermWF(env, t)
    requires ArgParts(terms, env, heap, ns, bound) == Success(args)
    requires |env.terms[t].kind.value.value.heap| >= |ns|
    requires forall k :: 0 <= k < |env.terms[t].kind.value.value.heap| - |ns| ==>
      NodeWF(env, env.terms[t].kind.value.value.heap[|ns|..][k], |args| + k, t)
    requires HeapParts(terms, env, env.terms[t].kind.value.value.heap[|ns|..], args, t) == Success(refs)
    requires NodeWF(env, env.terms[t].kind.value.value.head, |refs|, t)
    ensures Written(terms, env, heap, App(t, ns), st, bound) == Written(terms, env, refs, env.terms[t].kind.value.value.head, st, t)
  {
  }

  lemma ArgPartsSingle(terms: Terms, env: Environment, heap: seq<StringPart>, a: ExprNode, bound: nat, part: StringPart)
    requires Ready(terms, env, bound) && NodeWF(env, a, |heap|, bound)
    requires Part(terms, env, heap, a, bound) == Success(part)
    ensures ArgParts(terms, env, heap, [a], bound) == Success([part])
  {
    assert [a][..0] == [];
    assert [a][0] == a;
    assert ArgParts(terms, env, heap, [], bound) == Success([]);
    assert [] + [part] == [part];
  }

  lemma ArgPartsPair(terms: Terms, env: Environment, heap: seq<StringPart>, a: ExprNode, b: ExprNode, bound: nat,
                     pa: StringPart, pb: StringPart)
    requires Ready(terms, env, bound) && NodeWF(env, a, |heap|, bound) && NodeWF(env, b, |heap|, bound)
    requires Part(terms, env, heap, a, bound) == Success(pa) && Part(terms, env, heap, b, bound) == Success(pb)
    ensures ArgParts(terms, env, heap, [a, b], bound) == Success([pa, pb])
  {
    ArgPartsSingle(terms, env, heap, a, bound, pa);
    assert [a, b][..1] == [a];
    assert [a, b][1] == b;
    assert [pa] + [pb] == [pa, pb];
  }

  /** Unfolding substitutes the arguments' parts for the binders: with
      `wrap(x) := sadd(s1(x), s0())`, `wrap(a)` writes exactly the bytes `a`
      evaluates to. */
  lemma UnfoldSubstitutes(terms: Terms, env: Environment, heap: seq<StringPart>, wrap: TermID, sadd: TermID, s1: TermID, s0: TermID,
                          c: SortID, r: SortID, a: ExprNode, bs: seq<byte>, st: WriterState, bound: nat)
    requires Ready(terms, env, bound)
    requires sadd in terms && terms[sadd] == SAdd && s1 in terms && terms[s1] == S1 && s0 in terms && terms[s0] == S0
    requires wrap !in terms && NodeWF(env, App(wrap, [a]), |heap|, bound) && NodeWF(env, a, |heap|, bound)
    requires env.terms[wrap] == TermDecl([Reg(c, 0)], (r, 0),
      Definition(Some(Expr([Ref(0)], App(sadd, [App(s1, [Ref(0)]), App(s0, [])])))))
    requires Part(terms, env, heap, a, bound) == Success(StringPart.Str(bs)) && st.hex.None?
    ensures Written(terms, env, heap, App(wrap, [a]), st, bound) == Outcome(st.WriteStr(bs), None)
  {
    assert TermWF(env, wrap);
    var refs := [StringPart.Str(bs)];
    ArgPartsSingle(terms, env, heap, a, bound, StringPart.Str(bs));
    assert [Ref(0)][1..] == [];
    assert HeapParts(terms, env, [], refs, wrap) == Success(refs);
    var head := App(sadd, [App(s1, [Ref(0)]), App(s0, [])]);
    assert env.terms[wrap].kind.value.value.head == head;
    UnfoldStep(terms, env, heap, wrap, [a], st, bound, refs, refs);
    assert Written(terms, env, heap, App(wrap, [a]), st, bound) == Written(terms, env, refs, head, st, wrap);
    WrapBodyWrites(terms, env, sadd, s1, s0, bs, st, wrap);
    assert Written(terms, env, refs, head, st, wrap) == Outcome(st.WriteStr(bs), None);
  }

  /** The roots of a statement are written in order into one writer: writing
      `a + b` is writing `a`, then, unless that failed, `b` after it. */
  lemma {:induction false} RootsConcat(terms: Terms, env: Environment, args: seq<StringPart>, a: seq<ExprNode>, b: seq<ExprNode>, st: WriterState)
    requires Ready(terms, env, |env.terms|)
    requires forall k :: 0 <= k < |a + b| ==> NodeWF(env, (a + b)[k], |args|, |env.terms|)
    ensures forall k :: 0 <= k < |a| ==> NodeWF(env, a[k], |args|, |env.terms|)
    ensures forall k :: 0 <= k < |b| ==> NodeWF(env, b[k], |args|, |env.terms|)
    ensures var o := RootsWritten(terms, env, args, a, st);
      RootsWritten(terms, env, args, a + b, st) == if o.err.Some? then o else RootsWritten(terms, env, args, b, o.st)
    decreases |b|
  {
    assert forall k :: 0 <= k < |a| ==> (a + b)[k] == a[k];
    assert forall k :: 0 <= k < |b| ==> (a + b)[|a| + k] == b[k];
    if b == [] {
      assert a + b == a;
    } else {
      var b' := b[..|b| - 1];
      assert (a + b)[..|a + b| - 1] == a + b';
      assert (a + b)[|a + b| - 1] == b[|b| - 1];
      assert forall k :: 0 <= k < |a + b'| ==> (a + b')[k] == (a + b)[k];
      RootsConcat(terms, env, args, a, b', st);
    }
  }

  /** Writing the roots never looks at the sink either. */
  lemma {:induction false} RootsBehind(terms: Terms, env: Environment, args: seq<StringPart>, exprs: seq<ExprNode>, st: WriterState, p: seq<byte>)
    requires Ready(terms, env, |env.terms|)
    requires forall k :: 0 <= k < |exprs| ==> NodeWF(env, exprs[k], |args|, |env.terms|)
    ensures var o := RootsWritten(terms, env, args, exprs, st);
      RootsWritten(terms, env, args, exprs, Behind(p, st)) == Outcome(Behind(p, o.st), o.err)
    decreases |exprs|
  {
    if exprs != [] {
      var init := exprs[..|exprs| - 1];
      RootsBehind(terms, env, args, init, st, p);
      var o := RootsWritten(terms, env, args, init, st);
      if o.err.None? {
        WrittenBehind(terms, env, args, exprs[|exprs| - 1], o.st, |env.terms|, p);
      }
    }
  }

  /** `write_output_string` only appends to the output: the sink afterwards is
      the sink before followed by what the statement writes into an empty one,
      and a statement whose heap fails writes nothing. */
  lemma OutputAppends(terms: Terms, env: Environment, heap: seq<ExprNode>, exprs: seq<ExprNode>, st: WriterState)
    requires Ready(terms, env, |env.terms|) && OutputWF(env, heap, exprs)
    ensures var o := OutputWritten(terms, env, heap, exprs, WriterState([], st.hex));
      OutputWritten(terms, env, heap, exprs, st) == Outcome(WriterState(st.w + o.st.w, o.st.hex), o.err)
    ensures HeapParts(terms, env, heap, [], |env.terms|).Failure? ==>
      OutputWritten(terms, env, heap, exprs, st) == Outcome(st, Some(HeapParts(terms, env, heap, [], |env.terms|).error))
  {
    var h := HeapParts(terms, env, heap, [], |env.terms|);
    assert Behind(st.w, WriterState([], st.hex)) == st;
    if h.Success? {
      RootsBehind(terms, env, h.value, exprs, WriterState([], st.hex), st.w);
    } else {
      assert st.w + [] == st.w;
    }
  }
}
