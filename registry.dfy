/**
 * The registry (`check_sort`, `new_sorts`, `check_term` and
 * `new_string_handler` in mm0-rs/src/elab/inout.rs). It looks up the sorts
 * `string`, `hex` and `char` and the built-in terms by name, checks that each
 * has its exact signature, and builds the map from term ids to built-in
 * operations. A user def `scons` joins the map only when its body evaluates
 * symbolically to its first argument followed by its second.
 */
module Registry {
  import opened Wrappers
  import opened Bytes
  import opened Env
  import opened Inout
  import opened SegBuilder
  import opened Process

  /** The three sorts the codec works with. */
  datatype Sorts = Sorts(str: SortID, hex: SortID, chr: SortID)

  predicate NamesSort(env: Environment, s: string)
  {
    s in env.atoms && env.atoms[s].sort.Some?
  }

  /** The term an atom is declared as, if any. */
  function TermNamed(env: Environment, s: string): Option<TermID>
  {
    if s in env.atoms && env.atoms[s].decl.Some? && env.atoms[s].decl.value.Term?
    then Some(env.atoms[s].decl.value.t) else None
  }

  /** The symbol an error is about, if it is about one. */
  function ErrorName(err: Error): Option<string>
  {
    match err
    case SortNotFound(n) => Some(n)
    case TermNotFound(n) => Some(n)
    case DefShouldBeTerm(n) => Some(n)
    case TermShouldBeDef(n) => Some(n)
    case IncorrectType(n, _, _) => Some(n)
    case _ => None
  }

  /** `check_sort`: the sort a name denotes, or an error naming it. */
  function CheckSort(env: Environment, s: string): (r: Result<SortID, Error>)
    ensures r.Success? <==> NamesSort(env, s)
    ensures r.Success? ==> env.atoms[s].sort == Some(r.value)
    ensures r.Failure? ==> r.error == SortNotFound(s)
  {
    if s in env.atoms && env.atoms[s].sort.Some? then Success(env.atoms[s].sort.value)
    else Failure(SortNotFound(s))
  }

  /** `new_sorts`: `string`, `hex` and `char`, failing on the first missing one. */
  function NewSorts(env: Environment): (r: Result<Sorts, Error>)
    ensures r.Success? <==> NamesSort(env, "string") && NamesSort(env, "hex") && NamesSort(env, "char")
    ensures r.Success? ==>
      && CheckSort(env, "string") == Success(r.value.str)
      && CheckSort(env, "hex") == Success(r.value.hex)
      && CheckSort(env, "char") == Success(r.value.chr)
    ensures r.Failure? ==> r.error == SortNotFound(
      if !NamesSort(env, "string") then "string" else if !NamesSort(env, "hex") then "hex" else "char")
  {
    var str :- CheckSort(env, "string");
    var hex :- CheckSort(env, "hex");
    var chr :- CheckSort(env, "char");
    Success(Sorts(str, hex, chr))
  }

  /** In a well-formed environment the three sorts are distinct. */
  lemma NewSortsDistinct(env: Environment)
    requires EnvWF(env) && NewSorts(env).Success?
    ensures var s := NewSorts(env).value; s.str != s.hex && s.str != s.chr && s.hex != s.chr
  {
    assert "string" != "hex" && "string" != "char" && "hex" != "char";
  }

  /** The signature `check_term` demands: returns `ret` with no dependencies,
      and the binders are exactly regular variables of the sorts `args`. */
  predicate HasSignature(td: TermDecl, args: seq<SortID>, ret: SortID)
  {
    && td.ret == (ret, 0)
    && |td.args| == |args|
    && forall i :: 0 <= i < |args| ==> td.args[i] == Reg(args[i], 0)
  }

  /** A def is asked for (`def`) exactly when the declaration is one. */
  predicate KindFits(td: TermDecl, def: bool)
  {
    if def then td.kind.Definition? else td.kind.Axiomatic?
  }

  /** `check_term`: the term named `s`, checked for kind and then for type. */
  function CheckTerm(env: Environment, s: string, args: seq<SortID>, ret: SortID, def: bool): (r: Result<TermID, Error>)
    requires EnvWF(env)
    ensures TermNamed(env, s).Some? ==> TermNamed(env, s).value < |env.terms|
    ensures r.Success? <==>
      && TermNamed(env, s).Some?
      && KindFits(env.terms[TermNamed(env, s).value], def)
      && HasSignature(env.terms[TermNamed(env, s).value], args, ret)
    ensures r.Success? ==> TermNamed(env, s) == Some(r.value)
    ensures r.Failure? ==> ErrorName(r.error) == Some(s)
    ensures TermNamed(env, s).None? ==> r == Failure(TermNotFound(s))
    ensures TermNamed(env, s).Some? && !KindFits(env.terms[TermNamed(env, s).value], def) ==>
      r == Failure(if def then TermShouldBeDef(s) else DefShouldBeTerm(s))
  {
    match TermNamed(env, s)
    case None => Failure(TermNotFound(s))
    case Some(t) =>
      var td := env.terms[t];
      if !def && td.kind.Definition? then Failure(DefShouldBeTerm(s))
      else if def && td.kind.Axiomatic? then Failure(TermShouldBeDef(s))
      else if !HasSignature(td, args, ret) then Failure(IncorrectType(s, args, ret))
      else Success(t)
  }

  /** The digit `{:x}` prints for a nibble. */
  function HexDigit(i: nibble): (c: char)
    ensures i < 10 ==> c as int == '0' as int + i
    ensures 10 <= i ==> c as int == 'a' as int + (i - 10)
  {
    if i < 10 then (48 + i) as char else (87 + i) as char
  }

  /** The name of hex digit `i`: `x0` .. `x9`, `xa` .. `xf`. */
  function HexName(i: nibble): string
  {
    ['x', HexDigit(i)]
  }

  /** The name each built-in is looked up under. */
  function TagName(k: InoutStringType): string
  {
    match k
    case S0 => "s0"
    case S1 => "s1"
    case SAdd => "sadd"
    case SCons => "scons"
    case Ch => "ch"
    case Hex(i) => HexName(i)
  }

  /** The argument sorts each built-in must take. */
  function TagArgs(s: Sorts, k: InoutStringType): seq<SortID>
  {
    match k
    case S0 => []
    case S1 => [s.chr]
    case SAdd => [s.str, s.str]
    case SCons => [s.chr, s.str]
    case Ch => [s.hex, s.hex]
    case Hex(_) => []
  }

  /** The sort each built-in must return. */
  function TagRet(s: Sorts, k: InoutStringType): SortID
  {
    match k
    case Ch => s.chr
    case Hex(_) => s.hex
    case _ => s.str
  }

  /** Different built-ins are looked up under different names. */
  lemma TagNameInjective(k1: InoutStringType, k2: InoutStringType)
    requires TagName(k1) == TagName(k2)
    ensures k1 == k2
  {
    if k1.Hex? && k2.Hex? {
      assert HexDigit(k1.h) == TagName(k1)[1] == TagName(k2)[1] == HexDigit(k2.h);
    }
  }

  /** The term named after built-in `k` is in `m`. */
  predicate Registered(env: Environment, m: Terms, k: InoutStringType)
  {
    TermNamed(env, TagName(k)).Some? && TermNamed(env, TagName(k)).value in m
  }

  /** The term named after built-in `k` is registered as `k`. */
  predicate RegisteredAs(env: Environment, m: Terms, k: InoutStringType)
  {
    Registered(env, m, k) && m[TermNamed(env, TagName(k)).value] == k
  }

  /** Every entry of `m` is the term its built-in's name denotes, with that
      built-in's signature, and a def exactly for `scons`. */
  predicate Sound(env: Environment, s: Sorts, m: Terms)
  {
    forall t :: t in m ==> SoundEntry(env, s, t, m[t])
  }

  /** Term `t` may be registered as built-in `k`: it is the term `k`'s name
      denotes, with `k`'s signature, and a def exactly when `k` is `scons`. */
  predicate SoundEntry(env: Environment, s: Sorts, t: TermID, k: InoutStringType)
  {
    && TermNamed(env, TagName(k)) == Some(t)
    && t < |env.terms|
    && HasSignature(env.terms[t], TagArgs(s, k), TagRet(s, k))
    && KindFits(env.terms[t], k == SCons)
  }

  /** A sound registry only holds terms with as many binders as their
      built-in takes. */
  lemma SoundFits(env: Environment, s: Sorts, m: Terms)
    requires Sound(env, s, m)
    ensures RegistryFits(env, m)
  {
    forall t | t in m
      ensures t < |env.terms| && |env.terms[t].args| == Arity(m[t])
    {
      assert SoundEntry(env, s, t, m[t]);
      assert |TagArgs(s, m[t])| == Arity(m[t]);
    }
  }

  /** One checked insertion keeps the registry sound. */
  lemma InsertSound(env: Environment, s: Sorts, m: Terms, k: InoutStringType)
    requires EnvWF(env) && Sound(env, s, m)
    requires CheckTerm(env, TagName(k), TagArgs(s, k), TagRet(s, k), k == SCons).Success?
    ensures Sound(env, s, m[CheckTerm(env, TagName(k), TagArgs(s, k), TagRet(s, k), k == SCons).value := k])
  {
    var t := CheckTerm(env, TagName(k), TagArgs(s, k), TagRet(s, k), k == SCons).value;
    assert SoundEntry(env, s, t, k);
  }

  /** The `for i in 0..16` loop: `x0` .. `x{n-1}` checked and inserted in order. */
  function HexDigits(env: Environment, s: Sorts, m: Terms, n: nat): Result<Terms, Error>
    requires EnvWF(env) && n <= 16
  {
    if n == 0 then Success(m)
    else
      var m' :- HexDigits(env, s, m, n - 1);
      var t :- CheckTerm(env, HexName(n - 1), [], s.hex, false);
      Success(m'[t := InoutStringType.Hex(n - 1)])
  }

  /** `s0`, `s1`, `sadd` and `ch`, checked and inserted in order. */
  function NamedBuiltins(env: Environment, s: Sorts): Result<Terms, Error>
    requires EnvWF(env)
  {
    var t0 :- CheckTerm(env, "s0", [], s.str, false);
    var t1 :- CheckTerm(env, "s1", [s.chr], s.str, false);
    var ta :- CheckTerm(env, "sadd", [s.str, s.str], s.str, false);
    var tc :- CheckTerm(env, "ch", [s.hex, s.hex], s.chr, false);
    Success(map[t0 := S0][t1 := S1][ta := SAdd][tc := Ch])
  }

  /** The registry without `scons`: the named built-ins, then the digits. */
  function BaseTerms(env: Environment, s: Sorts): Result<Terms, Error>
    requires EnvWF(env)
  {
    var m :- NamedBuiltins(env, s);
    HexDigits(env, s, m, 16)
  }

  /** The segment sequence the `scons` body must evaluate to. */
  function ConsSegs(s: Sorts): seq<StringSeg>
  {
    [Var(s.chr, 0), Var(s.str, 1)]
  }

  /** A well-formed node is shaped for `process_node` when every binder is a
      regular variable without dependencies and the registry fits. */
  lemma {:induction false} NodeShaped(env: Environment, terms: Terms, args: seq<Type>, e: ExprNode, nrefs: nat, bound: nat)
    requires RegistryFits(env, terms) && NodeWF(env, e, nrefs, bound)
    requires forall i :: 0 <= i < |args| ==> args[i].Reg? && args[i].deps == 0
    ensures Shaped(terms, args, nrefs, e)
    decreases e
  {
    match e
    case Ref(_) =>
    case Dummy(_, _) =>
    case App(t, ns) =>
      forall k | 0 <= k < |ns|
        ensures Shaped(terms, args, nrefs, ns[k])
      {
        NodeShaped(env, terms, args, ns[k], nrefs, bound);
      }
  }

  /** So the body of a def whose binders are all regular variables is shaped. */
  lemma DefShapedBySignature(env: Environment, terms: Terms, t: TermID)
    requires EnvWF(env) && RegistryFits(env, terms) && t < |env.terms|
    requires forall i :: 0 <= i < |env.terms[t].args| ==> env.terms[t].args[i].Reg? && env.terms[t].args[i].deps == 0
    ensures DefShaped(terms, env.terms[t])
  {
    var td := env.terms[t];
    assert TermWF(env, t);
    if td.kind.Definition? && td.kind.value.Some? {
      var expr := td.kind.value.value;
      forall k | |td.args| <= k < |expr.heap|
        ensures Shaped(terms, td.args, k, expr.heap[k])
      {
        NodeShaped(env, terms, td.args, expr.heap[k], k, t);
      }
      NodeShaped(env, terms, td.args, expr.head, |expr.heap|, t);
    }
  }

  /** The `scons` term, when it passes `check_term` as a def of type
      `char > string > string` and its body evaluates to `ConsSegs` against
      the registry `base`. */
  function ConsAlias(env: Environment, s: Sorts, base: Terms): (r: Option<TermID>)
    requires EnvWF(env) && RegistryFits(env, base)
    ensures r.Some? ==> r.value < |env.terms|
  {
    match CheckTerm(env, "scons", [s.chr, s.str], s.str, true)
    case Failure(_) => None
    case Success(t) =>
      DefShapedBySignature(env, base, t);
      if DefProcessed(base, env, t, "scons") == Success(ConsSegs(s)) then Some(t) else None
  }

  /** `new_string_handler`: the sorts, and the registry with `scons` added
      when it is an alias of concatenation. */
  function StringHandler(env: Environment): Result<(Sorts, Terms), Error>
    requires EnvWF(env)
  {
    var s :- NewSorts(env);
    var base :- BaseTerms(env, s);
    BaseSound(env, s);
    SoundFits(env, s, base);
    Success((s, WithCons(env, s, base)))
  }

  /** The base registry, with `scons` added when it is an alias. */
  function WithCons(env: Environment, s: Sorts, base: Terms): Terms
    requires EnvWF(env) && RegistryFits(env, base)
  {
    match ConsAlias(env, s, base)
    case None => base
    case Some(t) => base[t := SCons]
  }

  /** The loop only adds checked digits: it keeps the registry sound and
      keeps what was there. */
  lemma {:induction false} HexDigitsSound(env: Environment, s: Sorts, m: Terms, n: nat)
    requires EnvWF(env) && n <= 16 && Sound(env, s, m)
    ensures var r := HexDigits(env, s, m, n); r.Success? ==> Sound(env, s, r.value) && m.Keys <= r.value.Keys
  {
    if n > 0 {
      HexDigitsSound(env, s, m, n - 1);
      var prev := HexDigits(env, s, m, n - 1);
      var c := CheckTerm(env, HexName(n - 1), [], s.hex, false);
      if prev.Success? && c.Success? {
        var k := InoutStringType.Hex(n - 1);
        assert TagName(k) == HexName(n - 1) && TagArgs(s, k) == [] && TagRet(s, k) == s.hex;
        InsertSound(env, s, prev.value, k);
      }
    }
  }

  /** After the loop every digit's term is in the registry. */
  lemma {:induction false} HexDigitsComplete(env: Environment, s: Sorts, m: Terms, n: nat)
    requires EnvWF(env) && n <= 16
    ensures var r := HexDigits(env, s, m, n);
      r.Success? ==> forall i: nibble :: i < n ==> TermNamed(env, HexName(i)).Some? && TermNamed(env, HexName(i)).value in r.value
  {
    if n > 0 {
      HexDigitsComplete(env, s, m, n - 1);
    }
  }

  /** The loop fails only on a digit `check_term` rejects, and names it. */
  lemma {:induction false} HexDigitsFailure(env: Environment, s: Sorts, m: Terms, n: nat)
    requires EnvWF(env) && n <= 16
    ensures var r := HexDigits(env, s, m, n);
      r.Failure? ==> exists i: nibble :: i < n && ErrorName(r.error) == Some(HexName(i))
  {
    if n > 0 {
      HexDigitsFailure(env, s, m, n - 1);
      var c := CheckTerm(env, HexName(n - 1), [], s.hex, false);
      if HexDigits(env, s, m, n - 1).Success? && c.Failure? {
        assert ErrorName(HexDigits(env, s, m, n).error) == Some(HexName(n - 1));
      }
    }
  }

  /** The loop only inserts hex digits. */
  lemma {:induction false} HexDigitsNoCons(env: Environment, s: Sorts, m: Terms, n: nat)
    requires EnvWF(env) && n <= 16 && SCons !in m.Values
    ensures var r := HexDigits(env, s, m, n); r.Success? ==> SCons !in r.value.Values
  {
    if n > 0 {
      HexDigitsNoCons(env, s, m, n - 1);
    }
  }

  /** The term the check of built-in `k` accepts. */
  function Checked(env: Environment, s: Sorts, k: InoutStringType): Result<TermID, Error>
    requires EnvWF(env)
  {
    CheckTerm(env, TagName(k), TagArgs(s, k), TagRet(s, k), k == SCons)
  }

  /** All four named built-ins pass their checks. */
  predicate NamedChecked(env: Environment, s: Sorts)
    requires EnvWF(env)
  {
    Checked(env, s, S0).Success? && Checked(env, s, S1).Success? && Checked(env, s, SAdd).Success? && Checked(env, s, Ch).Success?
  }

  /** Each checked term mapped to its tag, in insertion order. */
  function NamedMap(env: Environment, s: Sorts): Terms
    requires EnvWF(env) && NamedChecked(env, s)
  {
    map[Checked(env, s, S0).value := S0][Checked(env, s, S1).value := S1][Checked(env, s, SAdd).value := SAdd][Checked(env, s, Ch).value := Ch]
  }

  /** The registry the named built-ins make. */
  lemma NamedBuiltinsValue(env: Environment, s: Sorts)
    requires EnvWF(env) && NamedBuiltins(env, s).Success?
    ensures NamedChecked(env, s) && NamedBuiltins(env, s).value == NamedMap(env, s)
  {
  }

  lemma NamedMapSound(env: Environment, s: Sorts)
    requires EnvWF(env) && NamedChecked(env, s)
    ensures Sound(env, s, NamedMap(env, s))
  {
    var m0: Terms := map[];
    var m1 := m0[Checked(env, s, S0).value := S0];
    var m2 := m1[Checked(env, s, S1).value := S1];
    var m3 := m2[Checked(env, s, SAdd).value := SAdd];
    InsertSound(env, s, m0, S0);
    InsertSound(env, s, m1, S1);
    InsertSound(env, s, m2, SAdd);
    InsertSound(env, s, m3, Ch);
  }

  lemma NamedMapRegistered(env: Environment, s: Sorts, k: InoutStringType)
    requires EnvWF(env) && NamedChecked(env, s)
    requires k != SCons && !k.Hex?
    ensures Registered(env, NamedMap(env, s), k)
  {
    assert TermNamed(env, TagName(k)) == Some(Checked(env, s, k).value);
  }

  lemma NamedMapNoCons(env: Environment, s: Sorts)
    requires EnvWF(env) && NamedChecked(env, s)
    ensures SCons !in NamedMap(env, s).Values
  {
    var m := NamedMap(env, s);
    forall t | t in m
      ensures m[t] != SCons
    {
    }
  }

  /** The four named built-ins inserted in order make a sound registry that
      holds each of them. */
  lemma NamedBuiltinsSound(env: Environment, s: Sorts)
    requires EnvWF(env)
    ensures var r := NamedBuiltins(env, s);
      r.Success? ==>
        && Sound(env, s, r.value)
        && SCons !in r.value.Values
        && forall k :: k != SCons && !k.Hex? ==> Registered(env, r.value, k)
  {
    if NamedBuiltins(env, s).Success? {
      NamedBuiltinsValue(env, s);
      NamedMapSound(env, s);
      NamedMapNoCons(env, s);
      forall k | k != SCons && !k.Hex?
        ensures Registered(env, NamedMap(env, s), k)
      {
        NamedMapRegistered(env, s, k);
      }
    }
  }

  /** The base registry is sound, and holds every base built-in. */
  lemma BaseSound(env: Environment, s: Sorts)
    requires EnvWF(env)
    ensures var r := BaseTerms(env, s);
      r.Success? ==>
        && Sound(env, s, r.value)
        && SCons !in r.value.Values
        && forall k :: k != SCons ==> Registered(env, r.value, k)
  {
    var r := BaseTerms(env, s);
    if r.Success? {
      var m := NamedBuiltins(env, s).value;
      NamedBuiltinsSound(env, s);
      HexDigitsSound(env, s, m, 16);
      HexDigitsComplete(env, s, m, 16);
      HexDigitsNoCons(env, s, m, 16);
      assert r == HexDigits(env, s, m, 16);
      forall k | k != SCons
        ensures Registered(env, r.value, k)
      {
        if k.Hex? {
          assert TagName(k) == HexName(k.h);
        } else {
          assert Registered(env, m, k);
        }
      }
    }
  }

  /** Distinct names never denote the same term. */
  lemma TermNamedInjective(env: Environment, a: string, b: string)
    requires AtomsInjective(env) && TermNamed(env, a).Some? && TermNamed(env, a) == TermNamed(env, b)
    ensures a == b
  {
  }

  /** What a successful `new_string_handler` consists of. */
  lemma HandlerParts(env: Environment)
    requires EnvWF(env) && StringHandler(env).Success?
    ensures NewSorts(env).Success?
    ensures var s := NewSorts(env).value;
      && BaseTerms(env, s).Success?
      && Sound(env, s, BaseTerms(env, s).value)
      && RegistryFits(env, BaseTerms(env, s).value)
      && SCons !in BaseTerms(env, s).value.Values
      && (forall k :: k != SCons ==> Registered(env, BaseTerms(env, s).value, k))
      && StringHandler(env).value == (s, WithCons(env, s, BaseTerms(env, s).value))
  {
    var s := NewSorts(env).value;
    BaseSound(env, s);
    SoundFits(env, s, BaseTerms(env, s).value);
  }

  /** What the base registry guarantees. */
  ghost predicate BaseFacts(env: Environment, s: Sorts, base: Terms)
  {
    && Sound(env, s, base)
    && RegistryFits(env, base)
    && SCons !in base.Values
    && forall k :: k != SCons ==> Registered(env, base, k)
  }

  lemma WithConsSound(env: Environment, s: Sorts, base: Terms)
    requires EnvWF(env) && BaseFacts(env, s, base)
    ensures Sound(env, s, WithCons(env, s, base)) && RegistryFits(env, WithCons(env, s, base))
  {
    var alias := ConsAlias(env, s, base);
    if alias.Some? {
      assert TagName(SCons) == "scons" && TagArgs(s, SCons) == [s.chr, s.str] && TagRet(s, SCons) == s.str;
      InsertSound(env, s, base, SCons);
    }
    SoundFits(env, s, WithCons(env, s, base));
  }

  lemma WithConsComplete(env: Environment, s: Sorts, base: Terms)
    requires EnvWF(env) && BaseFacts(env, s, base)
    ensures forall k :: k != SCons ==> RegisteredAs(env, WithCons(env, s, base), k)
  {
    WithConsSound(env, s, base);
    var m := WithCons(env, s, base);
    forall k | k != SCons
      ensures RegisteredAs(env, m, k)
    {
      assert Registered(env, base, k);
      var t := TermNamed(env, TagName(k)).value;
      assert t in m;
      assert SoundEntry(env, s, t, m[t]);
      TermNamedInjective(env, TagName(k), TagName(m[t]));
      TagNameInjective(k, m[t]);
    }
  }

  /** A def is never in the base registry, whose entries are all terms. */
  lemma DefNotBase(env: Environment, s: Sorts, base: Terms, t: TermID)
    requires Sound(env, s, base) && SCons !in base.Values
    requires t < |env.terms| && env.terms[t].kind.Definition?
    ensures t !in base
  {
    forall u | u in base
      ensures env.terms[u].kind.Axiomatic?
    {
      assert SoundEntry(env, s, u, base[u]);
    }
  }

  lemma WithConsCons(env: Environment, s: Sorts, base: Terms)
    requires EnvWF(env) && BaseFacts(env, s, base)
    ensures var m := WithCons(env, s, base);
      forall t :: t in m && m[t] == SCons ==>
        && TermNamed(env, "scons") == Some(t)
        && t < |env.terms|
        && m - {t} == base
        && DefShaped(base, env.terms[t])
        && DefProcessed(base, env, t, "scons") == Success(ConsSegs(s))
  {
    var m := WithCons(env, s, base);
    var alias := ConsAlias(env, s, base);
    forall t | t in m && m[t] == SCons
      ensures TermNamed(env, "scons") == Some(t) && t < |env.terms| && m - {t} == base
        && DefShaped(base, env.terms[t]) && DefProcessed(base, env, t, "scons") == Success(ConsSegs(s))
    {
      assert alias.Some? && alias.value == t;
      var c := CheckTerm(env, "scons", [s.chr, s.str], s.str, true);
      assert c == Success(t);
      DefNotBase(env, s, base, t);
      assert m - {t} == base;
      DefShapedBySignature(env, base, t);
    }
  }

  /** The handler's registry is sound: every entry is the term its built-in's
      name denotes, with exactly that built-in's signature and kind. So it
      fits the evaluators' needs. */
  lemma HandlerSound(env: Environment)
    requires EnvWF(env)
    ensures var h := StringHandler(env);
      h.Success? ==> Sound(env, h.value.0, h.value.1) && RegistryFits(env, h.value.1)
  {
    if StringHandler(env).Success? {
      HandlerParts(env);
      var s := NewSorts(env).value;
      WithConsSound(env, s, BaseTerms(env, s).value);
    }
  }

  /** The handler's registry is complete: each of `s0`, `s1`, `sadd`, `ch`
      and `x0` .. `xf` is registered as its own built-in. */
  lemma HandlerComplete(env: Environment)
    requires EnvWF(env)
    ensures var h := StringHandler(env);
      h.Success? ==> forall k :: k != SCons ==> RegisteredAs(env, h.value.1, k)
  {
    if StringHandler(env).Success? {
      HandlerParts(env);
      var s := NewSorts(env).value;
      WithConsComplete(env, s, BaseTerms(env, s).value);
    }
  }

  /** A registered `scons` is the term named `scons`, and its body evaluates,
      against the registry without it, to its first argument followed by its
      second. */
  lemma HandlerCons(env: Environment)
    requires EnvWF(env)
    ensures var h := StringHandler(env);
      h.Success? ==> forall t :: t in h.value.1 && h.value.1[t] == SCons ==>
        && TermNamed(env, "scons") == Some(t)
        && t < |env.terms|
        && DefShaped(h.value.1 - {t}, env.terms[t])
        && DefProcessed(h.value.1 - {t}, env, t, "scons") == Success(ConsSegs(h.value.0))
  {
    if StringHandler(env).Success? {
      HandlerParts(env);
      var s := NewSorts(env).value;
      WithConsCons(env, s, BaseTerms(env, s).value);
    }
  }

  /** `HandlerCons` and `HandlerSound` for one registered `scons` term. */
  lemma HandlerConsEntry(env: Environment, s: Sorts, m: Terms, t: TermID)
    requires EnvWF(env) && StringHandler(env) == Success((s, m))
    requires t in m && m[t] == SCons
    ensures RegistryFits(env, m) && TermNamed(env, "scons") == Some(t) && t < |env.terms|
    ensures DefShaped(m - {t}, env.terms[t]) && DefProcessed(m - {t}, env, t, "scons") == Success(ConsSegs(s))
  {
    HandlerCons(env);
    HandlerSound(env);
  }

  /** Whether or not `scons` was added, removing it gives back the base
      registry. */
  lemma WithConsWithout(env: Environment, s: Sorts, base: Terms, t: TermID)
    requires EnvWF(env) && BaseFacts(env, s, base)
    requires CheckTerm(env, "scons", [s.chr, s.str], s.str, true) == Success(t)
    ensures WithCons(env, s, base) - {t} == base
  {
    assert t < |env.terms| && env.terms[t].kind.Definition?;
    DefNotBase(env, s, base, t);
  }

  /** The converse of `HandlerCons`: a `scons` that passes `check_term` as a
      def of type `char > string > string` and whose body evaluates, against
      the rest of the registry, to its first argument followed by its second
      is registered as `scons`. */
  lemma HandlerAdmitsCons(env: Environment, s: Sorts, m: Terms, t: TermID)
    requires EnvWF(env) && StringHandler(env) == Success((s, m))
    requires CheckTerm(env, "scons", [s.chr, s.str], s.str, true) == Success(t) && t < |env.terms|
    requires DefShaped(m - {t}, env.terms[t]) && DefProcessed(m - {t}, env, t, "scons") == Success(ConsSegs(s))
    ensures t in m && m[t] == SCons
  {
    HandlerParts(env);
    var base := BaseTerms(env, s).value;
    WithConsWithout(env, s, base, t);
    assert ConsAlias(env, s, base) == Some(t);
  }

  /** The symbols `new_string_handler` can fail on: the three sorts and the
      base built-ins; never `scons`. */
  ghost predicate HandlerSymbol(n: string)
  {
    n == "string" || n == "hex" || n == "char" || exists k :: k != SCons && TagName(k) == n
  }

  /** A failure among the named built-ins names one of them. */
  lemma NamedBuiltinsErrors(env: Environment, s: Sorts)
    requires EnvWF(env)
    ensures var r := NamedBuiltins(env, s);
      r.Failure? ==> ErrorName(r.error).Some? && ErrorName(r.error).value in {"s0", "s1", "sadd", "ch"}
  {
  }

  /** Every failure of `new_string_handler` names the offending symbol, and
      a missing or malformed `scons` is never one. */
  lemma HandlerErrors(env: Environment)
    requires EnvWF(env)
    ensures var h := StringHandler(env);
      h.Failure? ==> ErrorName(h.error).Some? && HandlerSymbol(ErrorName(h.error).value)
  {
    var sorts := NewSorts(env);
    if sorts.Success? {
      var s := sorts.value;
      var named := NamedBuiltins(env, s);
      var h := StringHandler(env);
      if named.Failure? {
        NamedBuiltinsErrors(env, s);
        assert h == Failure(named.error);
        var n := ErrorName(named.error).value;
        if n == "s0" {
          assert TagName(S0) == n;
        } else if n == "s1" {
          assert TagName(S1) == n;
        } else if n == "sadd" {
          assert TagName(SAdd) == n;
        } else {
          assert TagName(Ch) == n;
        }
      } else {
        HexDigitsFailure(env, s, named.value, 16);
        var r := HexDigits(env, s, named.value, 16);
        if r.Failure? {
          assert h == Failure(r.error);
          var i: nibble :| i < 16 && ErrorName(r.error) == Some(HexName(i));
          assert TagName(InoutStringType.Hex(i)) == HexName(i);
        }
      }
    }
  }

  /** Without a `hex` sort (and with a `string` sort) the handler fails,
      naming `hex`. */
  lemma MissingHexSort(env: Environment)
    requires EnvWF(env) && NamesSort(env, "string") && !NamesSort(env, "hex")
    ensures StringHandler(env) == Failure(SortNotFound("hex"))
  {
  }

  /** A failure in the digit loop is the failure of the whole loop. */
  lemma {:induction false} HexDigitsPrefixFailure(env: Environment, s: Sorts, m: Terms, k: nat, n: nat)
    requires EnvWF(env) && k <= n <= 16 && HexDigits(env, s, m, k).Failure?
    ensures HexDigits(env, s, m, n) == HexDigits(env, s, m, k)
    decreases n
  {
    if k < n {
      HexDigitsPrefixFailure(env, s, m, k, n - 1);
    }
  }

  /** `new_string_handler`, building the registry by successive insertions. */
  method NewStringHandler(env: Environment) returns (r: Result<(Sorts, Terms), Error>)
    requires EnvWF(env)
    ensures r == StringHandler(env)
  {
    var sorts := NewSorts(env);
    if sorts.Failure? {
      return Failure(sorts.error);
    }
    var s := sorts.value;
    var base := RegisterBase(env, s);
    if base.Failure? {
      return Failure(base.error);
    }
    BaseSound(env, s);
    SoundFits(env, s, base.value);
    var m := RegisterCons(env, s, base.value);
    r := Success((s, m));
  }

  /** The insertions of `s0`, `s1`, `sadd`, `ch`, then the `for i in 0..16`
      loop over the digits. */
  method RegisterBase(env: Environment, s: Sorts) returns (r: Result<Terms, Error>)
    requires EnvWF(env)
    ensures r == BaseTerms(env, s)
  {
    var m: Terms := map[];
    var c := CheckTerm(env, "s0", [], s.str, false);
    if c.Failure? {
      return Failure(c.error);
    }
    m := m[c.value := S0];
    c := CheckTerm(env, "s1", [s.chr], s.str, false);
    if c.Failure? {
      return Failure(c.error);
    }
    m := m[c.value := S1];
    c := CheckTerm(env, "sadd", [s.str, s.str], s.str, false);
    if c.Failure? {
      return Failure(c.error);
    }
    m := m[c.value := SAdd];
    c := CheckTerm(env, "ch", [s.hex, s.hex], s.chr, false);
    if c.Failure? {
      return Failure(c.error);
    }
    m := m[c.value := Ch];
    assert NamedBuiltins(env, s) == Success(m);
    ghost var named := m;
    for i := 0 to 16
      invariant HexDigits(env, s, named, i) == Success(m)
    {
      c := CheckTerm(env, HexName(i), [], s.hex, false);
      if c.Failure? {
        HexDigitsPrefixFailure(env, s, named, i + 1, 16);
        return Failure(c.error);
      }
      m := m[c.value := InoutStringType.Hex(i)];
    }
    r := Success(m);
  }

  /** The `scons` step: registered when `check_term` accepts it as a def and
      `process_def` yields its arguments in order; skipped silently otherwise. */
  method RegisterCons(env: Environment, s: Sorts, base: Terms) returns (m: Terms)
    requires EnvWF(env) && RegistryFits(env, base)
    ensures m == WithCons(env, s, base)
  {
    m := base;
    var sc := CheckTerm(env, "scons", [s.chr, s.str], s.str, true);
    if sc.Success? {
      DefShapedBySignature(env, base, sc.value);
      var ss := ProcessDef(base, env, sc.value, "scons");
      if ss.Success? && ss.value == [Var(s.chr, 0), Var(s.str, 1)] {
        m := base[sc.value := SCons];
      }
    }
  }
}
