/**
 * The compile-time segment builder (`StringSegBuilder` and `StringSeg` in
 * mm0-rs/src/elab/inout.rs). It accumulates finished segments in `built`,
 * a run of literal bytes in `str` and at most one pending nibble in `hex`;
 * `flush` moves the literal run and then the nibble into `built`.
 */
module SegBuilder {
  import opened Wrappers
  import opened Bytes
  import opened Env

  /** A symbolic piece of a string: literal bytes, a formal argument (its sort
      and position), an application of a term that is not built in (one
      segment sequence per argument), or a lone nibble. */
  datatype StringSeg =
    | Str(s: seq<byte>)
    | Var(sort: SortID, i: nat)
    | Term(t: TermID, args: seq<seq<StringSeg>>)
    | Hex(h: nibble)

  datatype BuilderState = BuilderState(built: seq<StringSeg>, str: seq<byte>, hex: Option<nibble>) {

    /** The segments `flush` would add now: the literal run if it is
        non-empty, then the pending nibble if there is one. */
    function Pending(): seq<StringSeg>
    {
      (if str != [] then [Str(str)] else []) + (if hex.Some? then [Hex(hex.value)] else [])
    }

    /** The sequence the builder stands for: what `make` returns if the
        builder is finished now. */
    function Segments(): seq<StringSeg>
    {
      built + Pending()
    }

    /** Nothing is waiting to be flushed. */
    predicate Clean()
    {
      str == [] && hex.None?
    }

    /** `flush`: empties the literal run and the pending nibble without
        changing what the builder stands for. */
    function Flush(): (r: BuilderState)
      ensures r.Clean() && r.built == r.Segments()
      ensures r.Segments() == Segments()
    {
      BuilderState(built + Pending(), [], None)
    }

    /** `push_hex`: with nothing pending `h` becomes pending; otherwise the
        byte `hi << 4 | h` joins the literal run and `hi` STAYS pending. */
    function PushHex(h: nibble): (r: BuilderState)
      ensures r.built == built
      ensures hex.None? ==> r.str == str && r.hex == Some(h)
      ensures hex.Some? ==> r.str == str + [Join(hex.value, h)] && r.hex == hex
    {
      match hex
      case None => this.(hex := Some(h))
      case Some(hi) => this.(str := str + [Join(hi, h)])
    }

    /** `push_str`: the bytes join the literal run. */
    function PushStr(s: seq<byte>): (r: BuilderState)
      ensures r.built == built && r.hex == hex
      ensures r.str == str + s
    {
      this.(str := str + s)
    }

    /** `push_seg`: literal bytes and nibbles go through `push_str` and
        `push_hex`; a variable or term segment is appended after a flush. */
    function PushSeg(seg: StringSeg): (r: BuilderState)
      ensures seg.Str? ==> r == PushStr(seg.s)
      ensures seg.Hex? ==> r == PushHex(seg.h)
      ensures (seg.Var? || seg.Term?) ==> r.Clean() && r.Segments() == Segments() + [seg]
    {
      match seg
      case Str(s) => PushStr(s)
      case Hex(h) => PushHex(h)
      case _ => var f := Flush(); f.(built := f.built + [seg])
    }

    /** `flush().built.extend_from_slice(segs)`: splices finished segments in. */
    function Splice(segs: seq<StringSeg>): (r: BuilderState)
      ensures r.Clean() && r.Segments() == Segments() + segs
    {
      var f := Flush();
      f.(built := f.built + segs)
    }
  }

  /** A builder as `StringSegBuilder::default()` makes it. */
  const Empty := BuilderState([], [], None)

  /** Feeds a nibble stream to a builder, one `push_hex` at a time. */
  function PushHexes(b: BuilderState, hs: seq<nibble>): BuilderState
    decreases |hs|
  {
    if hs == [] then b else PushHexes(b.PushHex(hs[0]), hs[1..])
  }

  /** Once a nibble is pending in a builder, every further nibble is paired
      with that same nibble and the pending nibble never changes. */
  lemma {:induction false} PushHexesPairWithPending(b: BuilderState, hs: seq<nibble>)
    requires b.hex.Some?
    ensures PushHexes(b, hs) ==
      BuilderState(b.built, b.str + seq(|hs|, k requires 0 <= k < |hs| => Join(b.hex.value, hs[k])), b.hex)
    decreases |hs|
  {
    if hs != [] {
      var b1 := b.PushHex(hs[0]);
      PushHexesPairWithPending(b1, hs[1..]);
      assert b1.str + seq(|hs| - 1, k requires 0 <= k < |hs| - 1 => Join(b.hex.value, hs[1..][k]))
          == b.str + seq(|hs|, k requires 0 <= k < |hs| => Join(b.hex.value, hs[k]));
    }
  }

  /** A nibble stream pushed into an empty builder keeps its first nibble
      pending and pairs it with each later nibble: unlike a writer, the
      builder does not pack the stream pairwise. */
  lemma BuilderDisagreesWithWriter()
    ensures PushHexes(Empty, [1, 2, 3, 4]).Segments() == [Str([0x12, 0x13, 0x14]), Hex(1)]
  {
    var b1 := Empty.PushHex(1);
    assert PushHexes(Empty, [1, 2, 3, 4]) == PushHexes(b1, [2, 3, 4]);
    PushHexesPairWithPending(b1, [2, 3, 4]);
    var joined := seq(3, k requires 0 <= k < 3 => Join(1, [2, 3, 4][k]));
    assert joined == [0x12, 0x13, 0x14];
    assert PushHexes(b1, [2, 3, 4]) == BuilderState([], joined, Some(1));
  }

  /** `StringSegBuilder`, updated in place. */
  class StringSegBuilder {
    var built: seq<StringSeg>
    var str: seq<byte>
    var hex: Option<nibble>

    function State(): BuilderState
      reads this
    {
      BuilderState(built, str, hex)
    }

    /** `StringSegBuilder::default()` */
    constructor ()
      ensures State() == Empty
    {
      built := [];
      str := [];
      hex := None;
    }

    method Flush()
      modifies this
      ensures State() == old(State()).Flush()
    {
      var s := str;
      str := [];
      if s != [] {
        built := built + [Str(s)];
      }
      var taken := hex;
      hex := None;
      if taken.Some? {
        built := built + [Hex(taken.value)];
      }
    }

    method PushHex(h: nibble)
      modifies this
      ensures State() == old(State()).PushHex(h)
    {
      match hex
      case None => hex := Some(h);
      case Some(hi) => str := str + [Join(hi, h)];
    }

    method PushStr(s: seq<byte>)
      modifies this
      ensures State() == old(State()).PushStr(s)
    {
      str := str + s;
    }

    method PushSeg(seg: StringSeg)
      modifies this
      ensures State() == old(State()).PushSeg(seg)
    {
      match seg
      case Str(s) => PushStr(s);
      case Hex(h) => PushHex(h);
      case _ =>
        Flush();
        built := built + [seg];
    }
  }
}
