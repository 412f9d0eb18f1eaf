/**
 * The output sink of the codec (`StringWriter` and `StringPart` in
 * mm0-rs/src/elab/inout.rs). A writer appends bytes to its sink and holds at
 * most one pending hex nibble; a second nibble combines with it into one byte.
 * The sink is modelled as the sequence of bytes written so far; writes to it
 * cannot fail.
 */
module Writer {
  import opened Wrappers
  import opened Bytes

  /** What one expression evaluated to: its bytes, or a lone pending nibble. */
  datatype StringPart = Hex(h: nibble) | Str(s: seq<byte>)

  /** The state of a writer: the bytes written to its sink and the pending nibble. */
  datatype WriterState = WriterState(w: seq<byte>, hex: Option<nibble>) {

    /** The nibble stream this writer has been fed, as far as its state
        records it: the nibbles of every byte written, then the pending one. */
    function Nibbles(): seq<nibble>
    {
      Unpack(w) + (if hex.Some? then [hex.value] else [])
    }

    /** `write_hex`: with nothing pending, `h` becomes pending; otherwise the
        pending nibble and `h` go out as one byte and nothing stays pending. */
    function WriteHex(h: nibble): (r: WriterState)
      ensures r.Nibbles() == Nibbles() + [h]
      ensures r.w[..|w|] == w && |r.w| <= |w| + 1
      ensures r.hex.None? <==> hex.Some?
    {
      match hex
      case None => WriterState(w, Some(h))
      case Some(hi) =>
        UnpackAppend(w, [Join(hi, h)]);
        WriterState(w + [Join(hi, h)], None)
    }

    /** `write_str`: the bytes go straight to the sink; a pending nibble stays
        pending, waiting for its partner. */
    function WriteStr(buf: seq<byte>): (r: WriterState)
      ensures r.w == w + buf
      ensures r.hex == hex
      ensures hex.None? ==> r.Nibbles() == Nibbles() + Unpack(buf)
    {
      UnpackAppend(w, buf);
      WriterState(w + buf, hex)
    }

    /** `write_part`: replays a part through this writer's own rules. */
    function WritePart(p: StringPart): (r: WriterState)
      ensures p.Hex? ==> r == WriteHex(p.h)
      ensures p.Str? ==> r == WriteStr(p.s)
    {
      match p
      case Hex(h) => WriteHex(h)
      case Str(s) => WriteStr(s)
    }

    /** `From<StringWriter> for StringPart`: the buffered bytes when nothing
        is pending, otherwise the pending nibble alone (the bytes are dropped). */
    function Into(): (p: StringPart)
      ensures p.Str? <==> hex.None?
      ensures p.Str? ==> p.s == w
      ensures p.Hex? ==> hex == Some(p.h)
    {
      match hex
      case None => Str(w)
      case Some(h) => Hex(h)
    }
  }

  /** A writer as `StringWriter::default()` makes it. */
  const Fresh := WriterState([], None)

  /** Feeds a nibble stream to a writer, one `write_hex` at a time. */
  function WriteHexes(st: WriterState, hs: seq<nibble>): WriterState
    decreases |hs|
  {
    if hs == [] then st else WriteHexes(st.WriteHex(hs[0]), hs[1..])
  }

  /** Whatever the writer's state, feeding it nibbles extends its nibble stream by exactly those nibbles. */
  lemma {:induction false} WriteHexesNibbles(st: WriterState, hs: seq<nibble>)
    ensures WriteHexes(st, hs).Nibbles() == st.Nibbles() + hs
    decreases |hs|
  {
    if hs != [] {
      WriteHexesNibbles(st.WriteHex(hs[0]), hs[1..]);
      assert [hs[0]] + hs[1..] == hs;
    }
  }

  /** From a writer with nothing pending, a nibble stream comes out packed
      pairwise, high nibble first; an odd last nibble stays pending. */
  lemma {:induction false} WriteHexesPack(st: WriterState, hs: seq<nibble>)
    requires st.hex.None?
    ensures var even := |hs| - |hs| % 2;
      WriteHexes(st, hs) == WriterState(st.w + Pack(hs[..even]), if even < |hs| then Some(hs[even]) else None)
    decreases |hs|
  {
    if |hs| == 1 {
      assert WriteHexes(st, hs) == WriteHexes(st.WriteHex(hs[0]), []);
    } else if |hs| >= 2 {
      var st2 := WriterState(st.w + [Join(hs[0], hs[1])], None);
      assert st.WriteHex(hs[0]).WriteHex(hs[1]) == st2;
      assert WriteHexes(st, hs) == WriteHexes(st2, hs[2..]) by {
        assert hs[1..][0] == hs[1] && hs[1..][1..] == hs[2..];
      }
      WriteHexesPack(st2, hs[2..]);
      var even := |hs| - |hs| % 2;
      assert hs[..even][2..] == hs[2..][..even - 2];
      assert Pack(hs[..even]) == [Join(hs[0], hs[1])] + Pack(hs[2..][..even - 2]);
      assert even < |hs| ==> hs[2..][even - 2] == hs[even];
    }
  }

  /** Writing the nibbles of a byte string, from a writer with nothing
      pending, is the same as writing the byte string. */
  lemma WriteNibblesOfBytes(st: WriterState, bs: seq<byte>)
    requires st.hex.None?
    ensures WriteHexes(st, Unpack(bs)) == st.WriteStr(bs)
  {
    WriteHexesPack(st, Unpack(bs));
    assert Unpack(bs)[..|Unpack(bs)|] == Unpack(bs);
    PackUnpack(bs);
  }

  /** A pending nibble survives an interleaved literal write: it pairs with
      the next nibble and that byte lands after the literal bytes. */
  lemma PendingSurvivesStr(st: WriterState, buf: seq<byte>, lo: nibble)
    requires st.hex.Some?
    ensures st.WriteStr(buf).WriteHex(lo) == WriterState(st.w + buf + [Join(st.hex.value, lo)], None)
  {
  }

  /** `StringWriter`, with its sink modelled as the bytes written to it. */
  class StringWriter {
    var w: seq<byte>
    var hex: Option<nibble>

    function State(): WriterState
      reads this
    {
      WriterState(w, hex)
    }

    /** `StringWriter::default()` */
    constructor ()
      ensures State() == Fresh
    {
      w := [];
      hex := None;
    }

    method WriteHex(h: nibble)
      modifies this
      ensures State() == old(State()).WriteHex(h)
    {
      var taken := hex;
      hex := None;
      match taken
      case None => hex := Some(h);
      case Some(hi) => w := w + [Join(hi, h)];
    }

    method WriteStr(buf: seq<byte>)
      modifies this
      ensures State() == old(State()).WriteStr(buf)
    {
      w := w + buf;
    }

    method WritePart(s: StringPart)
      modifies this
      ensures State() == old(State()).WritePart(s)
    {
      match s
      case Hex(h) => WriteHex(h);
      case Str(buf) => WriteStr(buf);
    }
  }
}
