/**
 The SLZ stream format: what a packed stream means, independently of how either side computes it.

 A stream is a sequence of groups. A group is a tag byte followed by the payload of up to eight tokens;
 bit 7-j of the tag says whether slot j holds a back reference (two bytes: 12-bit distance, 4-bit length)
 or a literal (one byte). A back reference whose first byte is zero ends the stream.
 */
module SlzFormat {
  import opened Bytes

  const HISTORY_SIZE := 4096
  const MAX_COMP_LEN := 17

  datatype Token = Literal(value: byte) | Copy(distance: nat, length: nat)

  /**
   What the 12-bit distance and 4-bit length fields can carry, given that the packer never copies fewer than three
   bytes.
   */
  ghost predicate Encodable(t: Token) {
    t.Copy? ==> 1 <= t.distance < HISTORY_SIZE && 3 <= t.length <= MAX_COMP_LEN
  }

  ghost predicate AllEncodable(toks: seq<Token>) {
    forall k :: 0 <= k < |toks| ==> Encodable(toks[k])
  }

  // ----- meaning of tokens: textbook LZ77 over an unbounded output preceded by zeros -----

  /** The byte `d` places before the end of the output; everything before the output started is zero. */
  function Behind(out: seq<byte>, d: nat): byte
    requires 1 <= d
  {
    if d <= |out| then out[|out| - d] else 0
  }

  function CopyBack(out: seq<byte>, d: nat, n: nat): seq<byte>
    requires 1 <= d
    decreases n
  {
    if n == 0 then out else CopyBack(out + [Behind(out, d)], d, n - 1)
  }

  ghost function Apply(out: seq<byte>, t: Token): seq<byte>
    requires Encodable(t)
  {
    match t
    case Literal(b) => out + [b]
    case Copy(d, n) => CopyBack(out, d, n)
  }

  ghost function Expand(out: seq<byte>, toks: seq<Token>): seq<byte>
    requires AllEncodable(toks)
    decreases |toks|
  {
    if toks == [] then out else Expand(Apply(out, toks[0]), toks[1..])
  }

  // ----- bytes of tokens -----

  /** 128 >> j */
  function Weight(j: nat): nat
    requires j < 8
  {
    match j
    case 0 => 128 case 1 => 64 case 2 => 32 case 3 => 16
    case 4 => 8 case 5 => 4 case 6 => 2 case 7 => 1
  }

  /** Sets the bit of weight `w`. */
  function OrBit(tag: nat, w: nat): nat
    requires 0 < w
  {
    if (tag / w) % 2 == 1 then tag else tag + w
  }

  function FirstByte(d: nat, n: nat): byte
    requires d < HISTORY_SIZE && 2 <= n <= MAX_COMP_LEN
  {
    16 * ((d / 16) / 16) + (n - 2)
  }

  function Payload1(t: Token): seq<byte>
    requires Encodable(t)
  {
    match t
    case Literal(b) => [b]
    case Copy(d, n) => [FirstByte(d, n), d % 256]
  }

  ghost function Payload(toks: seq<Token>): seq<byte>
    requires AllEncodable(toks)
    decreases |toks|
  {
    if toks == [] then [] else Payload1(toks[0]) + Payload(toks[1..])
  }

  function SlotBit(t: Token, j: nat): nat
    requires j < 8
  {
    if t.Copy? then Weight(j) else 0
  }

  /** The tag bits of tokens placed in slots j, j+1, ... */
  ghost function TagBits(toks: seq<Token>, j: nat): nat
    requires j + |toks| <= 8
    decreases |toks|
  {
    if toks == [] then 0
    else SlotBit(toks[0], j) + TagBits(toks[1..], j + 1)
  }

  /** The whole stream. Both ways of ending it are here: in a spare slot of the last group, or in a group of its own. */
  ghost function EncodeStream(toks: seq<Token>): seq<int>
    requires AllEncodable(toks)
    decreases |toks|
  {
    if toks == [] then [255, 0, 0]
    else if |toks| < 8 then [TagBits(toks, 0) + Weight(|toks|)] + Payload(toks) + [0, 0]
    else [TagBits(toks[..8], 0)] + Payload(toks[..8]) + EncodeStream(toks[8..])
  }

  lemma EncodeLastGroup(toks: seq<Token>)
    requires AllEncodable(toks) && 0 < |toks| < 8
    ensures EncodeStream(toks) == [TagBits(toks, 0) + Weight(|toks|)] + Payload(toks) + [0, 0]
  {
  }

  // ----- meaning of bytes -----

  function Distance(b1: byte, b2: byte): (d: nat)
    ensures 1 <= d <= HISTORY_SIZE
  {
    var x := (b1 / 16) * 16 * 16 + b2;
    if x == 0 then HISTORY_SIZE else x
  }

  /**
   Decodes `inp` from slot j of a group on, after `out`; `bits` is the group's tag without the bits of the slots
   before j. `None` says the stream runs off the end of its buffer before its end marker.
   */
  function Decode(inp: seq<byte>, bits: nat, j: nat, out: seq<byte>): Option<seq<byte>>
    requires j <= 8
    decreases |inp|, j
  {
    if inp == [] then None
    else if j == 8 then Decode(inp[1..], inp[0], 0, out)
    else if bits < Weight(j) then Decode(inp[1..], bits, j + 1, out + [inp[0]])
    else if inp[0] == 0 then Some(out)
    else if |inp| < 2 then None
    else Decode(inp[2..], bits - Weight(j), j + 1, CopyBack(out, Distance(inp[0], inp[1]), inp[0] % 16 + 2))
  }

  /** The meaning of a whole packed stream. */
  function Unpacked(inp: seq<byte>): Option<seq<byte>> {
    Decode(inp, 0, 8, [])
  }

  // ----- encoding and decoding are inverse on tokens -----

  lemma TagBitsBound(toks: seq<Token>, j: nat, stop: nat)
    requires j + |toks| <= 8
    requires stop == 0 || (j + |toks| < 8 && stop == Weight(j + |toks|))
    ensures j < 8 ==> TagBits(toks, j) + stop < 2 * Weight(j)
    ensures j == 8 ==> TagBits(toks, j) + stop == 0
  {
    if toks != [] {
      TagBitsBound(toks[1..], j + 1, stop);
    }
  }

  lemma DistanceInverts(d: nat, n: nat)
    requires 1 <= d < HISTORY_SIZE && 3 <= n <= MAX_COMP_LEN
    ensures var b1 := FirstByte(d, n); b1 != 0 && Distance(b1, d % 256) == d && b1 % 16 + 2 == n
  {
    var q := d / 256;
    assert (d / 16) / 16 == q;
    assert FirstByte(d, n) == 16 * q + (n - 2);
    assert FirstByte(d, n) / 16 == q;
  }

  lemma DecodeLiteral(b: byte, inp: seq<byte>, bits: nat, j: nat, out: seq<byte>)
    requires j < 8 && bits < Weight(j)
    ensures Decode([b] + inp, bits, j, out) == Decode(inp, bits, j + 1, out + [b])
  {
    assert ([b] + inp)[1..] == inp;
  }

  lemma DecodeCopy(d: nat, n: nat, inp: seq<byte>, bits: nat, j: nat, out: seq<byte>)
    requires j < 8 && Weight(j) <= bits && 1 <= d < HISTORY_SIZE && 3 <= n <= MAX_COMP_LEN
    ensures Decode([FirstByte(d, n), d % 256] + inp, bits, j, out)
         == Decode(inp, bits - Weight(j), j + 1, CopyBack(out, d, n))
  {
    DistanceInverts(d, n);
    var all := [FirstByte(d, n), d % 256] + inp;
    assert all[2..] == inp;
  }

  lemma DecodeToken(t: Token, inp: seq<byte>, bits: nat, j: nat, out: seq<byte>)
    requires Encodable(t) && j < 8 && bits < Weight(j)
    ensures Decode(Payload1(t) + inp, SlotBit(t, j) + bits, j, out) == Decode(inp, bits, j + 1, Apply(out, t))
  {
    match t
    case Literal(b) => DecodeLiteral(b, inp, bits, j, out);
    case Copy(d, n) => DecodeCopy(d, n, inp, Weight(j) + bits, j, out);
  }

  /** Decoding the tokens of one group, whatever follows them. */
  lemma {:induction false} DecodeGroup(toks: seq<Token>, j: nat, stop: nat, rest: seq<byte>, out: seq<byte>)
    requires AllEncodable(toks) && j + |toks| <= 8
    requires stop == 0 || (j + |toks| < 8 && stop == Weight(j + |toks|))
    ensures Decode(Payload(toks) + rest, TagBits(toks, j) + stop, j, out)
         == Decode(rest, stop, j + |toks|, Expand(out, toks))
    decreases |toks|
  {
    hide Decode, CopyBack, Weight;
    if toks == [] {
      assert Payload(toks) + rest == rest;
    } else {
      var t, more := toks[0], toks[1..];
      var bits := TagBits(more, j + 1) + stop;
      assert bits < Weight(j) by { TagBitsBound(more, j + 1, stop); WeightHalves(j); }
      var inp := Payload(more) + rest;
      assert Payload(toks) + rest == Payload1(t) + inp;
      assert TagBits(toks, j) + stop == SlotBit(t, j) + bits;
      DecodeToken(t, inp, bits, j, out);
      DecodeGroup(more, j + 1, stop, rest, Apply(out, t));
    }
  }

  lemma WeightHalves(j: nat)
    requires j < 8
    ensures j < 7 ==> 2 * Weight(j + 1) == Weight(j)
    ensures j == 7 ==> Weight(j) == 1
  {
  }

  ghost predicate AllBytes(s: seq<int>) {
    forall k :: 0 <= k < |s| ==> 0 <= s[k] < 256
  }

  lemma {:induction false} StreamIsBytes(toks: seq<Token>)
    requires AllEncodable(toks)
    ensures AllBytes(EncodeStream(toks))
    decreases |toks|
  {
    if toks == [] {
    } else if |toks| < 8 {
      TagBitsBound(toks, 0, Weight(|toks|));
    } else {
      TagBitsBound(toks[..8], 0, 0);
      StreamIsBytes(toks[8..]);
    }
  }

  lemma DecodeNextTag(tag: byte, inp: seq<byte>, bits: nat, out: seq<byte>)
    ensures Decode([tag] + inp, bits, 8, out) == Decode(inp, tag, 0, out)
  {
    assert ([tag] + inp)[1..] == inp;
  }

  /** Every encodable token list, of whatever length, survives encoding and decoding. */
  lemma {:induction false} StreamRoundTrip(toks: seq<Token>, bits: nat, out: seq<byte>)
    requires AllEncodable(toks)
    ensures AllBytes(EncodeStream(toks))
    ensures Decode(EncodeStream(toks), bits, 8, out) == Some(Expand(out, toks))
    decreases |toks|
  {
    StreamIsBytes(toks);
    if toks == [] {
      DecodeNextTag(255, [0, 0], bits, out);
      assert [255] + [0, 0] == EncodeStream(toks);
    } else if |toks| < 8 {
      var stop := Weight(|toks|);
      TagBitsBound(toks, 0, stop);
      DecodeNextTag(TagBits(toks, 0) + stop, Payload(toks) + [0, 0], bits, out);
      assert [TagBits(toks, 0) + stop] + (Payload(toks) + [0, 0]) == EncodeStream(toks);
      DecodeGroup(toks, 0, stop, [0, 0], out);
    } else {
      FullGroupRoundTrip(toks, bits, out);
      StreamRoundTrip(toks[8..], 0, Expand(out, toks[..8]));
      ExpandSplit(out, toks, 8);
    }
  }

  lemma FullGroupRoundTrip(toks: seq<Token>, bits: nat, out: seq<byte>)
    requires AllEncodable(toks) && |toks| >= 8
    ensures AllBytes(EncodeStream(toks[8..])) && AllBytes(EncodeStream(toks))
    ensures Decode(EncodeStream(toks), bits, 8, out) == Decode(EncodeStream(toks[8..]), 0, 8, Expand(out, toks[..8]))
  {
    hide Decode, Payload, TagBits, Expand;
    StreamIsBytes(toks);
    StreamIsBytes(toks[8..]);
    TagBitsBound(toks[..8], 0, 0);
    var tag: byte := TagBits(toks[..8], 0);
    var rest: seq<byte> := EncodeStream(toks[8..]);
    DecodeNextTag(tag, Payload(toks[..8]) + rest, bits, out);
    assert [tag] + (Payload(toks[..8]) + rest) == EncodeStream(toks);
    DecodeGroup(toks[..8], 0, 0, rest, out);
  }

  lemma {:induction false} ExpandSplit(out: seq<byte>, toks: seq<Token>, n: nat)
    requires AllEncodable(toks) && n <= |toks|
    ensures Expand(out, toks) == Expand(Expand(out, toks[..n]), toks[n..])
    decreases n
  {
    if n == 0 {
      assert toks[0..] == toks;
    } else {
      assert toks[..n][1..] == toks[1..][..n - 1];
      assert toks[1..][n - 1..] == toks[n..];
      ExpandSplit(Apply(out, toks[0]), toks[1..], n - 1);
    }
  }

  /** The exact size of a stream. */
  lemma {:induction false} StreamSize(toks: seq<Token>)
    requires AllEncodable(toks)
    ensures |EncodeStream(toks)| == |Payload(toks)| + |toks| / 8 + 3
    decreases |toks|
  {
    if |toks| >= 8 {
      StreamSize(toks[8..]);
      PayloadSplit(toks, 8);
    }
  }

  lemma {:induction false} PayloadSplit(toks: seq<Token>, n: nat)
    requires AllEncodable(toks) && n <= |toks|
    ensures Payload(toks) == Payload(toks[..n]) + Payload(toks[n..])
    decreases n
  {
    if n == 0 {
      assert toks[0..] == toks;
    } else {
      assert toks[..n][1..] == toks[1..][..n - 1];
      assert toks[1..][n - 1..] == toks[n..];
      PayloadSplit(toks[1..], n - 1);
    }
  }
}
