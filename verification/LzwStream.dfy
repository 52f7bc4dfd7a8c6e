/** Whole compressed files: header, code widths, CLEAR, and the bits between them. */
module LzwStream {
  import opened Bytes
  import opened LzwBits
  import opened LzwCodec

  const MIN_BITS := 9

  /** A byte string holds a bit string when it is that string padded with fewer than eight zero bits. */
  ghost predicate Carries(bytes: seq<byte>, bs: seq<bit>) {
    && |bs| <= 8 * |bytes| < |bs| + 8
    && ByteBits(bytes) == bs + Zeros(8 * |bytes| - |bs|)
  }

  const HEADER: seq<byte> := [0x1f, 0x9d, 0x80 + MIN_BITS]

  /** What the compressor sends in nine-bit symbols; for no input at all, nine one bits (an end-of-file value). */
  ghost function SentSymbols(input: seq<byte>): Option<seq<nat>> {
    if input == [] then Some([0xffff]) else Sent([], input[0], input[1..])
  }

  /** `file` is the compressed form of `input`. */
  ghost predicate IsCompressed(file: seq<byte>, input: seq<byte>) {
    && |file| >= 3 && file[..3] == HEADER
    && SentSymbols(input).Some? && Carries(file[3..], SymsBits(SentSymbols(input).value, MIN_BITS))
  }

  /** The input without the bytes lost at full tables. */
  ghost function KeptBytes(input: seq<byte>): seq<byte> {
    if input == [] then [] else [input[0]] + Kept([], input[0], input[1..])
  }

  /**
   How decompression ends: normally; with the "Bad input stream" abort; or undefined, where the C code follows table
   entries that are not part of the table: never set, or stale ones from before the last CLEAR.
   */
  datatype Outcome = Done(out: seq<byte>) | Abort(out: seq<byte>) | Undefined

  ghost function Prepend(s: seq<byte>, o: Outcome): Outcome {
    match o
    case Done(out) => Done(s + out)
    case Abort(out) => Abort(s + out)
    case Undefined => Undefined
  }

  /**
   `adddict` of the decoder on a table of strings: nothing once the table is full, else one more string and perhaps a
   wider code.
   */
  ghost function Grow(t: seq<seq<byte>>, bits: nat, maxbits: nat, s: seq<byte>): (seq<seq<byte>>, nat) {
    if FIRST_FREE + |t| == Pow2(bits) then (t, bits)
    else (t + [s], if FIRST_FREE + |t| + 1 >= Pow2(bits) && bits < maxbits then bits + 1 else bits)
  }

  /** String-table LZW decoding of a bit string, after the string `prev`. */
  ghost function Continue(bs: seq<bit>, t: seq<seq<byte>>, bits: nat, prev: seq<byte>, maxbits: nat): Outcome
    requires prev != [] && NonEmpty(t) && bits > 0
    decreases |bs|
  {
    if |bs| < bits then Done([])
    else
      var c, rest := BitsVal(bs[..bits]), bs[bits..];
      if c > FIRST_FREE + |t| then Abort([])
      else if c == CLEAR then Start(rest, maxbits)
      else
        var cur := Meaning(t, prev, c);
        var (t', bits') := Grow(t, bits, maxbits, prev + [cur[0]]);
        Prepend(cur, Continue(rest, t', bits', cur, maxbits))
  }

  /** Decoding at the start of the file or after CLEAR; a truncated first symbol is taken for a byte. */
  ghost function Start(bs: seq<bit>, maxbits: nat): Outcome
    decreases |bs|
  {
    if |bs| < MIN_BITS then
      BitsValBound(bs); Pow2Monotone(|bs|, 8); Pow2Values();
      Done([BitsVal(bs)])
    else
      var c := BitsVal(bs[..MIN_BITS]);
      if c >= 256 then Undefined
      else Prepend([c], Continue(bs[MIN_BITS..], [], MIN_BITS, [c], maxbits))
  }

  /** What `decompress` makes of a file, given the widest code it has memory for. */
  ghost function Decompressed(file: seq<byte>, maxbits: nat): Outcome {
    if |file| < 3 || file[0] != 0x1f || file[1] != 0x9d || file[2] % 32 > maxbits then Abort([])
    else Start(ByteBits(file[3..]), maxbits)
  }

  // ----- round trip -----

  lemma TakeHead(head: seq<bit>, tail: seq<bit>)
    ensures (head + tail)[..|head|] == head && (head + tail)[|head|..] == tail
  {
  }

  lemma SymsBitsSplit(syms: seq<nat>, pad: seq<bit>)
    requires syms != []
    ensures SymsBits(syms, MIN_BITS) + pad == SymBits(syms[0], MIN_BITS) + (SymsBits(syms[1..], MIN_BITS) + pad)
  {
  }

  lemma SymsBitsHead(syms: seq<nat>, pad: seq<bit>)
    requires syms != [] && syms[0] < 512
    ensures var bs := SymsBits(syms, MIN_BITS) + pad;
      && |bs| >= MIN_BITS && BitsVal(bs[..MIN_BITS]) == syms[0] && bs[MIN_BITS..] == SymsBits(syms[1..], MIN_BITS) + pad
  {
    SymsBitsSplit(syms, pad);
    TakeHead(SymBits(syms[0], MIN_BITS), SymsBits(syms[1..], MIN_BITS) + pad);
    NineBitValue(syms[0]);
  }

  lemma NineBitValue(s: nat)
    requires s < 512
    ensures BitsVal(SymBits(s, MIN_BITS)) == s
  {
    Pow2Values();
    BitsValOfSym(s, MIN_BITS);
  }

  /** Read from a table of n strings, these symbols never find more than 254 held, so every code is nine bits wide. */
  ghost predicate Narrow(n: nat, syms: seq<nat>)
    decreases |syms|
  {
    syms != [] ==>
      && n < MAX_ENTRIES && syms[0] < 512
      && if syms[0] == CLEAR then |syms| >= 2 && Narrow(0, syms[2..]) else Narrow(n + 1, syms[1..])
  }

  /** Whatever its own limit is, the decoder follows such symbols as the textbook decoder does. */
  lemma {:induction false} NineBitStream(syms: seq<nat>, pad: seq<bit>, t: seq<seq<byte>>, bits: nat,
        prev: seq<byte>, maxbits: nat)
    requires prev != [] && NonEmpty(t) && |pad| < 8 && Narrow(|t|, syms)
    requires bits >= MIN_BITS && (|t| < MAX_ENTRIES ==> bits == MIN_BITS)
    requires Unparse(t, prev, syms).Some?
    ensures Continue(SymsBits(syms, MIN_BITS) + pad, t, bits, prev, maxbits) == Done(Unparse(t, prev, syms).value)
    decreases |syms|
  {
    if syms != [] {
      hide SymsBits, Unparse, Continue, Grow;
      if syms[0] == CLEAR {
        ContinueClear(syms, pad, t, bits, prev, maxbits);
        ClearStep(syms, pad, t, prev, maxbits);
        NineBitStream(syms[2..], pad, [], MIN_BITS, [syms[1]], maxbits);
      } else {
        UnparseOne(t, prev, syms);
        var cur := Meaning(t, prev, syms[0]);
        var (t', bits') := Grow(t, bits, maxbits, prev + [cur[0]]);
        GrowNarrow(t, bits, maxbits, prev + [cur[0]]);
        ContinueSymbol(syms, pad, t, bits, prev, maxbits);
        NineBitStream(syms[1..], pad, t', bits', cur, maxbits);
      }
    }
  }

  /** One symbol read. */
  lemma ContinueSymbol(syms: seq<nat>, pad: seq<bit>, t: seq<seq<byte>>, bits: nat, prev: seq<byte>, maxbits: nat)
    requires prev != [] && NonEmpty(t) && syms != [] && syms[0] < 512 && syms[0] != CLEAR && bits == MIN_BITS
    requires syms[0] <= FIRST_FREE + |t|
    ensures var cur := Meaning(t, prev, syms[0]); var (t', bits') := Grow(t, bits, maxbits, prev + [cur[0]]);
      Continue(SymsBits(syms, MIN_BITS) + pad, t, bits, prev, maxbits)
      == Prepend(cur, Continue(SymsBits(syms[1..], MIN_BITS) + pad, t', bits', cur, maxbits))
  {
    hide SymsBits, BitsVal, Grow, Pow2;
    SymsBitsHead(syms, pad);
  }

  lemma ContinueClear(syms: seq<nat>, pad: seq<bit>, t: seq<seq<byte>>, bits: nat, prev: seq<byte>, maxbits: nat)
    requires prev != [] && NonEmpty(t) && syms != [] && syms[0] == CLEAR && bits == MIN_BITS
    ensures Continue(SymsBits(syms, MIN_BITS) + pad, t, bits, prev, maxbits)
      == Start(SymsBits(syms[1..], MIN_BITS) + pad, maxbits)
  {
    hide SymsBits, BitsVal, Grow, Pow2, Start;
    SymsBitsHead(syms, pad);
  }

  /** With fewer than 255 strings the table grows, and codes stay nine bits wide until it holds 255. */
  lemma GrowNarrow(t: seq<seq<byte>>, bits: nat, maxbits: nat, s: seq<byte>)
    requires |t| < MAX_ENTRIES && bits == MIN_BITS
    ensures var (t', bits') := Grow(t, bits, maxbits, s);
      t' == t + [s] && bits' >= MIN_BITS && (|t'| < MAX_ENTRIES ==> bits' == MIN_BITS)
  {
    Pow2Values();
  }

  lemma UnparseOne(t: seq<seq<byte>>, prev: seq<byte>, syms: seq<nat>)
    requires prev != [] && NonEmpty(t) && syms != [] && syms[0] != CLEAR && Unparse(t, prev, syms).Some?
    ensures syms[0] <= FIRST_FREE + |t|
    ensures var cur := Meaning(t, prev, syms[0]); var more := Unparse(t + [prev + [cur[0]]], cur, syms[1..]);
      more.Some? && Unparse(t, prev, syms) == Some(cur + more.value)
  {
  }

  lemma ClearStep(syms: seq<nat>, pad: seq<bit>, t: seq<seq<byte>>, prev: seq<byte>, maxbits: nat)
    requires prev != [] && NonEmpty(t) && |syms| >= 2 && syms[0] == CLEAR && Unparse(t, prev, syms).Some?
    ensures syms[1] < 256 && Unparse([], [syms[1]], syms[2..]).Some?
    ensures Unparse(t, prev, syms).value == [syms[1]] + Unparse([], [syms[1]], syms[2..]).value
    ensures Start(SymsBits(syms[1..], MIN_BITS) + pad, maxbits)
         == Prepend([syms[1]], Continue(SymsBits(syms[2..], MIN_BITS) + pad, [], MIN_BITS, [syms[1]], maxbits))
  {
    hide SymsBits, BitsVal, Continue;
    assert syms[1..][1..] == syms[2..];
    SymsBitsHead(syms[1..], pad);
  }

  lemma {:induction false} SentIsNarrow(d: Dict, w: nat, rest: seq<byte>)
    requires ValidDict(d) && IsCode(d, w) && 0 < |d| <= MAX_ENTRIES && Sent(d, w, rest).Some?
    ensures Narrow(|d| - 1, Sent(d, w, rest).value)
    decreases |rest|
  {
    if rest == [] {
      assert [w][1..] == [];
    } else {
      match Lookup(d, w, rest[0])
      case Some(n) => SentIsNarrow(d, n, rest[1..]);
      case None =>
        if |d| < MAX_ENTRIES {
          ExtendValid(d, Entry(w, rest[0]));
          SentIsNarrow(d + [Entry(w, rest[0])], rest[0], rest[1..]);
          var s := Sent(d + [Entry(w, rest[0])], rest[0], rest[1..]).value;
          assert ([w] + s)[1..] == s;
        } else {
          var s := Sent([], w, rest[1..]).value;
          FirstIsNarrow(w, rest[1..]);
          assert ([CLEAR] + s)[2..] == s[1..];
        }
    }
  }

  lemma {:induction false} FirstIsNarrow(w: byte, rest: seq<byte>)
    requires Sent([], w, rest).Some?
    ensures var s := Sent([], w, rest).value; s != [] && s[0] == w && Narrow(0, s[1..])
    decreases |rest|
  {
    if rest == [] {
      assert [w as nat][1..] == [];
    } else {
      var d: Dict := [];
      assert d + [Entry(w, rest[0])] == [Entry(w, rest[0])];
      SentIsNarrow([Entry(w, rest[0])], rest[0], rest[1..]);
      var s := Sent([Entry(w, rest[0])], rest[0], rest[1..]).value;
      assert ([w as nat] + s)[1..] == s;
    }
  }

  /**
   Decompressing a compressed file gives the input without the lost bytes, however wide the decoder's own table may
   grow.
   */
  lemma DecompressKept(file: seq<byte>, input: seq<byte>, maxbits: nat)
    requires input != [] && IsCompressed(file, input) && maxbits >= MIN_BITS
    ensures Decompressed(file, maxbits) == Done(KeptBytes(input))
  {
    hide Sent, Kept, SymsBits, Continue, Unparse, Narrow;
    var syms := SentSymbols(input).value;
    FirstIsNarrow(input[0], input[1..]);
    FromEmpty(input[0], input[1..]);
    var bs := SymsBits(syms, MIN_BITS);
    var pad := Zeros(8 * |file[3..]| - |bs|);
    SymsBitsHead(syms, pad);
    NineBitStream(syms[1..], pad, [], MIN_BITS, [input[0]], maxbits);
    assert file[0] == file[..3][0] && file[1] == file[..3][1] && file[2] == file[..3][2];
  }

  /**
   The round trip law, exactly: for every non-empty input with a compressed form, decompressing gives the input back if
   and only if the parse has at most 256 symbols, that is, needs at most 255 table entries.
   */
  lemma CompressRoundTrip(file: seq<byte>, input: seq<byte>, maxbits: nat)
    requires input != [] && IsCompressed(file, input) && maxbits >= MIN_BITS
    ensures Decompressed(file, maxbits) == Done(input) <==> |Symbols(input)| <= MAX_ENTRIES + 1
  {
    DecompressKept(file, input, maxbits);
    KeptIffFits([], input[0], input[1..]);
    assert [input[0]] + input[1..] == input;
  }

  /** Every input whose parse fits has a compressed form. */
  lemma FittingInputIsSent(input: seq<byte>)
    requires input != [] && |Symbols(input)| <= MAX_ENTRIES + 1
    ensures SentSymbols(input) == Some(Symbols(input))
  {
    KeptIffFits([], input[0], input[1..]);
  }

  /** The file that carries a bit string. */
  ghost function BytesOf(bs: seq<bit>): seq<byte>
    decreases |bs|
  {
    if |bs| == 0 then [] else if |bs| <= 8 then [ByteOf(bs)] else [ByteOf(bs[..8])] + BytesOf(bs[8..])
  }

  ghost function ByteOf(bs: seq<bit>): (b: byte)
    requires |bs| <= 8
    ensures b == BitsVal(bs)
  {
    BitsValBound(bs); Pow2Monotone(|bs|, 8); Pow2Values();
    BitsVal(bs)
  }

  lemma OneByte(b: byte)
    ensures ByteBits([b]) == SymBits(b, 8)
  {
    hide SymBits;
    assert [b][1..] == [];
  }

  /** The last byte, with fewer than eight zeros added. */
  lemma LastByteCarries(bs: seq<bit>)
    requires 0 < |bs| <= 8
    ensures Carries(BytesOf(bs), bs)
  {
    hide BitsVal, SymBits, ByteBits, Zeros;
    var pad := Zeros(8 - |bs|);
    BitsValZeros(bs, 8 - |bs|);
    SymOfBitsVal(bs + pad);
    OneByte(ByteOf(bs));
    assert BytesOf(bs) == [ByteOf(bs)];
  }

  lemma {:induction false} BytesOfCarries(bs: seq<bit>)
    ensures Carries(BytesOf(bs), bs)
    decreases |bs|
  {
    if |bs| == 0 {
    } else if |bs| <= 8 {
      LastByteCarries(bs);
    } else {
      BytesOfCarries(bs[8..]);
      SymOfBitsVal(bs[..8]);
      var more := BytesOf(bs[8..]);
      assert BytesOf(bs)[1..] == more;
      assert bs == bs[..8] + bs[8..];
    }
  }

  /** The compressed file of an input, where what the compressor sends is defined. */
  ghost function CompressedForm(input: seq<byte>): Option<seq<byte>> {
    if SentSymbols(input) == None then None
    else Some(HEADER + BytesOf(SymsBits(SentSymbols(input).value, MIN_BITS)))
  }

  lemma CompressedFormIs(input: seq<byte>)
    requires CompressedForm(input).Some?
    ensures IsCompressed(CompressedForm(input).value, input)
  {
    hide SymsBits, Carries, BytesOf;
    BytesOfCarries(SymsBits(SentSymbols(input).value, MIN_BITS));
  }

  /**
   The round trip law without conditions on the input: a non-empty input has a compressed form that decompresses to it
   if and only if its parse needs at most 255 table entries.
   */
  lemma RoundTripIff(input: seq<byte>, maxbits: nat)
    requires input != [] && maxbits >= MIN_BITS
    ensures (CompressedForm(input).Some? && Decompressed(CompressedForm(input).value, maxbits) == Done(input))
      <==> |Symbols(input)| <= MAX_ENTRIES + 1
  {
    hide Symbols, Decompressed, IsCompressed;
    if |Symbols(input)| <= MAX_ENTRIES + 1 { FittingInputIsSent(input); }
    if CompressedForm(input).Some? {
      CompressedFormIs(input);
      CompressRoundTrip(CompressedForm(input).value, input, maxbits);
    }
  }

  // ----- an input that is not given back -----

  /** The bytes from `lo` up to 255. */
  function BytesFrom(lo: nat): (s: seq<byte>)
    requires lo <= 256
    ensures |s| == 256 - lo
    decreases 256 - lo
  {
    if lo == 256 then [] else
      var b: byte := lo;
      [b] + BytesFrom(lo + 1)
  }

  /** The table after the bytes 0 to i have been read. */
  ghost function Ascending(i: nat): (d: Dict)
    requires i <= 255
    ensures |d| == i
  {
    seq(i, k requires 0 <= k < i => Entry(k, k + 1))
  }

  lemma {:induction false} AscendingIsParsed(i: byte)
    ensures var rest := BytesFrom(i + 1) + [0];
      && Sent(Ascending(i), i, rest).Some? && Kept(Ascending(i), i, rest) == BytesFrom(i + 1)
      && |Parse(Ascending(i), i, rest)| == 257 - i
    decreases 255 - i
  {
    var d, rest := Ascending(i), BytesFrom(i + 1) + [0];
    if i < 255 {
      var next: byte := i + 1;
      assert d + [Entry(i, next)] == Ascending(next);
      assert rest[0] == next && rest[1..] == BytesFrom(next + 1) + [0];
      assert Entry(i, next) !in d;
      AscendingIsParsed(next);
      assert [next] + BytesFrom(next + 1) == BytesFrom(next);
    } else {
      assert rest == [0] && rest[1..] == [] && BytesFrom(256) == [];
      assert Entry(i, 0) !in d;
    }
  }

  lemma BytesFromHead(i: byte)
    ensures BytesFrom(i) == [i] + BytesFrom(i + 1)
  {
  }

  lemma AscendingInput(i: byte)
    requires i == 0
    ensures var input := BytesFrom(i) + [0];
      |Symbols(input)| == MAX_ENTRIES + 2 && CompressedForm(input).Some? && KeptBytes(input) == BytesFrom(i)
  {
    hide Parse, Sent, Kept, BytesOf, SymsBits, BytesFrom, Ascending;
    var input := BytesFrom(i) + [0];
    AscendingIsParsed(i);
    BytesFromHead(i);
    assert Ascending(i) == [] && input[1..] == BytesFrom(i + 1) + [0];
  }

  /**
   The bytes 0 to 255 in order and then a 0 fill the table just before the last byte, which is lost: CLEAR is sent with
   the byte 255 pending, and the file decompresses to the first 256 bytes.
   */
  lemma LastByteIsLost(maxbits: nat)
    requires maxbits >= MIN_BITS
    ensures var input := BytesFrom(0) + [0];
      && |Symbols(input)| == MAX_ENTRIES + 2 && CompressedForm(input).Some?
      && Decompressed(CompressedForm(input).value, maxbits) == Done(BytesFrom(0))
      && BytesFrom(0) != input
  {
    hide *;
    var input := BytesFrom(0) + [0];
    AscendingInput(0);
    CompressedFormIs(input);
    DecompressKept(CompressedForm(input).value, input, maxbits);
  }

  /** A sufficient condition on the length alone. */
  lemma ShortInputsFit(input: seq<byte>)
    requires 0 < |input| <= MAX_ENTRIES + 1
    ensures |Symbols(input)| <= MAX_ENTRIES + 1
  {
    ParseNonEmpty([], input[0], input[1..]);
  }

  /** Compressing nothing produces a file the decompressor cannot read. */
  lemma EmptyInputIsUndefined(file: seq<byte>, maxbits: nat)
    requires IsCompressed(file, []) && maxbits >= MIN_BITS
    ensures Decompressed(file, maxbits) == Undefined
  {
    hide SymBits, ByteBits, BitsVal;
    LowBitsOfFfff();
    SymsBitsSplit([0xffff], Zeros(8 * |file[3..]| - 9));
    TakeHead(SymBits(0xffff, MIN_BITS), SymsBits([0xffff][1..], MIN_BITS) + Zeros(8 * |file[3..]| - 9));
    assert file[0] == file[..3][0] && file[1] == file[..3][1] && file[2] == file[..3][2];
  }

  lemma NoBits(a: nat, b: nat)
    ensures SymBits(a, 0) == SymBits(b, 0)
  {
  }

  lemma SameLowBit(a: nat, b: nat, n: nat)
    requires n > 0 && a % 2 == b % 2 && SymBits(a / 2, n - 1) == SymBits(b / 2, n - 1)
    ensures SymBits(a, n) == SymBits(b, n)
  {
  }

  lemma LowBitsOfFfff()
    ensures BitsVal(SymBits(0xffff, 9)) == 511
  {
    hide SymBits, BitsVal;
    NoBits(127, 0);
    SameLowBit(255, 1, 1);
    SameLowBit(511, 3, 2);
    SameLowBit(1023, 7, 3);
    SameLowBit(2047, 15, 4);
    SameLowBit(4095, 31, 5);
    SameLowBit(8191, 63, 6);
    SameLowBit(16383, 127, 7);
    SameLowBit(32767, 255, 8);
    SameLowBit(65535, 511, 9);
    Pow2Values();
    BitsValOfSym(511, 9);
  }
}
