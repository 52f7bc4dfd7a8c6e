/** The decompressor as uncompress.c runs it. */
module LzwDecompress {
  import opened Bytes
  import opened LzwBits
  import opened LzwCodec
  import opened LzwStream
  import C = LzwCompress

  /** `getbit` and `getsym`: the input bytes taken apart again, lowest bit first. */
  class BitReader {
    const input: seq<byte>
    var ipos: nat
    var c: nat
    var num: nat
    var eof: bool

    ghost predicate Valid()
      reads this
    {
      ipos <= |input| && num <= 8 && c < Pow2(num)
    }

    /** The bits not yet read. */
    ghost function Rest(): seq<bit>
      requires ipos <= |input|
      reads this
    {
      SymBits(c, num) + ByteBits(input[ipos..])
    }

    constructor (input: seq<byte>)
      ensures Valid() && Rest() == ByteBits(input) && !eof
    {
      this.input := input;
      ipos, c, num, eof := 0, 0, 0, false;
      new;
      assert input[0..] == input;
    }

    method GetBit() returns (x: bit)
      requires Valid()
      modifies this
      ensures Valid()
      ensures old(Rest()) == [] ==> Rest() == [] && eof && x == 0
      ensures old(Rest()) != [] ==> x == old(Rest())[0] && Rest() == old(Rest())[1..] && eof == old(eof)
    {
      hide Pow2, SymBits, ByteBits;
      NoneLeft(c);
      if num == 0 {
        if ipos == |input| {
          eof := true;
          return 0;
        }
        NextByte(input, ipos);
        c := input[ipos];
        ipos := ipos + 1;
        num := 8;
      }
      SymBitsHead(c, num, ByteBits(input[ipos..]));
      num := num - 1;
      x := c % 2;
      c := c / 2;
    }

    /**
     `getsym`: the next `bits` bits as a number; at the end of the input the missing ones are zero and `eof` is set.
     */
    method GetSym(bits: nat) returns (acc: nat)
      requires Valid() && !eof
      modifies this
      ensures Valid() && eof == (|old(Rest())| < bits)
      ensures !eof ==> acc == BitsVal(old(Rest())[..bits]) && Rest() == old(Rest())[bits..]
      ensures eof ==> acc == BitsVal(old(Rest())) && Rest() == []
    {
      hide Pow2, SymBits, ByteBits, Progress, BitsVal;
      acc := 0;
      var x: nat := 0;
      ghost var all := Rest();
      ghost var got: seq<bit> := [];
      ProgressStart(all);
      while x < bits
        invariant Valid() && x <= bits && |got| == x && acc == BitsVal(got)
        invariant Progress(all, got, eof, Rest())
        decreases bits - x
      {
        ghost var r, e := Rest(), eof;
        var b := GetBit();
        ProgressStep(all, got, e, r, b, eof, Rest());
        BitsValAppend(got, b);
        acc := acc + b * Pow2(x);
        got := got + [b];
        x := x + 1;
      }
      ProgressEnd(all, got, eof, Rest());
    }
  }

  lemma SymBitsHead(c: nat, num: nat, more: seq<bit>)
    requires num > 0 && c < Pow2(num)
    ensures c / 2 < Pow2(num - 1)
    ensures (SymBits(c, num) + more)[0] == c % 2 && (SymBits(c, num) + more)[1..] == SymBits(c / 2, num - 1) + more
  {
    var b: bit, rest := c % 2, SymBits(c / 2, num - 1);
    assert SymBits(c, num) == [b] + rest && [b] + rest + more == [b] + (rest + more);
  }

  lemma NoneLeft(c: nat)
    ensures SymBits(c, 0) == [] && ByteBits([]) == []
  {
  }

  /** The bits left start with those of the byte at i. */
  lemma NextByte(input: seq<byte>, i: nat)
    requires i < |input|
    ensures input[i] < Pow2(8) && ByteBits(input[i..]) == SymBits(input[i], 8) + ByteBits(input[i + 1..])
  {
    assert input[i..][1..] == input[i + 1..];
    Pow2Values();
  }

  /** `got` has been read out of `all`, and `rest` is left; past the end only zeros have been read. */
  ghost predicate Progress(all: seq<bit>, got: seq<bit>, eof: bool, rest: seq<bit>) {
    if eof then |all| < |got| && got == all + Zeros(|got| - |all|) && rest == []
    else all == got + rest
  }

  lemma ProgressStart(all: seq<bit>)
    ensures Progress(all, [], false, all) && BitsVal([]) == 0
  {
  }

  lemma ProgressStep(all: seq<bit>, got: seq<bit>, eof: bool, rest: seq<bit>, b: bit, eof': bool, rest': seq<bit>)
    requires Progress(all, got, eof, rest)
    requires rest == [] ==> rest' == [] && eof' && b == 0
    requires rest != [] ==> b == rest[0] && rest' == rest[1..] && eof' == eof
    ensures Progress(all, got + [b], eof', rest')
  {
    if rest != [] {
      assert got + rest == got + [b] + rest';
    } else if eof {
      assert Zeros(|got| - |all|) + [b] == Zeros(|got| + 1 - |all|);
      assert got + [b] == all + (Zeros(|got| - |all|) + [b]);
    } else {
      assert all == got;
      assert [b] == Zeros(1);
    }
  }

  lemma ProgressEnd(all: seq<bit>, got: seq<bit>, eof: bool, rest: seq<bit>)
    requires Progress(all, got, eof, rest)
    ensures eof == (|all| < |got|)
    ensures !eof ==> got == all[..|got|] && rest == all[|got|..]
    ensures eof ==> BitsVal(got) == BitsVal(all) && rest == []
  {
    if eof { BitsValZeros(all, |got| - |all|); }
  }

  lemma PrependPrepend(a: seq<byte>, b: seq<byte>, o: Outcome)
    ensures Prepend(a, Prepend(b, o)) == Prepend(a + b, o)
  {
    if !o.Undefined? { assert a + (b + o.out) == a + b + o.out; }
  }

  datatype End = Normal | Aborted | Unspecified

  class Decompressor {
    const mymaxbits: nat
    const ref: array<nat>
    const app: array<byte>
    var nexti: nat
    var bits: nat
    var out: seq<byte>

    ghost predicate Shape()
      reads this
    {
      && MIN_BITS <= bits <= mymaxbits
      && ref.Length == app.Length == Pow2(mymaxbits)
      && FIRST_FREE <= nexti <= Pow2(bits) <= Pow2(mymaxbits)
    }

    ghost function Table(): (d: Dict)
      requires Shape()
      reads this, ref, app
      ensures |d| == nexti - FIRST_FREE
    {
      C.Entries(ref[..], app[..], nexti)
    }

    ghost predicate Valid()
      reads this, ref, app
    {
      Shape() && ValidDict(Table())
    }

    constructor (mymaxbits: nat)
      requires MIN_BITS <= mymaxbits
      ensures Valid() && nexti == FIRST_FREE && bits == MIN_BITS && out == [] && fresh(ref) && fresh(app)
      ensures this.mymaxbits == mymaxbits
    {
      this.mymaxbits := mymaxbits;
      ref := new nat[Pow2(mymaxbits)](_ => 0);
      app := new byte[Pow2(mymaxbits)](_ => 0);
      nexti, bits, out := FIRST_FREE, MIN_BITS, [];
      new;
      Pow2Values();
      Pow2Monotone(MIN_BITS, mymaxbits);
    }

    method ClearDict()
      requires Valid()
      modifies this
      ensures Valid() && nexti == FIRST_FREE && bits == MIN_BITS && out == old(out)
    {
      nexti, bits := FIRST_FREE, MIN_BITS;
      Pow2Values();
      Pow2Monotone(MIN_BITS, mymaxbits);
    }

    /** `first`: the first byte of a symbol's string. */
    function First(sym: nat): (b: byte)
      requires Valid() && IsCode(Table(), sym)
      reads this, ref, app
      ensures b == Str(Table(), sym)[0]
      decreases sym
    {
      if sym < 256 then sym
      else
        assert Table()[sym - FIRST_FREE] == Entry(ref[sym], app[sym]);
        First(ref[sym])
    }

    /** `printsym`: writes a symbol's string. */
    method PrintSym(sym: nat)
      requires Valid() && IsCode(Table(), sym)
      modifies this`out
      ensures out == old(out) + Str(Table(), sym)
      decreases sym
    {
      if sym < 256 {
        out := out + [sym];
        return;
      }
      assert Table()[sym - FIRST_FREE] == Entry(ref[sym], app[sym]);
      ghost var d := Table();
      PrintSym(ref[sym]);
      assert Table() == d;
      out := out + [app[sym]];
    }

    /** `adddict`: the string table grows as the textbook one does. */
    method AddDict(prefix: nat, suffix: byte)
      requires Valid() && IsCode(Table(), prefix)
      modifies this, ref, app
      ensures Valid() && out == old(out)
      ensures Table() == if old(nexti) == Pow2(old(bits)) then old(Table()) else old(Table()) + [Entry(prefix, suffix)]
      ensures (Strings(Table()), bits)
        == Grow(old(Strings(Table())), old(bits), mymaxbits, old(Str(Table(), prefix)) + [suffix])
    {
      if nexti == Pow2(bits) { return; }
      ghost var d, e := Table(), Entry(prefix, suffix);
      ref[nexti] := prefix;
      app[nexti] := suffix;
      nexti := nexti + 1;
      ExtendValid(d, e);
      StringsOfExtended(d, e);
      if nexti >= Pow2(bits) && bits < mymaxbits {
        bits := bits + 1;
        Pow2Monotone(bits, mymaxbits);
      }
      assert Table() == d + [e];
    }

    /**
     One received code that is neither CLEAR nor too big: the table and the output move as the textbook decoder's do.
     */
    method Receive(cur: nat, prev: nat)
      requires Valid() && IsCode(Table(), prev)
      requires cur != CLEAR && cur <= nexti && cur < Pow2(bits)
      modifies this, ref, app
      ensures Valid() && IsCode(Table(), cur)
      ensures var t, p := old(Strings(Table())), old(Str(Table(), prev)); var s := Meaning(t, p, cur);
        && Str(Table(), cur) == s && out == old(out) + s
        && (Strings(Table()), bits) == Grow(t, old(bits), mymaxbits, p + [s[0]])
    {
      hide Grow, ValidDict;
      ghost var d := Table();
      if cur == nexti {
        AddDict(prev, First(prev));
        StrOfNewest(d, Entry(prev, Str(d, prev)[0]));
      } else {
        ghost var e := Entry(prev, First(cur));
        AddDict(prev, First(cur));
        if Table() != d { StrOfExtended(d, e, cur); }
      }
      PrintSym(cur);
    }

    /** One turn of the loop: reads a code and acts on it. `goal` is what the whole file decodes to. */
    method NextCode(r: BitReader, prev: nat, ghost goal: Outcome) returns (stop: bool, again: bool, end: End, cur: nat)
      requires Valid() && r.Valid() && !r.eof && IsCode(Table(), prev)
      requires goal == Prepend(out, Continue(r.Rest(), Strings(Table()), bits, Str(Table(), prev), mymaxbits))
      modifies this, ref, app, r
      ensures Valid() && r.Valid()
      ensures !stop || again ==> !r.eof && |r.Rest()| < |old(r.Rest())|
      ensures !stop ==> IsCode(Table(), cur)
      ensures !stop ==> goal == Prepend(out, Continue(r.Rest(), Strings(Table()), bits, Str(Table(), cur), mymaxbits))
      ensures stop && again ==>
        nexti == FIRST_FREE && bits == MIN_BITS && goal == Prepend(out, Start(r.Rest(), mymaxbits))
      ensures stop && !again ==> end != Unspecified && goal == if end == Normal then Done(out) else Abort(out)
    {
      ghost var bs, t, p, b, o := r.Rest(), Strings(Table()), Str(Table(), prev), bits, out;
      stop, again, end := true, false, Normal;
      cur := r.GetSym(bits);
      if r.eof {
        assert out + [] == out;
        return;
      }
      BitsValBound(bs[..bits]);
      if cur > nexti {
        assert out + [] == out;
        end := Aborted;
        return;
      }
      if cur == CLEAR {
        ClearDict();
        again := true;
        return;
      }
      Receive(cur, prev);
      ContinueStep(bs, t, b, p, mymaxbits, o);
      stop := false;
    }

    /** The loop after a first symbol, up to CLEAR, the end of the input or an impossible code. */
    method Codes(r: BitReader, first: nat) returns (end: End, again: bool)
      requires Valid() && r.Valid() && !r.eof && first < 256 && nexti == FIRST_FREE && bits == MIN_BITS
      modifies this, ref, app, r
      ensures Valid() && r.Valid()
      ensures again ==> !r.eof && nexti == FIRST_FREE && bits == MIN_BITS && |r.Rest()| < |old(r.Rest())|
      ensures var goal := Prepend(old(out), Continue(old(r.Rest()), [], MIN_BITS, [first], mymaxbits));
        if again then goal == Prepend(out, Start(r.Rest(), mymaxbits))
        else end != Unspecified && goal == if end == Normal then Done(out) else Abort(out)
    {
      end, again := Normal, false;
      var prev: nat := first;
      var stop := false;
      assert Strings(Table()) == [];
      ghost var goal := Prepend(out, Continue(r.Rest(), [], MIN_BITS, [first], mymaxbits));
      while !stop
        invariant Valid() && r.Valid()
        invariant stop && !again ==> end != Unspecified && goal == if end == Normal then Done(out) else Abort(out)
        invariant stop && again ==>
          nexti == FIRST_FREE && bits == MIN_BITS && goal == Prepend(out, Start(r.Rest(), mymaxbits))
        invariant !stop || again ==> !r.eof && |r.Rest()| + (if stop then 1 else 0) <= |old(r.Rest())|
        invariant !stop ==> IsCode(Table(), prev)
        invariant !stop ==>
          goal == Prepend(out, Continue(r.Rest(), Strings(Table()), bits, Str(Table(), prev), mymaxbits))
        decreases !stop, |r.Rest()|
      {
        stop, again, end, prev := NextCode(r, prev, goal);
      }
    }

    /** `decompress`: in every case what the string-table decoder makes of the file. */
    method Decompress(file: seq<byte>) returns (end: End)
      requires Valid() && nexti == FIRST_FREE && bits == MIN_BITS && out == []
      modifies this, ref, app
      ensures end == Normal ==> Decompressed(file, mymaxbits) == Done(out)
      ensures end == Aborted ==> Decompressed(file, mymaxbits) == Abort(out)
      ensures end == Unspecified ==> Decompressed(file, mymaxbits) == Undefined
    {
      hide Continue, Start, ByteBits, Strings;
      if |file| < 3 || file[0] != 0x1f || file[1] != 0x9d { return Aborted; }
      if file[2] % 32 > mymaxbits { return Aborted; }
      var r := new BitReader(file[3..]);
      ghost var goal := Start(r.Rest(), mymaxbits);
      assert goal == Prepend([], goal) by { PrependNothing(goal); }
      end := Normal;
      var again := true;
      while again
        invariant Valid() && r.Valid() && fresh(r)
        invariant again ==> !r.eof && nexti == FIRST_FREE && bits == MIN_BITS
        invariant again ==> goal == Prepend(out, Start(r.Rest(), mymaxbits))
        invariant !again ==> end != Unspecified && goal == if end == Normal then Done(out) else Abort(out)
        decreases again, |r.Rest()|
      {
        ghost var bs, o := r.Rest(), out;
        var prev := r.GetSym(bits);
        StartStep(bs, mymaxbits, o);
        if prev >= 256 { return Unspecified; }
        PrintSym(prev);
        if r.eof { return Normal; }
        end, again := Codes(r, prev);
      }
    }
  }

  lemma PrependNothing(o: Outcome)
    ensures Prepend([], o) == o
  {
    if !o.Undefined? { assert [] + o.out == o.out; }
  }

  lemma ContinueStep(bs: seq<bit>, t: seq<seq<byte>>, bits: nat, prev: seq<byte>, maxbits: nat, o: seq<byte>)
    requires prev != [] && NonEmpty(t) && 0 < bits <= |bs|
    requires BitsVal(bs[..bits]) != CLEAR && BitsVal(bs[..bits]) <= FIRST_FREE + |t|
    ensures var cur := Meaning(t, prev, BitsVal(bs[..bits]));
      var g := Grow(t, bits, maxbits, prev + [cur[0]]);
      NonEmpty(g.0) && g.1 > 0
      && Prepend(o, Continue(bs, t, bits, prev, maxbits))
        == Prepend(o + cur, Continue(bs[bits..], g.0, g.1, cur, maxbits))
  {
    var cur := Meaning(t, prev, BitsVal(bs[..bits]));
    var g := Grow(t, bits, maxbits, prev + [cur[0]]);
    PrependPrepend(o, cur, Continue(bs[bits..], g.0, g.1, cur, maxbits));
  }

  lemma StartStep(bs: seq<bit>, maxbits: nat, o: seq<byte>)
    ensures |bs| < MIN_BITS ==> BitsVal(bs) < 256 && Prepend(o, Start(bs, maxbits)) == Done(o + [BitsVal(bs)])
    ensures |bs| >= MIN_BITS ==> var c := BitsVal(bs[..MIN_BITS]);
      if c >= 256 then Start(bs, maxbits) == Undefined
      else Prepend(o, Start(bs, maxbits)) == Prepend(o + [c], Continue(bs[MIN_BITS..], [], MIN_BITS, [c], maxbits))
  {
    if |bs| < MIN_BITS {
      BitsValBound(bs);
      Pow2Monotone(|bs|, 8);
      Pow2Values();
    } else if BitsVal(bs[..MIN_BITS]) < 256 {
      var c := BitsVal(bs[..MIN_BITS]);
      PrependPrepend(o, [c], Continue(bs[MIN_BITS..], [], MIN_BITS, [c], maxbits));
    }
  }
}
