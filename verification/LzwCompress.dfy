/** The compressor as compress.c runs it, with its nine-bit limit. */
module LzwCompress {
  import opened Bytes
  import opened LzwBits
  import opened LzwCodec
  import opened LzwStream

  const TABLE := 512
  const STRZ := 256

  /** The entries of the first `n` codes above CLEAR. */
  ghost function Entries(ref: seq<nat>, app: seq<byte>, nexti: nat): (d: Dict)
    requires FIRST_FREE <= nexti <= |ref| && |ref| == |app|
    ensures |d| == nexti - FIRST_FREE
    ensures forall k :: 0 <= k < |d| ==> d[k] == Entry(ref[FIRST_FREE + k], app[FIRST_FREE + k])
  {
    seq(nexti - FIRST_FREE, k requires 0 <= k < nexti - FIRST_FREE => Entry(ref[FIRST_FREE + k], app[FIRST_FREE + k]))
  }

  /** `putbit` and `flushbits`: bits gathered lowest first, eight to a byte. */
  lemma EmptyVal()
    ensures BitsVal([]) == 0
  {
  }

  class BitWriter {
    var bbuf: nat
    var num: nat
    var out: seq<byte>
    ghost var tail: seq<bit>

    ghost predicate Valid()
      reads this
    {
      num < 8 && |tail| == num && bbuf == BitsVal(tail)
    }

    /** Every bit put so far. */
    ghost function Stream(): seq<bit>
      reads this
    {
      ByteBits(out) + tail
    }

    constructor ()
      ensures Valid() && Stream() == [] && out == []
    {
      bbuf, num, out, tail := 0, 0, [], [];
    }

    method PutBit(b: nat)
      requires Valid()
      modifies this
      ensures Valid() && Stream() == old(Stream()) + [b % 2]
    {
      hide SymBits, ByteBits, BitsVal;
      BitsValAppend(tail, b % 2);
      BitsValBound(tail + [b % 2]);
      bbuf := bbuf + (b % 2) * Pow2(num);
      num := num + 1;
      tail := tail + [b % 2];
      if num == 8 {
        Pow2Values();
        SymOfBitsVal(tail);
        ByteBitsAppend(out, bbuf);
        out := out + [bbuf];
        EmptyVal();
        num, bbuf, tail := 0, 0, [];
      }
    }

    /** `outsym` at width `bits`. */
    method OutSym(sym: nat, bits: nat)
      requires Valid()
      modifies this
      ensures Valid() && Stream() == old(Stream()) + SymBits(sym, bits)
    {
      var x, s := bits, sym;
      while x > 0
        invariant Valid() && 0 <= x
        invariant Stream() + SymBits(s, x) == old(Stream()) + SymBits(sym, bits)
        decreases x
      {
        assert SymBits(s, x) == [s % 2] + SymBits(s / 2, x - 1);
        PutBit(s);
        s := s / 2;
        x := x - 1;
      }
    }

    method FlushBits()
      requires Valid()
      modifies this
      ensures Carries(out, old(Stream()))
    {
      hide SymBits, ByteBits, BitsVal;
      if num > 0 {
        ghost var full := tail + Zeros(8 - num);
        BitsValZeros(tail, 8 - num);
        SymOfBitsVal(full);
        BitsValBound(full);
        Pow2Values();
        ByteBitsAppend(out, bbuf);
        out := out + [bbuf];
      }
      num := 0;
    }
  }

  class Compressor {
    const ref: array<nat>
    const app: array<byte>
    var nexti: nat

    /** The table as a dictionary. */
    ghost function Table(): (d: Dict)
      requires ref.Length == app.Length == TABLE && FIRST_FREE <= nexti <= TABLE
      reads this, ref, app
      ensures |d| == nexti - FIRST_FREE
    {
      Entries(ref[..], app[..], nexti)
    }

    /** Every entry refers to a smaller code, and no two entries are the same. */
    ghost predicate Valid()
      reads this, ref, app
    {
      && ref.Length == app.Length == TABLE && FIRST_FREE <= nexti <= TABLE
      && ValidDict(Table()) && Distinct(Table())
    }

    /** `cleardict` at program start. */
    constructor ()
      ensures Valid() && Table() == [] && fresh(ref) && fresh(app)
    {
      ref := new nat[TABLE](_ => 0);
      app := new byte[TABLE](_ => 0);
      nexti := FIRST_FREE;
    }

    method ClearDict()
      requires Valid()
      modifies this
      ensures Valid() && Table() == []
    {
      nexti := FIRST_FREE;
    }

    /** `adddict`: refuses, changing nothing, when all nine-bit codes are taken. */
    method AddDict(prefix: nat, suffix: byte) returns (full: bool)
      requires Valid() && IsCode(Table(), prefix) && Entry(prefix, suffix) !in Table()
      modifies this, ref, app
      ensures Valid() && full == (|old(Table())| == MAX_ENTRIES)
      ensures Table() == if full then old(Table()) else old(Table()) + [Entry(prefix, suffix)]
    {
      if nexti == TABLE { return true; }
      ghost var d := Table();
      ref[nexti] := prefix;
      app[nexti] := suffix;
      nexti := nexti + 1;
      assert Table() == d + [Entry(prefix, suffix)];
      ExtendValid(d, Entry(prefix, suffix));
      return false;
    }

    /**
     `buildstr`: the string of a code, laid down backwards from index 256; the nine-bit limit keeps it inside the
     buffer.
     */
    method BuildStr(buf: array<byte>, entry: nat) returns (p: nat)
      requires Valid() && IsCode(Table(), entry) && buf.Length >= STRZ && buf != app
      modifies buf
      ensures p <= STRZ && buf[p..STRZ] == Str(Table(), entry)
      ensures buf[STRZ..] == old(buf[STRZ..])
    {
      p := STRZ;
      var e: nat := entry;
      StrLength(Table(), entry);
      while e >= 256
        invariant p <= STRZ && IsCode(Table(), e)
        invariant Str(Table(), entry) == Str(Table(), e) + buf[p..STRZ]
        invariant |Str(Table(), entry)| <= STRZ
        invariant buf[STRZ..] == old(buf[STRZ..])
        decreases e
      {
        ghost var d, s := Table(), buf[p..STRZ];
        assert |Str(d, e)| >= 2;
        p := p - 1;
        buf[p] := app[e];
        assert buf[p..STRZ] == [app[e]] + s;
        assert d[e - FIRST_FREE] == Entry(ref[e], app[e]);
        e := ref[e];
      }
      ghost var s := buf[p..STRZ];
      p := p - 1;
      buf[p] := e;
      assert buf[p..STRZ] == [e] + s;
    }

    /** `exist`: a search by string, which finds the entry (prefix, suffix) exactly when there is one. */
    method Exist(prefix: nat, suffix: byte) returns (n: int)
      requires Valid() && IsCode(Table(), prefix)
      ensures n >= 0 ==> Lookup(Table(), prefix, suffix) == Some(n)
      ensures n < 0 ==> Lookup(Table(), prefix, suffix).None?
    {
      hide Str, ValidDict, Distinct;
      var st, st1 := new byte[STRZ + 1](_ => 0), new byte[STRZ](_ => 0);
      st[STRZ] := suffix;
      ghost var end := st[STRZ..];
      assert end == [suffix];
      var s := BuildStr(st, prefix);
      assert st[STRZ..] == end;
      assert st[s..] == st[s..STRZ] + st[STRZ..];
      ghost var d := Table();
      var h := FIRST_FREE;
      while h < nexti
        invariant FIRST_FREE <= h <= nexti && Table() == d && Valid()
        invariant st[s..] == Str(d, prefix) + [suffix]
        invariant forall k :: 0 <= k < h - FIRST_FREE ==> d[k] != Entry(prefix, suffix)
      {
        var s1 := BuildStr(st1, h);
        SearchStep(d, prefix, suffix, h);
        assert st1[s1..] == st1[s1..STRZ];
        if st[s..] == st1[s1..] { return h; }
        h := h + 1;
      }
      return -1;
    }
  }

  lemma SearchStep(d: Dict, p: nat, x: byte, h: nat)
    requires ValidDict(d) && Distinct(d) && IsCode(d, p) && FIRST_FREE <= h < FIRST_FREE + |d|
    ensures Str(d, h) == Str(d, p) + [x] <==> d[h - FIRST_FREE] == Entry(p, x)
    ensures Str(d, h) == Str(d, p) + [x] ==> Lookup(d, p, x) == Some(h)
  {
    hide Str, ValidDict, Distinct;
    StringSearchIsLookup(d, p, x, h);
    LookupFinds(d, p, x, h);
  }

  lemma LookupFinds(d: Dict, p: nat, x: byte, h: nat)
    requires FIRST_FREE <= h < FIRST_FREE + |d| && Distinct(d)
    ensures d[h - FIRST_FREE] == Entry(p, x) <==> Lookup(d, p, x) == Some(h)
  {
  }

  /**
   The body of the `compress` loop for one more input byte; `rest` is the input from that byte on. `bad`: CLEAR had to
   be sent while the pending symbol was a table entry.
   */
  method Step(c: Compressor, bw: BitWriter, w: nat, ch: byte, ghost rest: seq<byte>, ghost sent: seq<nat>)
    returns (bad: bool, w': nat, ghost sent': seq<nat>)
    requires c.Valid() && bw.Valid() && IsCode(c.Table(), w) && rest != [] && rest[0] == ch
    requires bw.Stream() == SymsBits(sent, MIN_BITS)
    modifies c, c.ref, c.app, bw
    ensures c.Valid() && bw.Valid()
    ensures bad ==> Sent(old(c.Table()), w, rest) == None
    ensures !bad ==> IsCode(c.Table(), w') && bw.Stream() == SymsBits(sent', MIN_BITS)
    ensures !bad ==> After(sent, Sent(old(c.Table()), w, rest)) == After(sent', Sent(c.Table(), w', rest[1..]))
  {
    ghost var d := c.Table();
    sent', w', bad := sent, w, false;
    var n := c.Exist(w, ch);
    if n >= 0 {
      w' := n;
      return;
    }
    var full := c.AddDict(w, ch);
    if !full {
      bw.OutSym(w, MIN_BITS);
      SymsBitsAppend(sent, w, MIN_BITS);
      sent' := sent + [w];
      w' := ch;
      AfterBefore(sent, w, Sent(d + [Entry(w, ch)], ch, rest[1..]));
    } else if w < 256 {
      bw.OutSym(CLEAR, MIN_BITS);
      SymsBitsAppend(sent, CLEAR, MIN_BITS);
      sent' := sent + [CLEAR];
      c.ClearDict();
      AfterBefore(sent, CLEAR, Sent([], w, rest[1..]));
    } else {
      bad := true;
    }
  }

  ghost function After(sent: seq<nat>, r: Option<seq<nat>>): Option<seq<nat>> {
    if r.None? then None else Some(sent + r.value)
  }

  lemma AfterBefore(sent: seq<nat>, s: nat, r: Option<seq<nat>>)
    ensures After(sent, Before(s, r)) == After(sent + [s], r)
  {
    if r.Some? { assert sent + ([s] + r.value) == sent + [s] + r.value; }
  }

  /**
   `compress` and the final flush: the header and the nine-bit symbols. `bad` is where the C code goes on with a stale
   code, one that stands for an entry of the table it has just emptied; the model stops there.
   */
  method Compress(input: seq<byte>) returns (bad: bool, file: seq<byte>)
    ensures bad <==> SentSymbols(input) == None
    ensures !bad ==> IsCompressed(file, input)
  {
    hide Sent;
    var c := new Compressor();
    var bw := new BitWriter();
    var w: nat := 0xffff;
    ghost var sent: seq<nat> := [];
    bad := false;
    if input != [] {
      AfterNothing(SentSymbols(input));
      bad, w, sent := Symbols(input, c, bw);
      if bad { return bad, []; }
    } else {
      assert [] + [w] == [0xffff];
    }
    bw.OutSym(w, MIN_BITS);
    SymsBitsAppend(sent, w, MIN_BITS);
    bw.FlushBits();
    file := HEADER + bw.out;
    assert file[3..] == bw.out && file[..3] == HEADER;
  }

  /** The reading loop, up to the end of the input. */
  method Symbols(input: seq<byte>, c: Compressor, bw: BitWriter) returns (bad: bool, w: nat, ghost sent: seq<nat>)
    requires input != [] && c.Valid() && bw.Valid() && c.Table() == [] && bw.Stream() == []
    modifies c, c.ref, c.app, bw
    ensures bad ==> SentSymbols(input) == None
    ensures !bad ==> bw.Valid() && bw.Stream() == SymsBits(sent, MIN_BITS) && SentSymbols(input) == Some(sent + [w])
  {
    hide Sent;
    w := input[0];
    sent := [];
    var pos := 1;
    AfterNothing(SentSymbols(input));
    while pos < |input|
      invariant 0 < pos <= |input| && c.Valid() && bw.Valid() && IsCode(c.Table(), w)
      invariant SentSymbols(input) == After(sent, Sent(c.Table(), w, input[pos..]))
      invariant bw.Stream() == SymsBits(sent, MIN_BITS)
    {
      assert input[pos..][1..] == input[pos + 1..];
      bad, w, sent := Step(c, bw, w, input[pos], input[pos..], sent);
      if bad { return; }
      pos := pos + 1;
    }
    bad := false;
    LastSent(c.Table(), w, input[pos..]);
  }

  lemma AfterNothing(r: Option<seq<nat>>)
    ensures After([], r) == r
  {
    if r.Some? { assert [] + r.value == r.value; }
  }

  lemma LastSent(d: Dict, w: nat, rest: seq<byte>)
    requires rest == []
    ensures Sent(d, w, rest) == Some([w])
  {
  }
}
