/** xxd.c: the dump loop with its line buffer, xxdline, and huntype. */
module Xxd {
  import opened Bytes
  import opened XxdText
  import opened XxdRevert

  /** `xxdline` and its two static variables. */
  class LineWriter {
    var zeroSeen: int
    var z: string
    var out: string

    constructor ()
      ensures zeroSeen == 0 && z == [] && out == []
    {
      zeroSeen, z, out := 0, [], [];
    }

    method Line(l: string, nz: int)
      modifies this
      ensures (zeroSeen, z, out) == (var x := XxdLine(old(zeroSeen), old(z), l, nz); (x.0, x.1, old(out) + x.2))
    {
      ghost var zeros, saved, before := zeroSeen, z, out;
      if nz == 0 && zeroSeen == 1 { z := l; }
      var shown := nz != 0 || zeroSeen == 0;
      if nz == 0 { zeroSeen := zeroSeen + 1; }
      if shown {
        if nz != 0 {
          if nz < 0 { zeroSeen := zeroSeen - 1; }
          if zeroSeen == 2 { out := out + z; }
          if zeroSeen > 2 { out := out + "*\n"; }
        }
        if nz >= 0 || zeroSeen > 0 { out := out + l; }
        if nz != 0 { zeroSeen := 0; }
      }
      ghost var x := XxdLine(zeros, saved, l, nz);
      assert out == before + x.2;
    }
  }

  /** The line buffer when the bytes `row` of the line at offset n have been put in. */
  ghost predicate Filled(l: seq<char>, n: nat, row: seq<byte>, cols: nat, o: nat, upper: bool)
    requires 0 < o && |row| <= cols && 0 < cols
  {
    var h, a := HexColumn(o, |row|), AsciiColumn(cols, o);
    && |l| == LLEN + 1 && a + cols + 1 <= LLEN && h <= a
    && l[..h] == OffsetText(n, 8) + [':', ' '] + HexText(row, o, 0, upper)
    && (forall i :: h <= i < a ==> l[i] == ' ')
    && l[a..a + |row|] == ShownText(row)
  }

  lemma {:induction false} HexTextAppend(row: seq<byte>, b: byte, o: nat, p: nat, upper: bool)
    requires o > 0 && p <= |row|
    ensures HexText(row + [b], o, p, upper) == HexText(row, o, p, upper) + ByteText(b, o, |row|, upper)
    decreases |row| - p
  {
    if p == |row| {
      assert HexText(row + [b], o, p + 1, upper) == [];
      assert (row + [b])[p] == b;
    } else {
      assert (row + [b])[p] == row[p];
      HexTextAppend(row, b, o, p + 1, upper);
    }
  }

  /** The buffer index C computes with one division. */
  lemma ColumnIs(p: nat, o: nat)
    requires o > 0
    ensures 10 + ((2 * o + 1) * p) / o == HexColumn(o, p)
  {
    var q, r := p / o, p % o;
    assert p == q * o + r;
    assert (2 * o + 1) * p == (2 * p + q) * o + r by {
      assert (2 * o + 1) * p == 2 * o * p + p;
      assert (2 * p + q) * o == 2 * p * o + q * o;
      assert 2 * o * p == 2 * p * o;
    }
    DivUnique((2 * o + 1) * p, o, 2 * p + q, r);
  }

  lemma AsciiIs(cols: nat, o: nat)
    requires 0 < o && 0 < cols
    ensures 12 + ((2 * o + 1) * cols - 1) / o == AsciiColumn(cols, o)
  {
    var q, r := (cols - 1) / o, (cols - 1) % o;
    assert cols - 1 == q * o + r;
    assert (2 * o + 1) * cols - 1 == (2 * cols + q) * o + r by {
      assert (2 * o + 1) * cols == 2 * o * cols + cols;
      assert (2 * cols + q) * o == 2 * cols * o + q * o;
      assert 2 * o * cols == 2 * cols * o;
    }
    DivUnique((2 * o + 1) * cols - 1, o, 2 * cols + q, r);
  }

  /** Every column of a row fits into the buffer. */
  lemma ColumnsFit(cols: nat, o: nat)
    requires 0 < o && 0 < cols <= COLS
    ensures AsciiColumn(cols, o) + cols + 1 <= LLEN
  {
    assert (cols - 1) / o <= cols - 1 by {
      var q := (cols - 1) / o;
      assert cols - 1 == q * o + (cols - 1) % o;
      if q > 0 { MulAtLeast(q, o); }
    }
  }

  lemma MulAtLeast(q: nat, o: nat)
    requires q > 0 && o > 0
    ensures q * o >= q
  {
  }

  /** `huntype` with TRY_SEEK on a seekable file, base offset 0. */
  method HuntType(text: string, cols: nat) returns (out: seq<byte>)
    ensures out == Reverted(text, cols)
  {
    hide Feed, PutAt;
    var n1: int, n2: int, n3: int, p: nat, ign, want: nat, have: nat := -1, 0, 0, cols, true, 0, 0;
    out := [];
    var i := 0;
    ghost var goal := Reverted(text, cols);
    assert text[0..] == text;
    while i < |text|
      invariant 0 <= i <= |text| && -1 <= n1 < 16 && -1 <= n2 < 16 && -1 <= n3 < 16
      invariant goal == Feed(Hunt(n1, n2, n3, p, ign, false, want, have, out), text[i..], cols).out
    {
      var c := text[i];
      ghost var was := Hunt(n1, n2, n3, p, ign, false, want, have, out);
      FeedNext(was, text, i, cols);
      i := i + 1;
      if c == '\r' { continue; }
      n3 := n2;
      n2 := n1;
      n1 := HexVal(c);
      if n1 < 0 && ign { continue; }
      ign := false;
      if p >= cols {
        if n1 < 0 {
          p := 0;
          continue;
        }
        want := 16 * want + n1;
        continue;
      }
      if want != have { have := want; }
      var garbage := false;
      if n2 >= 0 && n1 >= 0 {
        out := PutAt(out, have, 16 * n2 + n1);
        have := have + 1;
        want := want + 1;
        n1 := -1;
        p := p + 1;
        garbage := p >= cols;
      } else if n1 < 0 && n2 < 0 && n3 < 0 {
        garbage := true;
      }
      if garbage {
        want := 0;
        ghost var st := Hunt(n1, n2, n3, p, true, true, want, have, out);
        assert goal == Feed(st, text[i..], cols).out;
        i := SkipLine(text, i, st, cols);
        ign := true;
      }
    }
    assert text[i..] == [];
    FeedNothing(Hunt(n1, n2, n3, p, ign, false, want, have, out), cols);
  }

  lemma FeedNext(s: Hunt, text: string, i: nat, cols: nat)
    requires Sane(s) && i < |text|
    ensures Feed(s, text[i..], cols) == Feed(Step(s, text[i], cols), text[i + 1..], cols)
  {
    assert text[i..][1..] == text[i + 1..];
  }

  /** `while ((c = getc(fpi)) != '\n' && c != EOF)` */
  method SkipLine(text: string, start: nat, ghost st: Hunt, ghost cols: nat) returns (i: nat)
    requires start <= |text| && Sane(st) && st.skip
    ensures start <= i <= |text|
    ensures Feed(st, text[start..], cols).out == Feed(st.(skip := false), text[i..], cols).out
  {
    i := start;
    while i < |text|
      invariant start <= i <= |text| && Feed(st, text[start..], cols) == Feed(st, text[i..], cols)
    {
      FeedNext(st, text, i, cols);
      i := i + 1;
      if text[i - 1] == '\n' { return; }
    }
    assert text[i..] == [];
  }

  // ----- the dump loop -----

  /** `sprintf(l, "%08lx:", n)` and the blanks after it. */
  method StartLine(l: array<char>, n: nat, cols: nat, o: nat, upper: bool)
    requires l.Length == LLEN + 1 && 0 < o && 0 < cols <= COLS
    modifies l
    ensures Filled(l[..], n, [], cols, o, upper)
  {
    hide Filled, OffsetText;
    var digits := OffsetText(n, 8);
    var c := 0;
    while c < 8
      invariant 0 <= c <= 8 && l[..c] == digits[..c]
    {
      l[c] := digits[c];
      c := c + 1;
    }
    l[8] := ':';
    c := 9;
    while c < LLEN
      invariant 9 <= c <= LLEN && l[..8] == digits && l[8] == ':' && forall i :: 9 <= i < c ==> l[i] == ' '
    {
      l[c] := ' ';
      c := c + 1;
    }
    EmptyFilled(l[..], n, cols, o, upper);
  }

  lemma EmptyFilled(l: seq<char>, n: nat, cols: nat, o: nat, upper: bool)
    requires |l| == LLEN + 1 && 0 < o && 0 < cols <= COLS
    requires l[..8] == OffsetText(n, 8) && l[8] == ':' && forall i :: 9 <= i < LLEN ==> l[i] == ' '
    ensures Filled(l, n, [], cols, o, upper)
  {
    hide OffsetText;
    ColumnsFit(cols, o);
    var digits := OffsetText(n, 8);
    assert HexColumn(o, 0) == 10;
    assert l[..10] == digits + [':', ' '];
    assert digits + [':', ' '] + [] == digits + [':', ' '];
  }

  /** Writing two digits and a shown character into a line buffer. */
  function WithByte(l: seq<char>, h: nat, at: nat, e: byte, upper: bool): seq<char>
    requires h + 1 < at < |l|
  {
    l[h := HexDigit(e / 16, upper)][h + 1 := HexDigit(e % 16, upper)][at := Shown(e)]
  }

  lemma DigitsAdded(l: seq<char>, h: nat, a: nat, at: nat, e: byte, o: nat, p: nat, upper: bool)
    requires o > 0 && h + |ByteText(e, o, p, upper)| <= a <= at < |l| && forall i :: h <= i < a ==> l[i] == ' '
    ensures WithByte(l, h, at, e, upper)[..h + |ByteText(e, o, p, upper)|] == l[..h] + ByteText(e, o, p, upper)
  {
  }

  lemma ByteTextWidth(e: byte, o: nat, p: nat, upper: bool)
    requires o > 0
    ensures HexColumn(o, p) + |ByteText(e, o, p, upper)| == HexColumn(o, p + 1) && |ByteText(e, o, p, upper)| >= 2
  {
    NextColumn(o, p);
  }

  lemma ShownAdded(l: seq<char>, h: nat, a: nat, row: seq<byte>, e: byte, upper: bool)
    requires h + 1 < a && a + |row| < |l| && l[a..a + |row|] == ShownText(row)
    ensures WithByte(l, h, a + |row|, e, upper)[a..a + |row| + 1] == ShownText(row + [e])
  {
    var l' := WithByte(l, h, a + |row|, e, upper);
    assert l'[a..a + |row| + 1] == l[a..a + |row|] + [Shown(e)];
    assert ShownText(row + [e]) == ShownText(row) + [Shown(e)];
  }

  lemma TextAdded(n: nat, row: seq<byte>, e: byte, o: nat, upper: bool)
    requires o > 0
    ensures OffsetText(n, 8) + [':', ' '] + HexText(row + [e], o, 0, upper)
      == OffsetText(n, 8) + [':', ' '] + HexText(row, o, 0, upper) + ByteText(e, o, |row|, upper)
  {
    hide OffsetText, HexText, ByteText;
    HexTextAppend(row, e, o, 0, upper);
    var head, t, b := OffsetText(n, 8) + [':', ' '], HexText(row, o, 0, upper), ByteText(e, o, |row|, upper);
    assert head + t + b == head + (t + b);
  }

  lemma FilledNext(l: seq<char>, n: nat, row: seq<byte>, e: byte, cols: nat, o: nat, upper: bool)
    requires 0 < o && |row| < cols <= COLS && Filled(l, n, row, cols, o, upper)
    ensures var h, at := HexColumn(o, |row|), AsciiColumn(cols, o) + |row|;
      h + 1 < at < |l| && Filled(WithByte(l, h, at, e, upper), n, row + [e], cols, o, upper)
  {
    hide OffsetText, HexText, HexColumn, AsciiColumn, HexDigit, ByteText, ShownText, Shown;
    var p := |row|;
    ByteTextWidth(e, o, p, upper);
    ColumnsFree(cols, o, p + 1);
    var a, h := AsciiColumn(cols, o), HexColumn(o, p);
    DigitsAdded(l, h, a, a + p, e, o, p, upper);
    ShownAdded(l, h, a, row, e, upper);
    TextAdded(n, row, e, o, upper);
  }

  /** Two digits and the shown character of byte p. */
  method AddByte(l: array<char>, ghost n: nat, ghost row: seq<byte>, p: nat, e: byte, cols: nat, o: nat, upper: bool)
    requires l.Length == LLEN + 1 && 0 < o && p == |row| < cols <= COLS && Filled(l[..], n, row, cols, o, upper)
    modifies l
    ensures Filled(l[..], n, row + [e], cols, o, upper)
  {
    hide Filled, HexColumn, AsciiColumn;
    var grplen := o + o + 1;
    assert grplen == 2 * o + 1;
    ColumnIs(p, o);
    AsciiIs(cols, o);
    FilledNext(l[..], n, row, e, cols, o, upper);
    var c := 10 + (grplen * p) / o;
    ghost var before := l[..];
    l[c] := HexDigit(e / 16, upper);
    c := c + 1;
    l[c] := HexDigit(e % 16, upper);
    l[12 + (grplen * cols - 1) / o + p] := Shown(e);
    assert l[..] == WithByte(before, HexColumn(o, p), AsciiColumn(cols, o) + p, e, upper);
  }

  lemma FilledLine(l: seq<char>, n: nat, row: seq<byte>, cols: nat, o: nat, upper: bool)
    requires 0 < o && 0 < |row| <= cols <= COLS && Filled(l, n, row, cols, o, upper)
    ensures var c := AsciiColumn(cols, o) + |row|;
      c < LLEN && l[..c] + ['\n'] == RowText(n, row, cols, o, upper)
  {
    hide OffsetText, HexText, HexColumn, AsciiColumn;
    HexTextLength(row, o, 0, upper);
    ColumnsFree(cols, o, |row|);
    var a, h := AsciiColumn(cols, o), HexColumn(o, |row|);
    assert l[h..a] == Spaces(a - h);
    assert l[..a + |row|] == l[..h] + l[h..a] + l[a..a + |row|];
  }

  /** The newline, and the line as a string. */
  method EndLine(l: array<char>, ghost n: nat, ghost row: seq<byte>, p: nat, cols: nat, o: nat,
        upper: bool) returns (text: string)
    requires l.Length == LLEN + 1 && 0 < o && 0 < p == |row| <= cols <= COLS && Filled(l[..], n, row, cols, o, upper)
    modifies l
    ensures text == RowText(n, row, cols, o, upper)
  {
    hide Filled, HexColumn, AsciiColumn, RowText;
    AsciiIs(cols, o);
    FilledLine(l[..], n, row, cols, o, upper);
    var grplen := o + o + 1;
    assert grplen == 2 * o + 1;
    var c := 12 + (grplen * cols - 1) / o + p;
    ghost var before := l[..];
    l[c] := '\n';
    text := l[..c + 1];
    assert text == before[..c] + ['\n'];
  }

  lemma {:induction false} NonZerosAppend(s: seq<byte>, b: byte)
    ensures NonZeros(s + [b]) == NonZeros(s) + if b != 0 then 1 else 0
    decreases |s|
  {
    if s == [] {
      assert (s + [b])[1..] == [];
    } else {
      assert (s + [b])[1..] == s[1..] + [b];
      NonZerosAppend(s[1..], b);
    }
  }

  /** One more byte of a line. */
  method PutByte(s: seq<byte>, l: array<char>, n: nat, p: nat, nonzero: nat, cols: nat, o: nat,
        upper: bool) returns (nonzero': nat)
    requires p <= n < |s| && p < cols <= COLS && 0 < o && l.Length == LLEN + 1
    requires p > 0 ==> Filled(l[..], n - p, s[n - p..n], cols, o, upper)
    requires nonzero == NonZeros(s[n - p..n])
    modifies l
    ensures Filled(l[..], n - p, s[n - p..n + 1], cols, o, upper) && nonzero' == NonZeros(s[n - p..n + 1])
  {
    hide Filled;
    var e := s[n];
    ghost var row := s[n - p..n];
    assert row + [e] == s[n - p..n + 1];
    if p == 0 {
      StartLine(l, n, cols, o, upper);
      assert row == [];
    }
    AddByte(l, n - p, row, p, e, cols, o, upper);
    NonZerosAppend(row, e);
    nonzero' := nonzero;
    if e != 0 { nonzero' := nonzero' + 1; }
  }

  /** The main loop of a normal dump. */
  method DumpFile(s: seq<byte>, cols: nat, group: int, upper: bool, autoskip: bool) returns (out: string)
    requires 0 < cols <= COLS
    ensures out == Dump(s, cols, if group < 1 || group > cols then cols else group, upper, autoskip)
  {
    hide Filled, RowText, XxdLine, DumpFrom, NonZeros;
    var o: nat := if group < 1 || group > cols then cols else group;
    var l := new char[LLEN + 1](_ => ' ');
    var w := new LineWriter();
    var n: nat, p: nat, nonzero: nat, text: string := 0, 0, 0, [];
    ghost var goal := Dump(s, cols, o, upper, autoskip);
    assert w.out + goal == goal;
    while n < |s|
      invariant p <= n <= |s| && p < cols && fresh(w) && fresh(l)
      invariant p > 0 ==> Filled(l[..], n - p, s[n - p..n], cols, o, upper)
      invariant nonzero == NonZeros(s[n - p..n])
      invariant goal == w.out + DumpFrom(s, n - p, cols, o, upper, autoskip, w.zeroSeen, w.z, text)
    {
      nonzero := PutByte(s, l, n, p, nonzero, cols, o, upper);
      n := n + 1;
      p := p + 1;
      if p == cols {
        DumpStep(s, n - p, cols, o, upper, autoskip, w.zeroSeen, w.z, text, w.out);
        text := EndLine(l, n - p, s[n - p..n], p, cols, o, upper);
        w.Line(text, if autoskip then nonzero else 1);
        nonzero := 0;
        p := 0;
        assert s[n..n] == [];
      }
    }
    DumpLast(s, n - p, cols, o, upper, autoskip, w.zeroSeen, w.z, text);
    if p > 0 {
      text := EndLine(l, n - p, s[n - p..n], p, cols, o, upper);
      assert s[n - p..n] == s[n - p..];
      w.Line(text, 1);
    } else if autoskip {
      w.Line(text, -1);
    }
    out := w.out;
  }

  lemma DumpStep(s: seq<byte>, n: nat, cols: nat, o: nat, upper: bool, autoskip: bool, zeros: int, saved: string,
        line: string, before: string)
    requires o > 0 && cols > 0 && n + cols <= |s|
    ensures var row := s[n..n + cols]; var text := RowText(n, row, cols, o, upper);
      var x := XxdLine(zeros, saved, text, if autoskip then NonZeros(row) else 1);
      before + DumpFrom(s, n, cols, o, upper, autoskip, zeros, saved, line)
      == before + x.2 + DumpFrom(s, n + cols, cols, o, upper, autoskip, x.0, x.1, text)
  {
    hide RowText, XxdLine, NonZeros;
  }
}
