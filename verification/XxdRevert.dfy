/** The reverter as a machine that reads one character at a time, and that it undoes every dump. */
module XxdRevert {
  import opened Bytes
  import opened XxdText

  function HexVal(c: char): (v: int)
    ensures -1 <= v < 16
  {
    if '0' <= c <= '9' then c as int - '0' as int
    else if 'a' <= c <= 'f' then c as int - 'a' as int + 10
    else if 'A' <= c <= 'F' then c as int - 'A' as int + 10
    else -1
  }

  /** The variables of `huntype`; `skip` while it discards the rest of a line. */
  datatype Hunt = Hunt(n1: int, n2: int, n3: int, p: nat, ign: bool, skip: bool, want: nat, have: nat, out: seq<byte>)

  /** Writing one byte at a position of a seekable file; a gap reads as zeros. */
  function PutAt(out: seq<byte>, pos: nat, b: byte): seq<byte> {
    if pos < |out| then out[pos := b] else out + seq(pos - |out|, _ => 0) + [b]
  }

  /** A character in the data part of a line, n1 to n3 already shifted. */
  function Data(s: Hunt, cols: nat): Hunt
    requires -1 <= s.n1 < 16 && -1 <= s.n2 < 16
  {
    var h := s.(have := s.want);
    if s.n2 >= 0 && s.n1 >= 0 then
      var out := PutAt(h.out, h.have, 16 * s.n2 + s.n1);
      var w := h.(out := out, have := h.have + 1, want := h.want + 1, n1 := -1, p := s.p + 1);
      if w.p >= cols then w.(want := 0, skip := true, ign := true) else w
    else if s.n1 < 0 && s.n2 < 0 && s.n3 < 0 then h.(want := 0, skip := true, ign := true)
    else h
  }

  predicate Sane(s: Hunt) { -1 <= s.n1 < 16 && -1 <= s.n2 < 16 && -1 <= s.n3 < 16 }

  /** One character of the dump. */
  function Step(s: Hunt, c: char, cols: nat): (r: Hunt)
    requires Sane(s)
    ensures Sane(r)
  {
    if s.skip then s.(skip := c != '\n')
    else if c == '\r' then s
    else
      var t := s.(n3 := s.n2, n2 := s.n1, n1 := HexVal(c));
      if t.n1 < 0 && s.ign then t
      else
        var u := t.(ign := false);
        if u.p >= cols then
          if u.n1 < 0 then u.(p := 0) else u.(want := 16 * u.want + u.n1)
        else Data(u, cols)
  }

  function Feed(s: Hunt, text: string, cols: nat): (r: Hunt)
    requires Sane(s)
    ensures Sane(r)
    decreases |text|
  {
    if text == [] then s else Feed(Step(s, text[0], cols), text[1..], cols)
  }

  function Begin(cols: nat): Hunt { Hunt(-1, 0, 0, cols, true, false, 0, 0, []) }

  /** What reverting a text into an empty file gives. */
  function Reverted(text: string, cols: nat): seq<byte> {
    Feed(Begin(cols), text, cols).out
  }

  lemma {:induction false} FeedConcat(s: Hunt, a: string, b: string, cols: nat)
    requires Sane(s)
    ensures Feed(s, a + b, cols) == Feed(Feed(s, a, cols), b, cols)
    decreases |a|
  {
    if a == [] {
      assert a + b == b;
    } else {
      assert (a + b)[1..] == a[1..] + b;
      FeedConcat(Step(s, a[0], cols), a[1..], b, cols);
    }
  }

  lemma FeedOne(s: Hunt, c: char, cols: nat)
    requires Sane(s)
    ensures Feed(s, [c], cols) == Step(s, c, cols)
  {
    assert [c][1..] == [];
  }

  lemma HexDigitVal(d: nibble, upper: bool)
    ensures HexVal(HexDigit(d, upper)) == d && HexDigit(d, upper) != '\n' && HexDigit(d, upper) != '\r'
  {
  }

  // ----- one line -----

  /** Ready for a line's offset. */
  ghost predicate AtLine(s: Hunt, cols: nat) {
    Sane(s) && !s.skip && s.ign && s.p >= cols && s.want == 0
  }

  function Pow16(k: nat): nat { if k == 0 then 1 else 16 * Pow16(k - 1) }

  lemma {:induction false} FeedOffset(s: Hunt, off: nat, k: nat, cols: nat)
    requires AtLine(s, cols) && off < Pow16(k)
    ensures var r := Feed(s, OffsetText(off, k), cols);
      !r.skip && r.p == s.p && r.want == off && r.have == s.have && r.out == s.out && (k > 0 ==> !r.ign && r.n1 >= 0)
    decreases k
  {
    if k > 0 {
      FeedOffset(s, off / 16, k - 1, cols);
      var a, c := OffsetText(off / 16, k - 1), HexDigit(off % 16, false);
      FeedConcat(s, a, [c], cols);
      FeedOne(Feed(s, a, cols), c, cols);
      HexDigitVal(off % 16, false);
    }
  }

  /**
   Between two bytes of a line, the next one being number j of the row at `off`; fewer than two garbage characters
   seen.
   */
  ghost predicate Between(s: Hunt, cols: nat, off: nat, j: nat) {
    Sane(s) && !s.skip && !s.ign && s.p == j < cols && s.want == off + j && s.have == off + j && s.n1 == -1
      && (s.n2 >= 0 || s.n3 >= 0)
  }

  lemma FeedHead(s: Hunt, off: nat, cols: nat)
    requires AtLine(s, cols) && cols > 0 && off < Pow16(8)
    ensures var r := Feed(s, OffsetText(off, 8) + [':', ' '], cols); Between(r, cols, off, 0) && r.out == s.out
  {
    hide Feed;
    FeedOffset(s, off, 8, cols);
    var a := OffsetText(off, 8);
    FeedConcat(s, a, [':', ' '], cols);
    assert [':', ' '] == [':'] + [' '];
    FeedConcat(Feed(s, a, cols), [':'], [' '], cols);
    FeedOne(Feed(s, a, cols), ':', cols);
    FeedOne(Feed(Feed(s, a, cols), [':'], cols), ' ', cols);
  }

  /** After the row's first `e` bytes of `all` have been written, counting gaps as zeros. */
  ghost predicate Holds(out: seq<byte>, all: seq<byte>, pos: nat) {
    |out| <= pos <= |all| && out == all[..|out|] && AllZero(all[|out|..pos])
  }

  lemma PutHolds(out: seq<byte>, all: seq<byte>, pos: nat)
    requires Holds(out, all, pos) && pos < |all|
    ensures PutAt(out, pos, all[pos]) == all[..pos + 1]
    ensures Holds(all[..pos + 1], all, pos + 1)
  {
    var r := PutAt(out, pos, all[pos]);
    forall i | 0 <= i <= pos ensures r[i] == all[i] {
      if |out| <= i < pos { assert all[|out|..pos][i - |out|] == 0; }
    }
  }

  lemma FeedByte(s: Hunt, cols: nat, off: nat, j: nat, b: byte, upper: bool)
    requires Between(s, cols, off, j)
    ensures var r := Feed(s, [HexDigit(b / 16, upper), HexDigit(b % 16, upper)], cols);
      && r.out == PutAt(s.out, off + j, b)
      && if j + 1 < cols then Between(r, cols, off, j + 1) && r.n2 >= 0
         else r.skip && r.ign && r.p >= cols && r.want == 0 && r.have == off + j + 1
  {
    hide Feed;
    var x, y := HexDigit(b / 16, upper), HexDigit(b % 16, upper);
    HexDigitVal(b / 16, upper);
    HexDigitVal(b % 16, upper);
    assert [x, y] == [x] + [y];
    FeedConcat(s, [x], [y], cols);
    FeedOne(s, x, cols);
    FeedOne(Step(s, x, cols), y, cols);
  }

  lemma FeedGroupSpace(s: Hunt, cols: nat, off: nat, j: nat)
    requires Between(s, cols, off, j) && s.n2 >= 0
    ensures Between(Feed(s, [' '], cols), cols, off, j) && Feed(s, [' '], cols).out == s.out
  {
    FeedOne(s, ' ', cols);
  }

  /** Text without a newline is passed over while skipping. */
  lemma {:induction false} FeedSkip(s: Hunt, text: string, cols: nat)
    requires Sane(s) && s.skip && '\n' !in text
    ensures Feed(s, text, cols) == s
    decreases |text|
  {
    if text != [] { FeedSkip(s, text[1..], cols); }
  }

  /** A row that is complete ends in skipping; a shorter one between bytes. */
  ghost predicate AfterDigits(r: Hunt, cols: nat, off: nat, k: nat) {
    && Sane(r)
    && if k < cols then Between(r, cols, off, k) else r.skip && r.ign && r.p >= cols && r.want == 0 && r.have == off + k
  }

  lemma {:induction false} FeedDigits(s: Hunt, cols: nat, o: nat, off: nat, all: seq<byte>, row: seq<byte>, j: nat,
        upper: bool)
    requires o > 0 && j <= |row| <= cols && off + |row| <= |all| && row == all[off..off + |row|]
    requires if j < cols then Between(s, cols, off, j) else AfterDigits(s, cols, off, j)
    requires Holds(s.out, all, off + j) && (j > 0 ==> s.out == all[..off + j])
    ensures var r := Feed(s, HexText(row, o, j, upper), cols);
      AfterDigits(r, cols, off, |row|) && (|row| > 0 ==> r.out == all[..off + |row|])
    decreases |row| - j
  {
    hide Feed, ByteText;
    FeedNothing(s, cols);
    if j < |row| {
      var b := row[j];
      assert b == all[off + j];
      FeedByteAndSpace(s, cols, o, off, j, b, upper);
      PutHolds(s.out, all, off + j);
      var t := ByteText(b, o, j, upper);
      FeedConcat(s, t, HexText(row, o, j + 1, upper), cols);
      FeedDigits(Feed(s, t, cols), cols, o, off, all, row, j + 1, upper);
    }
  }

  lemma FeedByteAndSpace(s: Hunt, cols: nat, o: nat, off: nat, j: nat, b: byte, upper: bool)
    requires o > 0 && Between(s, cols, off, j)
    ensures var r := Feed(s, ByteText(b, o, j, upper), cols);
      AfterDigits(r, cols, off, j + 1) && r.out == PutAt(s.out, off + j, b)
  {
    hide Feed;
    var t := [HexDigit(b / 16, upper), HexDigit(b % 16, upper)];
    FeedByte(s, cols, off, j, b, upper);
    if (j + 1) % o == 0 {
      FeedConcat(s, t, [' '], cols);
      if j + 1 < cols { FeedGroupSpace(Feed(s, t, cols), cols, off, j + 1); }
      else { FeedSkip(Feed(s, t, cols), [' '], cols); }
    } else {
      assert t + [] == t;
    }
  }

  /**
   What is left of a line after its digits: at least two spaces if the row was short, then anything without a newline.
   */
  lemma FeedTail(s: Hunt, cols: nat, off: nat, k: nat, n: nat, shown: string)
    requires AfterDigits(s, cols, off, k) && (k < cols ==> n >= 2) && '\n' !in shown
    ensures var r := Feed(s, Spaces(n) + shown + ['\n'], cols);
      && r.out == s.out && Sane(r) && (k == cols ==> AtLine(r, cols))
  {
    var rest := Spaces(n) + shown;
    FeedConcat(s, rest, ['\n'], cols);
    if k >= cols {
      FeedSkip(s, rest, cols);
      FeedOne(s, '\n', cols);
    } else {
      var after := Spaces(n - 2) + shown;
      assert rest == [' ', ' '] + after;
      FeedConcat(s, [' ', ' '], after, cols);
      assert [' ', ' '] == [' '] + [' '];
      FeedConcat(s, [' '], [' '], cols);
      FeedOne(s, ' ', cols);
      FeedOne(Step(s, ' ', cols), ' ', cols);
      var t := Feed(s, [' ', ' '], cols);
      FeedSkip(t, after, cols);
      FeedOne(t, '\n', cols);
    }
  }

  lemma {:induction false} ShownHasNoNewline(row: seq<byte>)
    ensures '\n' !in ShownText(row)
  {
  }

  /** Feeding one line of the dump writes that row, filling a gap before it with zeros. */
  lemma FeedRow(s: Hunt, cols: nat, o: nat, off: nat, all: seq<byte>, k: nat, upper: bool)
    requires o > 0 && 0 < k <= cols && off + k <= |all| && off < Pow16(8)
    requires AtLine(s, cols) && Holds(s.out, all, off)
    ensures var r := Feed(s, RowText(off, all[off..off + k], cols, o, upper), cols);
      r.out == all[..off + k] && (k == cols ==> AtLine(r, cols))
  {
    hide Feed, OffsetText, HexText, AsciiColumn, HexColumn, Holds, Pow16, Spaces, ShownText;
    var row := all[off..off + k];
    var head, digits := OffsetText(off, 8) + [':', ' '], HexText(row, o, 0, upper);
    HexTextLength(row, o, 0, upper);
    ColumnsFree(cols, o, k);
    var n := AsciiColumn(cols, o) - HexColumn(o, k);
    var tail := Spaces(n) + ShownText(row) + ['\n'];
    assert RowText(off, row, cols, o, upper) == head + digits + tail;
    FeedHead(s, off, cols);
    var s1 := Feed(s, head, cols);
    FeedDigits(s1, cols, o, off, all, row, 0, upper);
    var s2 := Feed(s1, digits, cols);
    ShownHasNoNewline(row);
    FeedTail(s2, cols, off, k, n, ShownText(row));
    FeedConcat(s, head + digits, tail, cols);
    FeedConcat(s, head, digits, cols);
  }

  lemma FeedStar(s: Hunt, cols: nat)
    requires AtLine(s, cols)
    ensures var r := Feed(s, "*\n", cols); AtLine(r, cols) && r.out == s.out
  {
    assert "*\n" == ['*'] + ['\n'];
    FeedConcat(s, ['*'], ['\n'], cols);
    FeedOne(s, '*', cols);
    FeedOne(Step(s, '*', cols), '\n', cols);
  }

  // ----- the whole dump -----

  /**
   How far the output is behind after `zeros` zero lines in a row: all bytes from e to n are zero, and `saved` is the
   second of those lines.
   */
  ghost predicate Behind(s: seq<byte>, n: nat, e: nat, cols: nat, o: nat, upper: bool, zeros: int, saved: string,
        line: string)
    requires o > 0 && cols > 0
  {
    && zeros >= 0 && e <= n <= |s| && AllZero(s[e..n])
    && (zeros <= 1 ==> e == n) && (zeros == 2 ==> n == e + cols) && (zeros > 2 ==> e + 2 * cols <= n)
    && (zeros >= 2 ==> saved == RowText(e, s[e..e + cols], cols, o, upper))
    && (zeros >= 1 ==> cols <= n && line == RowText(n - cols, s[n - cols..n], cols, o, upper))
  }

  function Catch(z: int, saved: string): string {
    (if z == 2 then saved else []) + (if z > 2 then "*\n" else [])
  }

  lemma HoldsLater(out: seq<byte>, s: seq<byte>, e: nat, m: nat, n: nat)
    requires e <= m <= n <= |s| && out == s[..m] && AllZero(s[e..n])
    ensures Holds(out, s, n)
  {
    forall i | 0 <= i < n - m ensures s[m..n][i] == 0 { assert s[e..n][i + (m - e)] == 0; }
  }

  /** What xxdline writes before the next line it shows. */
  lemma FeedCatch(st: Hunt, s: seq<byte>, n: nat, e: nat, cols: nat, o: nat, upper: bool, z: int, saved: string)
    requires o > 0 && cols > 0 && |s| < Pow16(8) && AtLine(st, cols) && e <= n <= |s| && st.out == s[..e]
    requires AllZero(s[e..n])
    requires z == 2 ==> e + cols <= n && saved == RowText(e, s[e..e + cols], cols, o, upper)
    ensures var r := Feed(st, Catch(z, saved), cols); AtLine(r, cols) && Holds(r.out, s, n)
  {
    hide Feed, RowText;
    HoldsLater(st.out, s, e, e, n);
    if z == 2 {
      assert Catch(z, saved) == saved;
      assert Holds(st.out, s, e);
      FeedRow(st, cols, o, e, s, cols, upper);
      HoldsLater(s[..e + cols], s, e, e + cols, n);
    } else if z > 2 {
      assert Catch(z, saved) == "*\n";
      FeedStar(st, cols);
    } else {
      assert Catch(z, saved) == [];
      FeedNothing(st, cols);
    }
  }

  lemma FeedNothing(st: Hunt, cols: nat)
    requires Sane(st)
    ensures Feed(st, [], cols) == st
  {
  }

  /** A line that xxdline shows, with what it writes before it. */
  lemma FeedShown(st: Hunt, s: seq<byte>, n: nat, e: nat, m: nat, k: nat, cols: nat, o: nat, upper: bool, z: int,
        saved: string)
    requires o > 0 && 0 < k <= cols && |s| < Pow16(8) && AtLine(st, cols) && e <= m <= n <= |s| && m + k <= |s|
    requires st.out == s[..e] && AllZero(s[e..n])
    requires z == 2 ==> e + cols <= m && saved == RowText(e, s[e..e + cols], cols, o, upper)
    ensures var r := Feed(st, Catch(z, saved) + RowText(m, s[m..m + k], cols, o, upper), cols);
      r.out == s[..m + k] && (k == cols ==> AtLine(r, cols))
  {
    hide Feed, RowText;
    forall i | 0 <= i < m - e ensures s[e..m][i] == 0 { assert s[e..n][i] == 0; }
    FeedCatch(st, s, m, e, cols, o, upper, z, saved);
    FeedRow(Feed(st, Catch(z, saved), cols), cols, o, m, s, k, upper);
    FeedConcat(st, Catch(z, saved), RowText(m, s[m..m + k], cols, o, upper), cols);
  }

  lemma {:induction false} RevertFrom(st: Hunt, s: seq<byte>, n: nat, e: nat, cols: nat, o: nat, upper: bool,
        autoskip: bool,
                                      zeros: int, saved: string, line: string)
    requires o > 0 && cols > 0 && |s| < Pow16(8) && AtLine(st, cols) && e <= n <= |s| && st.out == s[..e]
    requires Behind(s, n, e, cols, o, upper, zeros, saved, line) && (!autoskip ==> zeros == 0)
    ensures Feed(st, DumpFrom(s, n, cols, o, upper, autoskip, zeros, saved, line), cols).out == s
    decreases |s| - n
  {
    hide Feed, RowText, Pow16;
    if n == |s| {
      RevertEnd(st, s, e, cols, o, upper, autoskip, zeros, saved, line);
    } else if n + cols > |s| {
      var text := RowText(n, s[n..], cols, o, upper);
      assert s[n..] == s[n..n + (|s| - n)];
      FeedShown(st, s, n, e, n, |s| - n, cols, o, upper, zeros, saved);
      assert XxdLine(zeros, saved, text, 1).2 == Catch(zeros, saved) + text;
    } else {
      RevertRow(st, s, n, e, cols, o, upper, autoskip, zeros, saved, line);
    }
  }

  lemma RevertEnd(st: Hunt, s: seq<byte>, e: nat, cols: nat, o: nat, upper: bool, autoskip: bool, zeros: int,
        saved: string, line: string)
    requires o > 0 && cols > 0 && |s| < Pow16(8) && AtLine(st, cols) && e <= |s| && st.out == s[..e]
    requires Behind(s, |s|, e, cols, o, upper, zeros, saved, line) && (!autoskip ==> zeros == 0)
    ensures Feed(st, DumpFrom(s, |s|, cols, o, upper, autoskip, zeros, saved, line), cols).out == s
  {
    hide Feed, RowText, Pow16;
    var x := XxdLine(zeros, saved, line, -1).2;
    if autoskip && zeros >= 2 {
      var m := |s| - cols;
      assert x == Catch(zeros - 1, saved) + line;
      assert s[m..m + cols] == s[m..];
      FeedShown(st, s, |s|, e, m, cols, cols, o, upper, zeros - 1, saved);
    } else {
      assert autoskip ==> x == [];
      FeedNothing(st, cols);
    }
  }

  lemma SliceGrows(s: seq<byte>, e: nat, n: nat, n': nat)
    requires e <= n <= n' <= |s|
    ensures s[e..n'] == s[e..n] + s[n..n']
  {
  }

  /** What `FeedShown` needs of being behind. */
  lemma BehindIs(s: seq<byte>, n: nat, e: nat, cols: nat, o: nat, upper: bool, zeros: int, saved: string, line: string)
    requires o > 0 && cols > 0 && Behind(s, n, e, cols, o, upper, zeros, saved, line)
    ensures zeros >= 0 && e <= n <= |s| && AllZero(s[e..n])
    ensures zeros == 2 ==> e + cols <= n && saved == RowText(e, s[e..e + cols], cols, o, upper)
  {
  }

  lemma BehindShown(s: seq<byte>, n: nat, cols: nat, o: nat, upper: bool, zeros: int, saved: string, line: string)
    requires o > 0 && 0 < cols <= n <= |s| && 0 <= zeros <= 1
    requires line == RowText(n - cols, s[n - cols..n], cols, o, upper)
    ensures Behind(s, n, n, cols, o, upper, zeros, saved, line)
  {
    hide RowText;
  }

  /** One more row of zeros that is held back. */
  lemma BehindMore(s: seq<byte>, n: nat, e: nat, cols: nat, o: nat, upper: bool, zeros: int, saved: string,
        line: string)
    requires o > 0 && cols > 0 && zeros > 0 && n + cols <= |s| && Behind(s, n, e, cols, o, upper, zeros, saved, line)
    requires AllZero(s[n..n + cols])
    ensures var text := RowText(n, s[n..n + cols], cols, o, upper);
      Behind(s, n + cols, e, cols, o, upper, zeros + 1, if zeros == 1 then text else saved, text)
  {
    hide RowText;
    SliceGrows(s, e, n, n + cols);
  }

  /** One full row, shown or held back, leaves the reverter explaining the input so far. */
  lemma FeedFullRow(st: Hunt, s: seq<byte>, n: nat, e: nat, cols: nat, o: nat, upper: bool, autoskip: bool,
                    zeros: int, saved: string, line: string) returns (e': nat)
    requires o > 0 && cols > 0 && |s| < Pow16(8) && AtLine(st, cols) && e <= n && n + cols <= |s| && st.out == s[..e]
    requires Behind(s, n, e, cols, o, upper, zeros, saved, line) && (!autoskip ==> zeros == 0)
    ensures var row := s[n..n + cols]; var text := RowText(n, row, cols, o, upper);
      var x := XxdLine(zeros, saved, text, if autoskip then NonZeros(row) else 1); var st' := Feed(st, x.2, cols);
      && AtLine(st', cols) && e' <= n + cols && st'.out == s[..e']
      && Behind(s, n + cols, e', cols, o, upper, x.0, x.1, text) && (!autoskip ==> x.0 == 0)
  {
    hide Feed, RowText, Pow16, DumpFrom, Behind, NonZeros;
    BehindIs(s, n, e, cols, o, upper, zeros, saved, line);
    var row := s[n..n + cols];
    var text := RowText(n, row, cols, o, upper);
    var nz := if autoskip then NonZeros(row) else 1;
    var x := XxdLine(zeros, saved, text, nz);
    if nz > 0 {
      assert x.2 == Catch(zeros, saved) + text;
      FeedShown(st, s, n, e, n, cols, cols, o, upper, zeros, saved);
      e' := n + cols;
      BehindShown(s, e', cols, o, upper, 0, x.1, text);
    } else if zeros == 0 {
      assert x.2 == Catch(0, saved) + text;
      FeedShown(st, s, n, e, n, cols, cols, o, upper, 0, saved);
      e' := n + cols;
      BehindShown(s, e', cols, o, upper, 1, x.1, text);
    } else {
      FeedNothing(st, cols);
      e' := e;
      BehindMore(s, n, e, cols, o, upper, zeros, saved, line);
    }
  }

  lemma {:induction false} RevertRow(st: Hunt, s: seq<byte>, n: nat, e: nat, cols: nat, o: nat, upper: bool,
                                     autoskip: bool, zeros: int, saved: string, line: string)
    requires o > 0 && cols > 0 && |s| < Pow16(8) && AtLine(st, cols) && e <= n && n + cols <= |s| && st.out == s[..e]
    requires Behind(s, n, e, cols, o, upper, zeros, saved, line) && (!autoskip ==> zeros == 0)
    ensures Feed(st, DumpFrom(s, n, cols, o, upper, autoskip, zeros, saved, line), cols).out == s
    decreases |s| - n, 0
  {
    hide Feed, RowText, Pow16, XxdLine, Behind, NonZeros;
    var row := s[n..n + cols];
    var text := RowText(n, row, cols, o, upper);
    var x := XxdLine(zeros, saved, text, if autoskip then NonZeros(row) else 1);
    var rest := DumpFrom(s, n + cols, cols, o, upper, autoskip, x.0, x.1, text);
    FeedConcat(st, x.2, rest, cols);
    var e' := FeedFullRow(st, s, n, e, cols, o, upper, autoskip, zeros, saved, line);
    RevertFrom(Feed(st, x.2, cols), s, n + cols, e', cols, o, upper, autoskip, x.0, x.1, text);
  }

  /**
   Reverting a dump into an empty file gives back the input, for every column count, group size, digit case and
   autoskip setting.
   */
  lemma DumpRoundTrip(s: seq<byte>, cols: nat, o: nat, upper: bool, autoskip: bool)
    requires 0 < o <= cols && |s| < Pow16(8)
    ensures Reverted(Dump(s, cols, o, upper, autoskip), cols) == s
  {
    RevertFrom(Begin(cols), s, 0, 0, cols, o, upper, autoskip, 0, [], []);
  }
}
