/** The text of a normal xxd dump. */
module XxdText {
  import opened Bytes

  const COLS := 256
  const LLEN := 12 + (9 * COLS - 1) + COLS + 2

  type nibble = x: int | 0 <= x < 16

  function HexDigit(d: nibble, upper: bool): char {
    if d < 10 then '0' + d as char else if upper then 'A' + (d - 10) as char else 'a' + (d - 10) as char
  }

  /** The last k hexadecimal digits of a number, as %08lx prints them. */
  function OffsetText(off: nat, k: nat): (t: string)
    ensures |t| == k
    decreases k
  {
    if k == 0 then [] else OffsetText(off / 16, k - 1) + [HexDigit(off % 16, false)]
  }

  function Shown(b: byte): char { if 31 < b < 127 then b as char else '.' }

  /** The column of byte p's first digit, and the column of the character part. */
  function HexColumn(o: nat, p: nat): nat requires o > 0 { 10 + 2 * p + p / o }
  function AsciiColumn(cols: nat, o: nat): nat requires o > 0 && cols > 0 { 12 + 2 * cols + (cols - 1) / o }

  /** The digits of bytes p, p+1, ... of a row, with a space after every group of o. */
  function HexText(row: seq<byte>, o: nat, p: nat, upper: bool): (t: string)
    requires o > 0 && p <= |row|
    decreases |row| - p
  {
    if p == |row| then []
    else ByteText(row[p], o, p, upper) + HexText(row, o, p + 1, upper)
  }

  function ByteText(b: byte, o: nat, p: nat, upper: bool): (t: string)
    requires o > 0
  {
    [HexDigit(b / 16, upper), HexDigit(b % 16, upper)] + if (p + 1) % o == 0 then [' '] else []
  }

  function Spaces(n: nat): (t: string)
    ensures |t| == n
  {
    seq(n, _ => ' ')
  }

  function ShownText(row: seq<byte>): (t: string)
    ensures |t| == |row|
  {
    seq(|row|, i requires 0 <= i < |row| => Shown(row[i]))
  }

  lemma {:induction false} HexTextLength(row: seq<byte>, o: nat, p: nat, upper: bool)
    requires o > 0 && p <= |row|
    ensures HexColumn(o, p) + |HexText(row, o, p, upper)| == HexColumn(o, |row|)
    decreases |row| - p
  {
    if p < |row| {
      HexTextLength(row, o, p + 1, upper);
      NextColumn(o, p);
    }
  }

  lemma NextColumn(o: nat, p: nat)
    requires o > 0
    ensures HexColumn(o, p + 1) == HexColumn(o, p) + 2 + if (p + 1) % o == 0 then 1 else 0
  {
    var q, r := p / o, p % o;
    assert p == q * o + r;
    if r + 1 == o {
      assert p + 1 == (q + 1) * o;
      DivUnique(p + 1, o, q + 1, 0);
    } else {
      DivUnique(p + 1, o, q, r + 1);
    }
  }

  lemma {:induction false} MulGrows(q: nat, q': nat, b: nat)
    requires q < q'
    ensures q * b + b <= q' * b
    decreases q'
  {
    if q + 1 < q' {
      MulGrows(q, q' - 1, b);
      assert q' * b == (q' - 1) * b + b;
    } else {
      assert q' * b == q * b + b;
    }
  }

  lemma DivUnique(a: nat, b: nat, q: nat, r: nat)
    requires b > 0 && a == q * b + r && r < b
    ensures a / b == q && a % b == r
  {
    var q', r' := a / b, a % b;
    assert a == q' * b + r';
    if q' < q { MulGrows(q', q, b); }
    if q < q' { MulGrows(q, q', b); }
  }

  lemma DivMonotone(a: nat, b: nat, o: nat)
    requires o > 0 && a <= b
    ensures a / o <= b / o
  {
    var q, q' := a / o, b / o;
    assert a == q * o + a % o && b == q' * o + b % o;
    if q' < q { MulGrows(q', q, o); }
  }

  /** The digits leave at least two columns free before the character part of a row that is not full. */
  lemma ColumnsFree(cols: nat, o: nat, k: nat)
    requires o > 0 && 0 < k <= cols
    ensures HexColumn(o, k) + 1 <= AsciiColumn(cols, o)
    ensures k < cols ==> HexColumn(o, k) + 2 <= AsciiColumn(cols, o)
  {
    DivMonotone(k - 1, cols - 1, o);
    NextColumn(o, k - 1);
    if k < cols { DivMonotone(k, cols - 1, o); }
  }

  /** One line: offset, digits, the character part, newline. */
  function RowText(off: nat, row: seq<byte>, cols: nat, o: nat, upper: bool): string
    requires o > 0 && 0 < |row| <= cols
  {
    HexTextLength(row, o, 0, upper); ColumnsFree(cols, o, |row|);
    OffsetText(off, 8) + [':', ' '] + HexText(row, o, 0, upper)
    + Spaces(AsciiColumn(cols, o) - HexColumn(o, |row|)) + ShownText(row) + ['\n']
  }

  // ----- autoskip -----

  /**
   `xxdline`: the new count of zero lines, the new saved line, and what is written. nz is 0 for a line of zeros,
   positive for any other, negative for the call at the end that shows a last suppressed line.
   */
  function XxdLine(zeros: int, saved: string, line: string, nz: int): (int, string, string) {
    if nz == 0 then
      (zeros + 1, if zeros == 1 then line else saved, if zeros == 0 then line else [])
    else
      var z := if nz < 0 then zeros - 1 else zeros;
      (0, saved,
       (if z == 2 then saved else []) + (if z > 2 then "*\n" else []) + (if nz > 0 || z > 0 then line else []))
  }

  ghost predicate AllZero(s: seq<byte>) {
    forall i :: 0 <= i < |s| ==> s[i] == 0
  }

  function NonZeros(s: seq<byte>): (n: nat)
    ensures n == 0 <==> AllZero(s)
    decreases |s|
  {
    if s == [] then 0
    else
      assert s == [s[0]] + s[1..];
      (if s[0] != 0 then 1 else 0) + NonZeros(s[1..])
  }

  /** The dump from byte n on; `line` is the last line built. */
  function DumpFrom(s: seq<byte>, n: nat, cols: nat, o: nat, upper: bool, autoskip: bool, zeros: int, saved: string,
        line: string): string
    requires o > 0 && cols > 0 && n <= |s|
    decreases |s| - n
  {
    if n == |s| then
      if autoskip then XxdLine(zeros, saved, line, -1).2 else []
    else if n + cols > |s| then
      XxdLine(zeros, saved, RowText(n, s[n..], cols, o, upper), 1).2
    else
      var row := s[n..n + cols];
      var text := RowText(n, row, cols, o, upper);
      var x := XxdLine(zeros, saved, text, if autoskip then NonZeros(row) else 1);
      x.2 + DumpFrom(s, n + cols, cols, o, upper, autoskip, x.0, x.1, text)
  }

  /** The end of a dump: the part of a row that is left, or what shows the zero rows held back. */
  lemma DumpLast(s: seq<byte>, n: nat, cols: nat, o: nat, upper: bool, autoskip: bool, zeros: int, saved: string,
        line: string)
    requires o > 0 && cols > 0 && n <= |s| < n + cols
    ensures DumpFrom(s, n, cols, o, upper, autoskip, zeros, saved, line) ==
      if n < |s| then XxdLine(zeros, saved, RowText(n, s[n..], cols, o, upper), 1).2
      else if autoskip then XxdLine(zeros, saved, line, -1).2 else []
  {
  }

  function Dump(s: seq<byte>, cols: nat, o: nat, upper: bool, autoskip: bool): string
    requires o > 0 && cols > 0
  {
    DumpFrom(s, 0, cols, o, upper, autoskip, 0, [], [])
  }
}
