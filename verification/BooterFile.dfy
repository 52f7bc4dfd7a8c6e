/** Segment files, and what loading one does to a flat 64K memory. */
module BooterFile {
  import opened Bytes

  const BLOCK := 512
  const PAGE := 0x2000
  const MEMORY := 0x10000
  const HEADER := 5

  type word = x: int | 0 <= x < 0x10000

  /** Bytes stored one by one from an address on, wrapping at 64K. */
  function Store(mem: seq<byte>, a: word, data: seq<byte>): (r: seq<byte>)
    requires |mem| == MEMORY
    ensures |r| == MEMORY
    decreases |data|
  {
    if data == [] then mem else Store(mem[a := data[0]], (a + 1) % MEMORY, data[1..])
  }

  lemma {:induction false} StoreConcat(mem: seq<byte>, a: word, d: seq<byte>, d': seq<byte>)
    requires |mem| == MEMORY
    ensures Store(mem, a, d + d') == Store(Store(mem, a, d), (a + |d|) % MEMORY, d')
    decreases |d|
  {
    if d == [] {
      assert d + d' == d';
    } else {
      assert (d + d')[1..] == d[1..] + d';
      StoreConcat(mem[a := d[0]], (a + 1) % MEMORY, d[1..], d');
      WrapAdd(a, |d|);
    }
  }

  lemma WrapAdd(a: word, n: nat)
    requires n > 0
    ensures ((a + 1) % MEMORY + (n - 1)) % MEMORY == (a + n) % MEMORY
  {
  }

  /** Without a wrap, storing is one copy. */
  lemma {:induction false} StoreIsCopy(mem: seq<byte>, a: word, d: seq<byte>)
    requires |mem| == MEMORY && a + |d| <= MEMORY
    ensures Store(mem, a, d) == mem[..a] + d + mem[a + |d|..]
    decreases |d|
  {
    if d != [] {
      if |d| == 1 {
        assert d[1..] == [];
      } else {
        StoreIsCopy(mem[a := d[0]], a + 1, d[1..]);
      }
    }
  }

  // ----- the file -----

  const DIRECT := 18
  const INDIRECT := 256

  /** `bmap`: the block that holds block `k` of the file. */
  function BlockNo(direct: seq<nat>, indirect: seq<nat>, k: nat): nat
    requires |direct| == DIRECT && |indirect| == INDIRECT && k < DIRECT + INDIRECT
  {
    if k < DIRECT then direct[k] else indirect[k - DIRECT]
  }

  /** The file is no longer than its block map, and its blocks exist. */
  ghost predicate Mapped(dev: seq<seq<byte>>, direct: seq<nat>, indirect: seq<nat>, n: nat) {
    && |direct| == DIRECT && |indirect| == INDIRECT && n <= DIRECT + INDIRECT
    && (forall b :: 0 <= b < |dev| ==> |dev[b]| == BLOCK)
    && (forall k :: 0 <= k < n ==> BlockNo(direct, indirect, k) < |dev|)
  }

  /** The bytes of the file's blocks, in order. */
  ghost function FileBytes(dev: seq<seq<byte>>, direct: seq<nat>, indirect: seq<nat>, n: nat): (c: seq<byte>)
    requires Mapped(dev, direct, indirect, n)
    ensures |c| == BLOCK * n
    ensures forall f :: 0 <= f < |c| ==> c[f] == dev[BlockNo(direct, indirect, f / BLOCK)][f % BLOCK]
  {
    seq(BLOCK * n, f requires 0 <= f < BLOCK * n => dev[BlockNo(direct, indirect, f / BLOCK)][f % BLOCK])
  }

  lemma BlockIsFileBytes(dev: seq<seq<byte>>, direct: seq<nat>, indirect: seq<nat>, n: nat, k: nat, from: nat, m: nat)
    requires Mapped(dev, direct, indirect, n) && k < n && from + m <= BLOCK
    ensures BLOCK * k + from + m <= BLOCK * n
    ensures FileBytes(dev, direct, indirect, n)[BLOCK * k + from..BLOCK * k + from + m]
         == dev[BlockNo(direct, indirect, k)][from..from + m]
  {
    var c := FileBytes(dev, direct, indirect, n);
    var at, whole := BLOCK * k + from, dev[BlockNo(direct, indirect, k)];
    var got := c[at..at + m];
    forall i | 0 <= i < m
      ensures got[i] == whole[from..from + m][i]
    {
      assert got[i] == c[at + i];
      assert (at + i) / BLOCK == k && (at + i) % BLOCK == from + i;
    }
  }

  // ----- loading -----

  datatype BootResult = Loaded(mem: seq<byte>, entry: word) | Failed

  function Word(hi: byte, lo: byte): word { 256 * (hi as int) + lo }

  /**
   Loading the file from `pos` on. A header is read in one go from the current block, so one that crosses into the
   next block is a short read; a header whose flag is not zero ends the file; a segment may not run past the file's
   last block.
   */
  function Load(content: seq<byte>, pos: nat, mem: seq<byte>): (r: BootResult)
    requires pos <= |content| && |content| % BLOCK == 0 && |mem| == MEMORY
    ensures r.Loaded? ==> |r.mem| == MEMORY
    decreases |content| - pos
  {
    if pos == |content| || pos % BLOCK > BLOCK - HEADER then Failed
    else
      HeaderFits(|content|, pos);
      if content[pos] != 0 then Loaded(mem, Word(content[pos + 3], content[pos + 4]))
      else
        var len, addr := Word(content[pos + 1], content[pos + 2]), Word(content[pos + 3], content[pos + 4]);
        var start := pos + HEADER;
        if start + len > |content| then Failed
        else Load(content, start + len, Store(mem, addr, content[start..start + len]))
  }

  lemma HeaderFits(n: nat, pos: nat)
    requires n % BLOCK == 0 && pos < n && pos % BLOCK <= BLOCK - HEADER
    ensures pos + HEADER <= n
  {
  }

  // ----- well-formed files -----

  datatype Segment = Segment(addr: word, data: seq<byte>)

  ghost predicate Loadable(segs: seq<Segment>) {
    forall k :: 0 <= k < |segs| ==> |segs[k].data| < 0x10000
  }

  ghost function Encode(segs: seq<Segment>): seq<byte>
    requires Loadable(segs)
    decreases |segs|
  {
    if segs == [] then []
    else
      SegmentHead(segs[0]) + segs[0].data + Encode(segs[1..])
  }

  /** The flag, the length and the address, high bytes first. */
  function SegmentHead(s: Segment): (h: seq<byte>)
    requires |s.data| < 0x10000
    ensures |h| == HEADER
  {
    [0, |s.data| / 256, |s.data| % 256, s.addr / 256, s.addr % 256]
  }

  /** Applying the segments one by one. */
  ghost function Applied(mem: seq<byte>, segs: seq<Segment>): (r: seq<byte>)
    requires |mem| == MEMORY
    decreases |segs|
  {
    if segs == [] then mem else Applied(Store(mem, segs[0].addr, segs[0].data), segs[1..])
  }

  /** No header, the closing one included, crosses a block boundary. */
  ghost predicate HeadersWhole(segs: seq<Segment>, pos: nat)
    decreases |segs|
  {
    && pos % BLOCK <= BLOCK - HEADER
    && (segs != [] ==> HeadersWhole(segs[1..], pos + HEADER + |segs[0].data|))
  }

  /**
   A file that consists of segments and a closing header is loaded if and only if no header crosses a block boundary,
   and then memory ends up as if the segments had been applied one by one, and the closing header names the entry
   point.
   */
  lemma {:induction false} LoadsSegments(content: seq<byte>, pos: nat, segs: seq<Segment>, tail: seq<byte>,
        mem: seq<byte>)
    requires |content| % BLOCK == 0 && |mem| == MEMORY && pos <= |content| && Loadable(segs)
    requires content[pos..] == Encode(segs) + tail && |tail| >= HEADER && tail[0] != 0
    ensures Load(content, pos, mem) ==
      if HeadersWhole(segs, pos) then Loaded(Applied(mem, segs), Word(tail[3], tail[4])) else Failed
    decreases |segs|
  {
    assert pos < |content|;
    if segs == [] {
      assert content[pos..] == tail;
      assert content[pos] == content[pos..][0] && content[pos + 3] == content[pos..][3]
        && content[pos + 4] == content[pos..][4];
    } else {
      var s := segs[0];
      assert content[pos..] == SegmentHead(s) + s.data + (Encode(segs[1..]) + tail);
      OneSegment(content, pos, s, Encode(segs[1..]) + tail);
      var next := pos + HEADER + |s.data|;
      LoadsSegments(content, next, segs[1..], tail, Store(mem, s.addr, s.data));
    }
  }

  /** What one encoded segment says, at the front of a text. */
  lemma SegmentBytes(s: Segment, rest: seq<byte>, all: seq<byte>)
    requires |s.data| < 0x10000 && all == SegmentHead(s) + s.data + rest
    ensures |all| == HEADER + |s.data| + |rest| && all[0] == 0
    ensures Word(all[1], all[2]) == |s.data| && Word(all[3], all[4]) == s.addr
    ensures all[HEADER..HEADER + |s.data|] == s.data && all[HEADER + |s.data|..] == rest
  {
    var head := SegmentHead(s);
    assert all[0] == head[0] && all[1] == head[1] && all[2] == head[2] && all[3] == head[3] && all[4] == head[4];
  }

  lemma Dropped(content: seq<byte>, pos: nat, n: nat)
    requires pos + HEADER + n <= |content|
    ensures content[pos..][HEADER + n..] == content[pos + HEADER + n..]
    ensures content[pos..][HEADER..HEADER + n] == content[pos + HEADER..pos + HEADER + n]
    ensures content[pos..][..HEADER] == content[pos..pos + HEADER]
  {
  }

  /** Where the first segment lies in the file, and what its header says. */
  lemma OneSegment(content: seq<byte>, pos: nat, s: Segment, rest: seq<byte>)
    requires pos <= |content| && |s.data| < 0x10000 && content[pos..] == SegmentHead(s) + s.data + rest
    ensures pos + HEADER + |s.data| <= |content| && content[pos] == 0
    ensures Word(content[pos + 1], content[pos + 2]) == |s.data|
    ensures Word(content[pos + 3], content[pos + 4]) == s.addr
    ensures content[pos + HEADER..pos + HEADER + |s.data|] == s.data
    ensures content[pos + HEADER + |s.data|..] == rest
  {
    hide Word, SegmentHead;
    SegmentBytes(s, rest, content[pos..]);
    Dropped(content, pos, |s.data|);
  }

  /** A file with one segment of 503 bytes: its closing header begins four bytes before the end of the first block. */
  function Straddling(addr: word): (content: seq<byte>)
    ensures |content| == 2 * BLOCK
  {
    SegmentHead(LongSegment(addr)) + LongSegment(addr).data + seq(516, _ => 1)
  }

  function LongSegment(addr: word): (s: Segment)
    ensures |s.data| == 503
  {
    Segment(addr, seq(503, _ => 0))
  }

  /** Well-formed as a file of segments, and refused. */
  lemma StraddlingIsRefused(addr: word, mem: seq<byte>)
    requires |mem| == MEMORY
    ensures var segs := [LongSegment(addr)]; var tail: seq<byte> := seq(516, _ => 1);
      && Loadable(segs) && Straddling(addr) == Encode(segs) + tail && tail[0] != 0
      && !HeadersWhole(segs, 0) && Load(Straddling(addr), 0, mem) == Failed
  {
    hide Load, Store, SegmentHead;
    var segs := [LongSegment(addr)];
    var tail: seq<byte> := seq(516, _ => 1);
    assert segs[1..] == [] && Encode(segs[1..]) == [];
    assert Straddling(addr)[0..] == Straddling(addr) == Encode(segs) + tail;
    assert HEADER + |segs[0].data| == 508 && !HeadersWhole(segs[1..], 508);
    LoadsSegments(Straddling(addr), 0, segs, tail, mem);
  }
}
