/** The SLZ unpacker and packer as slz.c runs them: a ring buffer, a group buffer and nested scans. */
module Slz {
  import opened Bytes
  import opened SlzFormat
  import opened SlzGreedy

  /** How long ago slot i of the ring was last written, counting from 1. */
  function Age(offset: nat, i: nat): (k: nat)
    requires offset < HISTORY_SIZE && i < HISTORY_SIZE
    ensures 1 <= k <= HISTORY_SIZE
  {
    if i < offset then offset - i else offset + HISTORY_SIZE - i
  }

  lemma RingRead(offset: nat, x: nat)
    requires offset < HISTORY_SIZE && x < HISTORY_SIZE
    ensures var i := (offset + (HISTORY_SIZE - x)) % HISTORY_SIZE;
      0 <= i < HISTORY_SIZE && Age(offset, i) == if x == 0 then HISTORY_SIZE else x
  {
  }

  /** 1 << j */
  function Shift(j: nat): nat
    requires j < 8
  {
    match j
    case 0 => 1 case 1 => 2 case 2 => 4 case 3 => 8
    case 4 => 16 case 5 => 32 case 6 => 64 case 7 => 128
  }

  /** After j doublings, bit 7 of the tag is the bit of slot j. */
  lemma TagTest(high: nat, bits: nat, j: nat)
    requires j < 8 && bits < 2 * Weight(j)
    ensures ((256 * high + bits * Shift(j)) / 128) % 2 == if bits >= Weight(j) then 1 else 0
  {
    var v := bits * Shift(j);
    assert v < 256 && (v >= 128 <==> bits >= Weight(j)) by {
      match j case 0 => case 1 => case 2 => case 3 => case 4 => case 5 => case 6 => case 7 =>
    }
    assert (256 * high + v) / 128 == 2 * high + if v >= 128 then 1 else 0;
  }

  /** Doubling once more moves on to the next slot. */
  lemma TagDouble(high: nat, bits: nat, j: nat)
    requires j < 7
    ensures bits >= Weight(j) ==>
      2 * (256 * high + bits * Shift(j)) == 256 * (2 * high + 1) + (bits - Weight(j)) * Shift(j + 1)
    ensures bits < Weight(j) ==>
      2 * (256 * high + bits * Shift(j)) == 256 * (2 * high) + bits * Shift(j + 1)
  {
    match j case 0 => case 1 => case 2 => case 3 => case 4 => case 5 => case 6 =>
  }

  lemma DecodeTagAt(inp: seq<byte>, pos: nat, bits: nat, out: seq<byte>)
    requires pos < |inp|
    ensures Decode(inp[pos..], bits, 8, out) == Decode(inp[pos + 1..], inp[pos], 0, out)
  {
    assert inp[pos..][1..] == inp[pos + 1..];
  }

  lemma DecodeSlotAt(inp: seq<byte>, pos: nat, bits: nat, j: nat, out: seq<byte>)
    requires pos <= |inp| && j < 8
    ensures Decode(inp[pos..], bits, j, out) ==
      if pos == |inp| then None
      else if bits < Weight(j) then Decode(inp[pos + 1..], bits, j + 1, out + [inp[pos]])
      else if inp[pos] == 0 then Some(out)
      else if pos + 1 == |inp| then None
      else Decode(inp[pos + 2..], bits - Weight(j), j + 1,
        CopyBack(out, Distance(inp[pos], inp[pos + 1]), inp[pos] % 16 + 2))
  {
    if pos < |inp| {
      assert inp[pos..][1..] == inp[pos + 1..];
      if pos + 1 < |inp| { assert inp[pos..][2..] == inp[pos + 2..]; }
    }
  }

  /** After eight slots the tag is used up. */
  lemma GroupEnds(inp: seq<byte>, bits: nat, out: seq<byte>)
    ensures Decode(inp, bits, 8, out) == Decode(inp, 0, 8, out)
  {
  }

  class Unpacker {
    const history: array<byte>  // LZ_history
    var offset: nat             // lzhist_offset
    var out: seq<byte>          // what has been written to the output file

    /** The ring holds the last 4096 bytes written, with zeros before the first. */
    ghost predicate Valid()
      reads this, history
    {
      && history.Length == HISTORY_SIZE
      && offset == |out| % HISTORY_SIZE
      && forall i :: 0 <= i < HISTORY_SIZE ==> history[i] == Behind(out, Age(offset, i))
    }

    constructor ()
      ensures Valid() && out == [] && fresh(history)
    {
      history := new byte[HISTORY_SIZE](_ => 0);
      offset := 0;
      out := [];
    }

    method WriteChar(c: byte)
      requires Valid()
      modifies this, history
      ensures Valid() && out == old(out) + [c]
    {
      history[offset] := c;
      offset := (offset + 1) % HISTORY_SIZE;
      out := out + [c];
    }

    /** The inner `while(mycount!=0)` loop: copies through the ring, so that source and target may overlap. */
    method CopyFromRing(b1: byte, b2: byte)
      requires Valid()
      modifies this, history
      ensures Valid() && out == CopyBack(old(out), Distance(b1, b2), b1 % 16 + 2)
    {
      var myoffset := HISTORY_SIZE - ((b1 / 16) * 16 * 16 + b2);
      var mycount := b1 % 16 + 2;
      ghost var d := Distance(b1, b2);
      while mycount != 0
        invariant Valid() && 0 <= mycount
        invariant CopyBack(out, d, mycount) == CopyBack(old(out), d, b1 % 16 + 2)
        decreases mycount
      {
        RingRead(offset, HISTORY_SIZE - myoffset);
        WriteChar(history[(offset + myoffset) % HISTORY_SIZE]);
        mycount := mycount - 1;
      }
    }

    /** One token in a slot whose tag bit is set or not; `done` at the end marker, `bad` past the end of the buffer. */
    method Slot(inbuffer: seq<byte>, pos: nat, isCopy: bool) returns (next: nat, done: bool, bad: bool)
      requires Valid() && pos <= |inbuffer|
      modifies this, history
      ensures Valid() && pos <= next <= |inbuffer|
      ensures bad <==> pos == |inbuffer| || (isCopy && inbuffer[pos] != 0 && pos + 1 == |inbuffer|)
      ensures done <==> !bad && isCopy && inbuffer[pos] == 0
      ensures bad || done ==> out == old(out)
      ensures !bad && !isCopy ==> next == pos + 1 && out == old(out) + [inbuffer[pos]]
      ensures !bad && !done && isCopy ==> next == pos + 2
      ensures !bad && !done && isCopy ==>
        out == CopyBack(old(out), Distance(inbuffer[pos], inbuffer[pos + 1]), inbuffer[pos] % 16 + 2)
    {
      next, done, bad := pos, false, false;
      if pos == |inbuffer| { bad := true; return; }
      if !isCopy {
        WriteChar(inbuffer[pos]);
        next := pos + 1;
      } else if inbuffer[pos] == 0 {
        done := true;
      } else if pos + 1 == |inbuffer| {
        bad := true;
      } else {
        CopyFromRing(inbuffer[pos], inbuffer[pos + 1]);
        next := pos + 2;
      }
    }

    /** The eight slots after a tag byte, fewer if the end marker comes first. */
    method Group(inbuffer: seq<byte>, pos: nat, tag: byte) returns (next: nat, done: bool, bad: bool)
      requires Valid() && pos <= |inbuffer|
      modifies this, history
      ensures Valid() && pos <= next <= |inbuffer|
      ensures bad ==> Decode(inbuffer[pos..], tag, 0, old(out)) == None
      ensures !bad && done ==> Decode(inbuffer[pos..], tag, 0, old(out)) == Some(out)
      ensures !bad && !done ==> Decode(inbuffer[pos..], tag, 0, old(out)) == Decode(inbuffer[next..], 0, 8, out)
    {
      hide Decode, CopyBack, Distance;
      next, done, bad := pos, false, false;
      var myTAG: nat, loop1: nat := tag, 0;
      ghost var high: nat, bits: nat := 0, tag;
      ghost var goal := Decode(inbuffer[pos..], tag, 0, out);
      while loop1 != 8
        invariant Valid() && loop1 <= 8 && pos <= next <= |inbuffer| && !done && !bad
        invariant loop1 < 8 ==> bits < 2 * Weight(loop1) && myTAG == 256 * high + bits * Shift(loop1)
        invariant goal == Decode(inbuffer[next..], bits, loop1, out)
        decreases 8 - loop1
      {
        TagTest(high, bits, loop1);
        if loop1 < 7 { TagDouble(high, bits, loop1); }
        WeightHalves(loop1);
        var isCopy := (myTAG / 128) % 2 == 1;
        DecodeSlotAt(inbuffer, next, bits, loop1, out);
        next, done, bad := Slot(inbuffer, next, isCopy);
        if bad || done { return; }
        high, bits := if isCopy then 2 * high + 1 else 2 * high, if isCopy then bits - Weight(loop1) else bits;
        myTAG := myTAG + myTAG;
        loop1 := loop1 + 1;
      }
      GroupEnds(inbuffer[next..], bits, out);
    }

    /**
     UnPackSLZ. It succeeds exactly when the textbook decoder does, with the same output; otherwise the C code reads
     past the end of its input buffer.
     */
    method UnPack(inbuffer: seq<byte>) returns (ok: bool)
      requires Valid() && out == []
      modifies this, history
      ensures Valid()
      ensures ok <==> Unpacked(inbuffer).Some?
      ensures ok ==> out == Unpacked(inbuffer).value
    {
      var pos := 0;
      assert inbuffer[0..] == inbuffer;
      while true
        invariant Valid() && pos <= |inbuffer|
        invariant Unpacked(inbuffer) == Decode(inbuffer[pos..], 0, 8, out)
        decreases |inbuffer| - pos
      {
        if pos == |inbuffer| { return false; }
        DecodeTagAt(inbuffer, pos, 0, out);
        var done, bad;
        pos, done, bad := Group(inbuffer, pos + 1, inbuffer[pos]);
        if bad { return false; }
        if done { return true; }
      }
    }
  }

  // ----- packer -----

  /**
   The comparison loop: how far the bytes at the two positions agree, up to 17. Like the C code it looks at memory past
   the end of the input, which may hold anything.
   */
  method MatchLength(mem: seq<byte>, loop1: nat, endvalue: nat) returns (temp: nat)
    requires endvalue < loop1 && loop1 + MAX_COMP_LEN < |mem|
    ensures temp <= MAX_COMP_LEN && Agree(mem, endvalue, loop1, temp)
    ensures temp < MAX_COMP_LEN ==> mem[endvalue + temp] != mem[loop1 + temp]
  {
    temp := 0;
    while mem[loop1 + temp] == mem[endvalue + temp] && temp < MAX_COMP_LEN
      invariant temp <= MAX_COMP_LEN && Agree(mem, endvalue, loop1, temp)
      decreases MAX_COMP_LEN - temp
    {
      temp := temp + 1;
    }
  }

  /** Clipping the over-long comparison at the end of the input gives the match inside the input. */
  lemma ClippedIsMatch(mem: seq<byte>, length: nat, loop1: nat, e: nat, temp: nat)
    requires e < loop1 <= length && length + MAX_COMP_LEN <= |mem| && temp <= MAX_COMP_LEN
    requires Agree(mem, e, loop1, temp)
    requires temp < MAX_COMP_LEN ==> mem[e + temp] != mem[loop1 + temp]
    ensures MatchAt(mem[..length], loop1, e) == Min(temp, length - loop1)
  {
    var s := mem[..length];
    var n := Min(temp, length - loop1);
    assert Agree(s, e, loop1, n) by {
      forall k | e <= k < e + n ensures s[k] == s[k + (loop1 - e)] { assert mem[k] == mem[k + (loop1 - e)]; }
    }
    CommonIsUnique(s, e, loop1, Min(MAX_COMP_LEN, length - loop1), n);
  }

  /** The scan for a match: the nearest of the longest ones, whatever lies past the end of the input. */
  method FindMatch(mem: seq<byte>, length: nat, loop1: nat) returns (found: nat, wherefound: nat)
    requires 0 < loop1 < length && length + MAX_COMP_LEN <= |mem|
    ensures Match(found, wherefound) == Best(mem[..length], loop1, WindowStart(loop1))
  {
    hide Best, MatchAt, Agree;
    ghost var s := mem[..length];
    BestStarts(s, loop1);
    var startvalue: int := loop1 - (HISTORY_SIZE - 1);
    if startvalue < 0 { startvalue := 0; }
    found, wherefound := 0, 0;
    var endvalue: int := loop1 - 1;
    while endvalue >= startvalue
      invariant startvalue == WindowStart(loop1) && startvalue - 1 <= endvalue < loop1
      invariant Match(found, wherefound) == Best(s, loop1, endvalue + 1)
      decreases endvalue
    {
      var temp := MatchLength(mem, loop1, endvalue);
      ClippedIsMatch(mem, length, loop1, endvalue, temp);
      BestStep(s, loop1, endvalue);
      if found < temp {
        if temp + loop1 > length {
          temp := length - loop1;
          if found < temp {
            found, wherefound := temp, endvalue;
          }
        } else {
          found, wherefound := temp, endvalue;
        }
        if found == MAX_COMP_LEN {
          BestIsSettled(s, loop1, endvalue, startvalue);
          return;
        }
      }
      endvalue := endvalue - 1;
    }
  }

  lemma {:induction false} TagBitsAppend(group: seq<Token>, t: Token, j: nat)
    requires j + |group| < 8
    ensures TagBits(group + [t], j) == TagBits(group, j) + SlotBit(t, j + |group|)
    decreases |group|
  {
    if group == [] {
      assert (group + [t])[1..] == [];
    } else {
      assert (group + [t])[1..] == group[1..] + [t];
      TagBitsAppend(group[1..], t, j + 1);
    }
  }

  /** The tag of a group uses only the bits of its own slots. */
  lemma {:induction false} TagBitsMultiple(group: seq<Token>) returns (q: nat)
    requires |group| < 8
    ensures TagBits(group, 0) == q * (2 * Weight(|group|))
    decreases |group|
  {
    if group == [] {
      q := 0;
    } else {
      var k := |group| - 1;
      assert group == group[..k] + [group[k]];
      var q' := TagBitsMultiple(group[..k]);
      TagBitsAppend(group[..k], group[k], 0);
      q := 2 * q' + if group[k].Copy? then 1 else 0;
      match k { case 0 => case 1 => case 2 => case 3 => case 4 => case 5 => case 6 => }
    }
  }

  lemma TagBitFree(group: seq<Token>, iter: nat)
    requires |group| == iter < 8
    ensures (TagBits(group, 0) / Weight(iter)) % 2 == 0
  {
    var q := TagBitsMultiple(group);
    match iter
    case 0 => case 1 => case 2 => case 3 => case 4 => case 5 => case 6 => case 7 =>
  }

  lemma PayloadAppend(group: seq<Token>, t: Token)
    requires AllEncodable(group) && Encodable(t)
    ensures AllEncodable(group + [t]) && Payload(group + [t]) == Payload(group) + Payload1(t)
  {
    PayloadSplit(group + [t], |group|);
    assert (group + [t])[..|group|] == group && (group + [t])[|group|..] == [t];
    assert [t][1..] == [];
  }

  /** A group buffer: `outchars`, with the payload of the tokens gathered so far from index 1 on, and their tag. */
  ghost predicate Holds(outchars: array<byte>, lenoutchars: nat, myTAG: nat, group: seq<Token>)
    reads outchars
  {
    && AllEncodable(group) && |group| <= 8
    && outchars.Length == MAX_COMP_LEN * 10
    && 1 <= lenoutchars <= 2 * |group| + 1
    && outchars[1..lenoutchars] == Payload(group)
    && myTAG == TagBits(group, 0)
  }

  /** Adds the token at loop1 to the group buffer. */
  method AddToken(mem: seq<byte>, length: nat, loop1: nat, outchars: array<byte>, lenoutchars: nat, myTAG: nat,
        iter: nat, ghost group: seq<Token>)
    returns (loop1': nat, lenoutchars': nat, myTAG': nat)
    requires 0 < loop1 < length && length + MAX_COMP_LEN <= |mem|
    requires Holds(outchars, lenoutchars, myTAG, group) && |group| == iter < 8
    modifies outchars
    ensures loop1' == loop1 + Width(TokenAt(mem[..length], loop1)) <= length
    ensures Holds(outchars, lenoutchars', myTAG', group + [TokenAt(mem[..length], loop1)])
  {
    hide Best, Greedy, EncodeStream, TagBits, Payload;
    ghost var s := mem[..length];
    ghost var t := TokenAt(s, loop1);
    var found, wherefound := FindMatch(mem, length, loop1);
    BestBounds(s, loop1, WindowStart(loop1));
    TagBitsAppend(group, t, 0);
    PayloadAppend(group, t);
    loop1', lenoutchars', myTAG' := loop1, lenoutchars, myTAG;
    if found > 2 {
      TagBitFree(group, iter);
      myTAG' := OrBit(myTAG', Weight(iter));
      var d := loop1 - wherefound;
      outchars[lenoutchars'] := FirstByte(d, found);
      outchars[lenoutchars' + 1] := d % 256;
      lenoutchars' := lenoutchars' + 2;
      loop1' := loop1' + found;
      assert outchars[1..lenoutchars'] == old(outchars[1..lenoutchars]) + [FirstByte(d, found), d % 256];
    } else {
      outchars[lenoutchars'] := mem[loop1];
      lenoutchars' := lenoutchars' + 1;
      loop1' := loop1' + 1;
      assert outchars[1..lenoutchars'] == old(outchars[1..lenoutchars]) + [mem[loop1]];
    }
  }

  /** What remains to be written while `group` is being gathered and the input from loop1 on is still to come. */
  ghost function Pending(s: seq<byte>, group: seq<Token>, loop1: nat): seq<int>
    requires AllEncodable(group) && loop1 <= |s|
  {
    EncodeStream(group + Greedy(s, loop1))
  }

  lemma PendingStep(s: seq<byte>, group: seq<Token>, loop1: nat)
    requires AllEncodable(group) && loop1 < |s|
    ensures loop1 + Width(TokenAt(s, loop1)) <= |s|
    ensures Pending(s, group, loop1) == Pending(s, group + [TokenAt(s, loop1)], loop1 + Width(TokenAt(s, loop1)))
  {
    hide EncodeStream, Best, Apply, TokenAt;
    TokenReproduces(s, loop1);
    var t := TokenAt(s, loop1);
    assert group + Greedy(s, loop1) == group + [t] + Greedy(s, loop1 + Width(t));
  }

  lemma PendingFlush(s: seq<byte>, group: seq<Token>, loop1: nat)
    requires AllEncodable(group) && loop1 <= |s| && |group| == 8
    ensures Pending(s, group, loop1) == [TagBits(group, 0)] + Payload(group) + Pending(s, [], loop1)
  {
    var all := group + Greedy(s, loop1);
    assert all[..8] == group && all[8..] == Greedy(s, loop1);
    assert [] + Greedy(s, loop1) == Greedy(s, loop1);
  }

  lemma PendingEnd(s: seq<byte>, group: seq<Token>)
    requires AllEncodable(group) && 0 < |group| < 8
    ensures Pending(s, group, |s|) == [TagBits(group, 0) + Weight(|group|)] + Payload(group) + [0, 0]
  {
    assert group + Greedy(s, |s|) == group;
    EncodeLastGroup(group);
  }

  lemma PendingEndFull(s: seq<byte>, group: seq<Token>)
    requires AllEncodable(group) && |group| == 8
    ensures Pending(s, group, |s|) == [TagBits(group, 0)] + Payload(group) + [255, 0, 0]
  {
    PendingFlush(s, group, |s|);
    assert [] + Greedy(s, |s|) == [];
  }

  lemma FirstTokenIsLiteral(s: seq<byte>)
    requires |s| > 0
    ensures TokenAt(s, 0) == Literal(s[0])
    ensures Packed(s) == Pending(s, [Literal(s[0])], 1)
  {
    PendingStep(s, [], 0);
    assert [] + Greedy(s, 0) == Greedy(s, 0);
    assert [] + [Literal(s[0])] == [Literal(s[0])];
  }

  /**
   The inner loop: gathers tokens until the group is full or the input is used up. `loop2` counts what is left of the
   input and never goes negative.
   */
  method GatherGroup(mem: seq<byte>, length: nat, loop1: nat, outchars: array<byte>, lenoutchars: nat, iter: nat,
                     ghost group: seq<Token>)
    returns (loop1': nat, loop2: int, lenoutchars': nat, iter': nat, myTAG: nat, done: bool, ghost group': seq<Token>)
    requires 0 < loop1 < length && length + MAX_COMP_LEN <= |mem|
    requires Holds(outchars, lenoutchars, 0, group) && |group| == iter < 8
    modifies outchars
    ensures loop1 < loop1' <= length && loop2 == length - loop1'
    ensures Holds(outchars, lenoutchars', myTAG, group') && 0 < |group'| == iter'
    ensures Pending(mem[..length], group, loop1) == Pending(mem[..length], group', loop1')
    ensures done <==> loop1' == length
    ensures done || iter' == 8
  {
    hide Pending, TagBits, Payload, AllEncodable, Best;
    ghost var s := mem[..length];
    loop1', loop2, iter', lenoutchars', myTAG, done := loop1, length - loop1, iter, lenoutchars, 0, false;
    group' := group;
    while iter' < 8 && !done
      invariant loop1 <= loop1' <= length && loop2 == length - loop1' && (done <==> loop1' == length)
      invariant loop1 < loop1' || (iter' == iter && loop1 == loop1')
      invariant |group'| == iter' <= 8 && (iter' == 0 ==> iter == 0 && loop1 == loop1')
      invariant Holds(outchars, lenoutchars', myTAG, group')
      invariant Pending(s, group, loop1) == Pending(s, group', loop1')
      decreases 8 - iter'
    {
      PendingStep(s, group', loop1');
      ghost var t := TokenAt(s, loop1');
      var l1;
      l1, lenoutchars', myTAG := AddToken(mem, length, loop1', outchars, lenoutchars', myTAG, iter', group');
      group' := group' + [t];
      loop2 := loop2 - (l1 - loop1');
      loop1' := l1;
      if loop2 <= 0 { done := true; }
      iter' := iter' + 1;
    }
  }

  /** Writes a full group's tag and payload. */
  method Flush(outchars: array<byte>, lenoutchars: nat, myTAG: nat,
        ghost group: seq<Token>) returns (written: seq<byte>)
    requires Holds(outchars, lenoutchars, myTAG, group)
    modifies outchars
    ensures written == [TagBits(group, 0)] + Payload(group)
  {
    TagBitsBound(group, 0, 0);
    outchars[0] := myTAG;
    written := outchars[..lenoutchars];
    assert written == [myTAG] + Payload(group);
  }

  /** Writes the last group and the end marker. */
  method Finish(outchars: array<byte>, lenoutchars: nat, myTAG: nat, iter: nat, ghost s: seq<byte>,
        ghost group: seq<Token>)
    returns (written: seq<byte>)
    requires Holds(outchars, lenoutchars, myTAG, group) && 0 < |group| == iter
    modifies outchars
    ensures written == Pending(s, group, |s|)
  {
    hide Pending, TagBits, Payload;
    if iter == 8 {
      PendingEndFull(s, group);
      written := Flush(outchars, lenoutchars, myTAG, group);
      written := written + [255, 0, 0];
    } else {
      PendingEnd(s, group);
      TagBitsBound(group, 0, Weight(iter));
      TagBitFree(group, iter);
      outchars[0] := OrBit(myTAG, Weight(iter));
      written := outchars[..lenoutchars];
      assert written == [myTAG + Weight(iter)] + Payload(group);
      written := written + [0, 0];
    }
  }

  lemma OneLiteral(b: byte)
    ensures AllEncodable([Literal(b)]) && Payload([Literal(b)]) == [b] && TagBits([Literal(b)], 0) == 0
    ensures AllEncodable([]) && Payload([]) == [] && TagBits([], 0) == 0
  {
    assert [Literal(b)][1..] == [];
  }

  /** PackSLZ: the stream of the greedy parse, for every input of two bytes or more, whatever lies past its end. */
  method Pack(mem: seq<byte>, length: nat) returns (out: seq<byte>)
    requires 1 < length && length + MAX_COMP_LEN <= |mem|
    ensures out == Packed(mem[..length])
    ensures Unpacked(out) == Some(mem[..length])
    ensures |out| <= length + length / 8 + 3
  {
    hide Pending, Packed, Unpacked, TagBits, Payload, AllEncodable, TokenAt, Weight;
    OneLiteral(mem[0]);
    ghost var s := mem[..length];
    FirstTokenIsLiteral(s);
    var outchars := new byte[MAX_COMP_LEN * 10](_ => 0);
    outchars[1] := mem[0];
    var loop1: nat, iter: nat, lenoutchars: nat, myTAG: nat, done := 1, 1, 2, 0, false;
    var loop2: int := length - 1;
    ghost var group := [Literal(s[0])];
    assert group[1..] == [] && outchars[1..2] == [mem[0]];
    out := [];
    assert Packed(s) == out + Pending(s, group, loop1);
    while !done
      invariant 0 < loop1 <= length && |group| == iter && (done <==> loop1 == length)
      invariant Holds(outchars, lenoutchars, if done then myTAG else 0, group)
      invariant if done then iter > 0 else iter < 8
      invariant Packed(s) == out + Pending(s, group, loop1)
      decreases length - loop1
    {
      loop1, loop2, lenoutchars, iter, myTAG, done, group :=
        GatherGroup(mem, length, loop1, outchars, lenoutchars, iter, group);
      if !done {
        PendingFlush(s, group, loop1);
        var written := Flush(outchars, lenoutchars, myTAG, group);
        out := out + written;
        lenoutchars, iter, group := 1, 0, [];
      }
    }
    var last := Finish(outchars, lenoutchars, myTAG, iter, s, group);
    out := out + last;
    PackRoundTrip(s);
    PackedSizeBound(s);
  }
}
