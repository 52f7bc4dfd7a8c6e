/** booter.c: the open file, the paged memory file, and the load loop with its direct path. */
module Booter {
  import opened Bytes
  import opened BooterFile

  /** The open file: `left`, `spos`, `epos`, the data buffer and the block map. */
  class File {
    const dev: seq<seq<byte>>   // the partition's blocks
    const direct: seq<nat>      // i_addr[0..18] of the inode
    const indirect: seq<nat>    // its single indirect block
    const epos: nat             // blocks in the file
    var spos: nat               // next block to read
    var left: nat               // bytes left in the data buffer
    var dbuf: seq<byte>         // the data buffer

    ghost predicate Valid()
      reads this
    {
      && Mapped(dev, direct, indirect, epos) && spos <= epos && left <= BLOCK && |dbuf| == BLOCK
      && (left > 0 ==> spos > 0 && dbuf == dev[BlockNo(direct, indirect, spos - 1)])
    }

    ghost function Content(): (c: seq<byte>)
      requires Mapped(dev, direct, indirect, epos)
      ensures |c| == BLOCK * epos
    {
      FileBytes(dev, direct, indirect, epos)
    }

    /** The position in the file. */
    ghost function Pos(): (p: nat)
      requires Valid()
      reads this
      ensures p <= BLOCK * epos && p % BLOCK == (if left == 0 then 0 else BLOCK - left)
    {
      PosMod(spos, left);
      BLOCK * spos - left
    }

    /** `iopen`: the inode and its indirect block, as read, are the parameters. */
    constructor (dev: seq<seq<byte>>, direct: seq<nat>, indirect: seq<nat>, size: nat)
      requires Mapped(dev, direct, indirect, (size + 0x1ff) / BLOCK)
      ensures Valid() && Pos() == 0 && epos == (size + 0x1ff) / BLOCK
      ensures this.dev == dev && this.direct == direct && this.indirect == indirect
    {
      this.dev, this.direct, this.indirect := dev, direct, indirect;
      epos := (size + 0x1ff) / BLOCK;
      spos, left, dbuf := 0, 0, seq(BLOCK, _ => 0);
    }

    /** The next block into the buffer. */
    method Fill()
      requires Valid() && left == 0 && spos < epos
      modifies this
      ensures Valid() && left == BLOCK && spos > 0 && Pos() == old(Pos())
    {
      dbuf := dev[BlockNo(direct, indirect, spos)];
      spos := spos + 1;
      left := BLOCK;
    }

    /** `iread`: at most what is left of the current block; nothing at the end of the file. */
    method Read(n: nat) returns (data: seq<byte>)
      requires Valid() && n > 0
      modifies this
      ensures Valid() && Pos() == old(Pos()) + |data| && data == Content()[old(Pos())..Pos()]
      ensures old(Pos()) == BLOCK * epos ==> data == []
      ensures old(Pos()) < BLOCK * epos ==>
        |data| == (if n < BLOCK - old(Pos()) % BLOCK then n else BLOCK - old(Pos()) % BLOCK)
    {
      hide FileBytes;
      if left == 0 {
        if spos == epos { return []; }
        Fill();
      }
      var bpos := BLOCK - left;
      var m := if n < left then n else left;
      data := dbuf[bpos..bpos + m];
      BlockIsFileBytes(dev, direct, indirect, epos, spos - 1, bpos, m);
      left := left - m;
    }

    /** The direct path's own reading: a whole block, with nothing buffered. */
    method ReadBlock() returns (data: seq<byte>)
      requires Valid() && left == 0 && spos < epos
      modifies this`spos
      ensures Valid() && Pos() == old(Pos()) + BLOCK && |data| == BLOCK && data == Content()[old(Pos())..Pos()]
    {
      hide FileBytes;
      data := dev[BlockNo(direct, indirect, spos)];
      BlockIsFileBytes(dev, direct, indirect, epos, spos, 0, BLOCK);
      spos := spos + 1;
    }
  }

  lemma PosMod(s: nat, l: nat)
    requires l <= BLOCK
    ensures (BLOCK * s - l) % BLOCK == if l == 0 || l == BLOCK then 0 else BLOCK - l
  {
  }

  /** Physical memory, seen through an 8K window. */
  class Window {
    const mem: array<byte>
    var page: nat     // the page in the window
    var mleft: nat    // bytes left in the window
    var paddr: word   // physical address of the next byte

    ghost predicate Valid()
      reads this
    {
      && mem.Length == MEMORY && mleft <= PAGE && page < MEMORY / PAGE
      && (mleft > 0 ==> paddr == PAGE * page + (PAGE - mleft))
    }

    constructor ()
      ensures Valid() && fresh(mem)
    {
      mem := new byte[MEMORY](_ => 0);
      page, mleft, paddr := 0, 0, 0;
    }

    /** `mseek`. */
    method Seek(a: word)
      requires Valid()
      modifies this`paddr, this`page, this`mleft
      ensures Valid() && paddr == a && mleft > 0
    {
      paddr := a;
      page := a / PAGE;
      mleft := PAGE - a % PAGE;
    }

    /** Copies into the window; its end may be reached but not passed. */
    method Copy(data: seq<byte>)
      requires Valid() && 0 < |data| <= mleft
      modifies this`paddr, this`mleft, mem
      ensures Valid() && mem[..] == Store(old(mem[..]), old(paddr), data)
      ensures paddr == (old(paddr) + |data|) % MEMORY && mleft == old(mleft) - |data|
    {
      hide Store;
      ghost var before := mem[..];
      CopyAt(paddr, data);
      StoreIsCopy(before, paddr, data);
      mleft := mleft - |data|;
      paddr := (paddr + |data|) % MEMORY;
    }

    /** `memcpy` into the window. */
    method CopyAt(a: nat, data: seq<byte>)
      requires a + |data| <= mem.Length
      modifies mem
      ensures mem[..] == old(mem[..a]) + data + old(mem[a + |data|..])
    {
      var i := 0;
      ghost var before := mem[..];
      while i < |data|
        invariant 0 <= i <= |data| && mem[..] == before[..a] + data[..i] + before[a + i..]
      {
        CopyOne(before, a, data, i);
        mem[a + i] := data[i];
        i := i + 1;
      }
      assert data[..i] == data;
    }

    /** `mwrite`: moves the window along as it fills up. */
    method Write(data: seq<byte>)
      requires Valid()
      modifies this`paddr, this`page, this`mleft, mem
      ensures Valid() && mem[..] == Store(old(mem[..]), old(paddr), data) && paddr == (old(paddr) + |data|) % MEMORY
    {
      hide Store;
      ghost var before, a := mem[..], paddr;
      var done := 0;
      StoreNothing(before, a);
      assert data[..0] == [];
      while done < |data|
        invariant Valid() && 0 <= done <= |data| && paddr == (a + done) % MEMORY
        invariant mem[..] == Store(before, a, data[..done])
      {
        if mleft == 0 { Seek(paddr); }
        var max := if mleft < |data| - done then mleft else |data| - done;
        StoreConcat(before, a, data[..done], data[done..done + max]);
        assert data[..done] + data[done..done + max] == data[..done + max];
        Copy(data[done..done + max]);
        WrapMore(a, done, max);
        done := done + max;
      }
      assert data[..done] == data;
    }
  }

  lemma CopyOne(mem: seq<byte>, a: nat, data: seq<byte>, i: nat)
    requires i < |data| && a + i < |mem|
    ensures (mem[..a] + data[..i] + mem[a + i..])[a + i := data[i]] == mem[..a] + data[..i + 1] + mem[a + i + 1..]
  {
  }

  /**
   One turn of the segment loop: straight from the device into the window when a whole block fits, else by a buffer.
   */
  method MoveSome(f: File, w: Window, todo: nat) returns (moved: nat)
    requires f.Valid() && w.Valid() && 0 < todo < 0x10000
    modifies f, w, w.mem
    ensures f.Valid() && w.Valid() && (moved == 0 <==> old(f.Pos()) == BLOCK * f.epos)
    ensures moved <= todo && f.Pos() == old(f.Pos()) + moved
    ensures w.mem[..] == Store(old(w.mem[..]), old(w.paddr), f.Content()[old(f.Pos())..f.Pos()])
    ensures w.paddr == (old(w.paddr) + moved) % MEMORY
  {
    hide Store, FileBytes, Mapped;
    var m := if todo < w.mleft then todo else w.mleft;
    m := if m < BLOCK then m else BLOCK;
    if m == BLOCK && f.left == 0 {
      if f.spos == f.epos {
        StoreNothing(w.mem[..], w.paddr);
        assert f.Content()[f.Pos()..f.Pos()] == [];
        return 0;
      }
      var block := f.ReadBlock();
      w.Copy(block);
      moved := BLOCK;
    } else {
      var tmp := f.Read(todo);
      w.Write(tmp);
      moved := |tmp|;
    }
  }

  /** The loop over one segment's bytes. */
  method LoadSegment(f: File, w: Window, a: word, len: nat) returns (ok: bool)
    requires f.Valid() && w.Valid() && len < 0x10000
    modifies f, w, w.mem
    ensures f.Valid() && w.Valid() && (ok <==> old(f.Pos()) + len <= BLOCK * f.epos)
    ensures ok ==> f.Pos() == old(f.Pos()) + len
    ensures ok ==> w.mem[..] == Store(old(w.mem[..]), a, f.Content()[old(f.Pos())..f.Pos()])
  {
    hide Store, FileBytes, Mapped;
    var todo := len;
    w.Seek(a);
    ghost var start, c, before := f.Pos(), f.Content(), w.mem[..];
    assert c[start..start] == [];
    StoreNothing(before, a);
    while todo > 0
      invariant f.Valid() && w.Valid() && 0 <= todo <= len && f.Pos() == start + (len - todo)
      invariant w.mem[..] == Store(before, a, c[start..f.Pos()]) && w.paddr == (a + (len - todo)) % MEMORY
      decreases todo
    {
      ghost var p := f.Pos();
      var moved := MoveSome(f, w, todo);
      if moved == 0 { return false; }
      StoreMore(before, a, c, start, p, moved);
      WrapMore(a, len - todo, moved);
      todo := todo - moved;
    }
    ok := true;
  }

  lemma StoreMore(mem: seq<byte>, a: word, c: seq<byte>, start: nat, p: nat, moved: nat)
    requires |mem| == MEMORY && start <= p && p + moved <= |c|
    ensures Store(Store(mem, a, c[start..p]), (a + (p - start)) % MEMORY, c[p..p + moved])
      == Store(mem, a, c[start..p + moved])
  {
    hide Store;
    StoreConcat(mem, a, c[start..p], c[p..p + moved]);
    assert c[start..p] + c[p..p + moved] == c[start..p + moved];
  }

  lemma StoreNothing(mem: seq<byte>, a: word)
    requires |mem| == MEMORY
    ensures Store(mem, a, []) == mem
  {
  }

  lemma WrapMore(a: word, n: nat, m: nat)
    ensures ((a + n) % MEMORY + m) % MEMORY == (a + n + m) % MEMORY
  {
  }

  /** The load loop of `boot`: whichever path each block takes, memory ends up as the flat reading of the file says. */
  method LoadFile(f: File, w: Window) returns (ok: bool, h: seq<byte>)
    requires f.Valid() && w.Valid() && f.Pos() == 0
    modifies f, w, w.mem
    ensures f.Valid() && w.Valid() && ok == Load(f.Content(), 0, old(w.mem[..])).Loaded?
    ensures ok ==> |h| == HEADER && Load(f.Content(), 0, old(w.mem[..])) == Loaded(w.mem[..], Word(h[3], h[4]))
  {
    hide Store, FileBytes, Mapped, Load, Word;
    ghost var c, before := f.Content(), w.mem[..];
    while true
      invariant f.Valid() && w.Valid() && Load(c, 0, before) == Load(c, f.Pos(), w.mem[..])
      decreases |c| - f.Pos()
    {
      ghost var at, now := f.Pos(), w.mem[..];
      h := f.Read(HEADER);
      LoadStep(c, at, now);
      if |h| != HEADER { return false, h; }
      assert h[0] == c[at] && h[1] == c[at + 1] && h[2] == c[at + 2] && h[3] == c[at + 3] && h[4] == c[at + 4];
      if h[0] != 0 { return true, h; }
      ok := LoadSegment(f, w, Word(h[3], h[4]), Word(h[1], h[2]));
      if !ok { return; }
    }
  }

  /**
   Memory when the kernel is entered: the bounce code and the entry address at 0, and at 0x88 the command line, its
   NUL and the byte after that in the loader's own memory, since the program's `strlen` already counts the NUL.
   */
  ghost function Launched(mem: seq<byte>, bounce: seq<byte>, entry: word, cmd: seq<byte>, next: byte): seq<byte>
    requires |mem| == MEMORY && |bounce| <= MEMORY
  {
    Store(Store(mem, 0, bounce + [entry / 256, entry % 256]), 0x88, cmd + [0, next])
  }

  /** The program's own `strlen`, of a string that ends at the first NUL of `s`: the NUL is counted. */
  method StrLen(s: seq<byte>) returns (n: nat)
    requires 0 in s
    ensures 0 < n <= |s| && s[n - 1] == 0 && 0 !in s[..n - 1]
  {
    n := 0;
    while s[n] != 0
      invariant n < |s| && 0 !in s[..n] && 0 in s[n..]
      decreases |s| - n
    {
      assert s[..n + 1] == s[..n] + [s[n]] && s[n..] == [s[n]] + s[n + 1..];
      n := n + 1;
    }
    n := n + 1;
  }

  /**
   `boot`, up to the jump: on any failure it returns, otherwise memory is the loaded file and the launch area. `line` is
   the loader's memory from the command line on; the byte after the NUL, whatever it is, is copied too.
   */
  method Boot(f: File, w: Window, bounce: seq<byte>, line: seq<byte>, ghost cmd: seq<byte>, ghost next: byte)
    returns (ok: bool)
    requires f.Valid() && w.Valid() && f.Pos() == 0 && |bounce| < MEMORY
    requires cmd + [0, next] <= line && 0 !in cmd
    modifies f, w, w.mem
    ensures w.Valid() && ok == Load(f.Content(), 0, old(w.mem[..])).Loaded?
    ensures ok ==>
      var r := Load(f.Content(), 0, old(w.mem[..]));
      w.mem[..] == Launched(r.mem, bounce, r.entry, cmd, next)
  {
    hide Store, FileBytes, Mapped, Load;
    var h;
    ok, h := LoadFile(f, w);
    if !ok { return; }
    ghost var loaded := w.mem[..];
    w.Seek(0);
    w.Write(bounce);
    w.Write(h[3..5]);
    StoreConcat(loaded, 0, bounce, h[3..5]);
    assert h[3..5] == [Word(h[3], h[4]) / 256, Word(h[3], h[4]) % 256];
    w.Seek(0x88);
    CommandLine(line, cmd, next);
    var n := StrLen(line);
    FirstNul(line, |cmd|, n);
    w.Write(line[..n + 1]);
  }

  lemma CommandLine(line: seq<byte>, cmd: seq<byte>, next: byte)
    requires cmd + [0, next] <= line && 0 !in cmd
    ensures |cmd| + 2 <= |line| && line[|cmd|] == 0 && 0 in line && 0 !in line[..|cmd|]
    ensures line[..|cmd| + 2] == cmd + [0, next]
  {
    assert line[|cmd|] == (cmd + [0, next])[|cmd|];
    assert line[..|cmd|] == cmd;
  }

  lemma FirstNul(s: seq<byte>, k: nat, n: nat)
    requires k < |s| && s[k] == 0 && 0 !in s[..k] && 0 < n <= |s| && s[n - 1] == 0 && 0 !in s[..n - 1]
    ensures n == k + 1
  {
    NoNul(s, k);
    NoNul(s, n - 1);
  }

  lemma NoNul(s: seq<byte>, m: nat)
    requires m <= |s| && 0 !in s[..m]
    ensures forall i :: 0 <= i < m ==> s[i] != 0
  {
    forall i | 0 <= i < m ensures s[i] != 0 { assert s[..m][i] == s[i]; }
  }

  /** One turn of `Load`. */
  lemma LoadStep(c: seq<byte>, at: nat, mem: seq<byte>)
    requires at <= |c| && |c| % BLOCK == 0 && |mem| == MEMORY
    ensures at == |c| || at % BLOCK > BLOCK - HEADER ==> Load(c, at, mem) == Failed
    ensures at < |c| && at % BLOCK <= BLOCK - HEADER ==> at + HEADER <= |c|
    ensures at < |c| && at % BLOCK <= BLOCK - HEADER && c[at] != 0 ==>
      Load(c, at, mem) == Loaded(mem, Word(c[at + 3], c[at + 4]))
    ensures at < |c| && at % BLOCK <= BLOCK - HEADER && c[at] == 0 ==>
      var len, start := Word(c[at + 1], c[at + 2]), at + HEADER;
      Load(c, at, mem) == if start + len > |c| then Failed
        else Load(c, start + len, Store(mem, Word(c[at + 3], c[at + 4]), c[start..start + len]))
  {
    if at < |c| && at % BLOCK <= BLOCK - HEADER { HeaderFits(|c|, at); }
  }
}
