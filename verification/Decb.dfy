/** The decb commands as decb.c runs them, on an image file and an in-memory copy of its FAT. */
module Decb {
  import opened Bytes
  import opened DecbVolume
  import opened DecbFiles
  import opened DecbImage

  datatype PutResult = PutOk | FileExists | NoEntry | NoGranule
  datatype GetResult = GetOk | NotFound | WriteError

  /** Every link stays inside the table. */
  ghost predicate LinksInRange(fat: seq<byte>) {
    forall g :: 0 <= g < |fat| ==> fat[g] < |fat| || fat[g] >= LAST
  }

  ghost function UsedSet(fat: seq<byte>): set<nat> {
    set g: nat | 0 <= g < |fat| && fat[g] != FREE :: g
  }

  /** On a reachable volume every link is in range, so `delchain` can be called on any of its entries. */
  lemma InvLinksInRange(v: Volume, reserved: set<nat>)
    requires Inv(v, reserved)
    ensures LinksInRange(v.fat)
  {
    forall g | 0 <= g < FATZ ensures v.fat[g] < FATZ || v.fat[g] >= LAST {
      if v.fat[g] != FREE && g !in reserved {
        var k :| 0 <= k < DIRZ && Live(v.dir[k]) && g in Elements(Chain(v.fat, v.dir[k]));
        WalkIsChain(v.fat, First(v.dir[k]), FATZ);
        var c := Chain(v.fat, v.dir[k]);
        var i :| 0 <= i < |c| && c[i] == g;
        if i < |c| - 1 { assert v.fat[c[i]] == c[i + 1]; }
      }
    }
  }

  /** The 70 writes of `mkfs` over a file. */
  method Blanked(was: seq<byte>) returns (file: seq<byte>)
    ensures |file| == if |was| > IMAGEZ then |was| else IMAGEZ
    ensures forall i :: 0 <= i < IMAGEZ ==> file[i] == 0xff
    ensures forall i :: IMAGEZ <= i < |was| ==> file[i] == was[i]
  {
    var blank: seq<byte> := seq(GRANZ, _ => 0xff);
    file := was;
    var x := 0;
    while x < 70
      invariant 0 <= x <= 70 && |file| >= GRANZ * x && |file| >= |was|
      invariant forall i :: 0 <= i < GRANZ * x ==> file[i] == 0xff
      invariant |file| == if |was| > GRANZ * x then |was| else GRANZ * x
      invariant forall i :: GRANZ * x <= i < |was| ==> file[i] == was[i]
    {
      var after := if |file| > GRANZ * (x + 1) then file[GRANZ * (x + 1)..] else [];
      file := file[..GRANZ * x] + blank + after;
      x := x + 1;
    }
  }

  /** A file of 0xff holds a blank table and an empty directory. */
  lemma BlankFile(file: seq<byte>)
    requires |file| >= IMAGEZ && forall i :: 0 <= i < IMAGEZ ==> file[i] == 0xff
    ensures var v := Vol(file);
      && v.fat == file[FATST..FATST + FATZ] && (forall g :: 0 <= g < FATZ ==> v.fat[g] == FREE)
      && (forall k :: 0 <= k < DIRZ ==> v.dir[k][0] == 0xff)
  {
    forall k | 0 <= k < DIRZ ensures Vol(file).dir[k][0] == 0xff { assert Vol(file).dir[k][0] == file[EntryOffset(k)]; }
  }

  class Disk {
    var img: seq<byte>
    const fat: array<byte>

    ghost predicate Valid()
      reads this
    {
      |img| >= IMAGEZ && fat.Length == FATZ
    }

    ghost function V(): Volume
      requires Valid()
      reads this
    {
      Vol(img)
    }

    /** `mkfs` over a file that held `was`: 70 granules of 0xff, then the protected granules marked in the FAT. */
    constructor Mkfs(was: seq<byte>, mbr: bool, boot: bool)
      ensures Valid() && Formatted(V(), (if mbr then {0} else {}) + (if boot then {66, 67} else {}))
      ensures forall i :: IMAGEZ <= i < |was| ==> |img| == |was| && img[i] == was[i]
    {
      var file := Blanked(was);
      BlankFile(file);
      var table := file[FATST..FATST + FATZ];
      if mbr { table := table[0 := LAST]; }
      if boot { table := table[FATZ - 2 := LAST][FATZ - 1 := LAST]; }
      WriteFat(file, table);
      img := WriteAt(file, FATST, table);
      fat := new byte[FATZ](_ => 0);
    }

    method LoadFat()
      requires Valid()
      modifies fat
      ensures fat[..] == V().fat
    {
      var i := 0;
      while i < FATZ
        invariant 0 <= i <= FATZ && forall j :: 0 <= j < i ==> fat[j] == img[FATST + j]
      {
        fat[i] := img[FATST + i];
        i := i + 1;
      }
    }

    method SaveFat()
      requires Valid()
      modifies this`img
      ensures Valid() && V() == old(V()).(fat := fat[..])
    {
      WriteFat(img, fat[..]);
      img := WriteAt(img, FATST, fat[..]);
    }

    method SaveEntry(slot: nat, entry: seq<byte>)
      requires Valid() && slot < DIRZ && |entry| == ENTRYZ
      modifies this`img
      ensures Valid() && V() == old(V()).(dir := old(V()).dir[slot := entry])
    {
      WriteEntry(img, slot, entry);
      img := WriteAt(img, EntryOffset(slot), entry);
    }

    /** `find`. */
    method FindName(key: seq<byte>) returns (r: Option<nat>)
      requires Valid()
      ensures r == Find(V().dir, key, 0)
    {
      var count := 0;
      ghost var dir := V().dir;
      while count < DIRZ
        invariant 0 <= count <= DIRZ && Find(dir, key, 0) == Find(dir, key, count)
      {
        var entry := EntryOf(img, count);
        if entry[0] == 0xff { return None; }
        if entry[..11] == key { return Some(count); }
        count := count + 1;
      }
      return None;
    }

    method FindSlot() returns (r: Option<nat>)
      requires Valid()
      ensures r == FreeSlot(V().dir, 0)
    {
      var count := 0;
      ghost var dir := V().dir;
      while count < DIRZ
        invariant 0 <= count <= DIRZ && FreeSlot(dir, 0) == FreeSlot(dir, count)
      {
        var entry := EntryOf(img, count);
        if entry[0] == 0 || entry[0] == 0xff { return Some(count); }
        count := count + 1;
      }
      return None;
    }

    /** `findgran`: takes the lowest free granule, or none when the table is full. */
    method FindGran() returns (x: Option<byte>)
      requires Valid()
      modifies fat
      ensures x == None ==> FreeSet(old(fat[..])) == {} && fat[..] == old(fat[..])
      ensures x.Some? ==> x.value < FATZ && old(fat[x.value]) == FREE && fat[..] == old(fat[..])[x.value := LAST]
      ensures x.Some? ==> forall g :: 0 <= g < x.value ==> old(fat[g]) != FREE
    {
      var i := 0;
      while i < FATZ
        invariant 0 <= i <= FATZ && fat[..] == old(fat[..])
        invariant forall g :: 0 <= g < i ==> fat[g] != FREE
      {
        if fat[i] == FREE {
          fat[i] := LAST;
          return Some(i);
        }
        i := i + 1;
      }
      return None;
    }

    /**
     `delchain`. It stops on every table whose links are in range, cyclic ones included; on a proper chain it frees
     exactly the granules of the chain, and it never does anything but free granules.
     */
    method DelChain(first: byte)
      requires Valid() && LinksInRange(fat[..]) && (first < FATZ || first >= LAST)
      modifies fat
      ensures forall g :: 0 <= g < FATZ ==> fat[g] == old(fat[g]) || fat[g] == FREE
      ensures Walk(old(fat[..]), first, FATZ).Some? ==>
        Freed(old(fat[..]), fat[..], Walk(old(fat[..]), first, FATZ).value)
    {
      hide UsedSet, Deleting;
      var f: nat := first;
      ghost var was := fat[..];
      ghost var n: nat := 0;
      StartDeleting(was, first);
      while f < LAST
        invariant LinksInRange(fat[..]) && (f < FATZ || f >= LAST)
        invariant forall g :: 0 <= g < FATZ ==> fat[g] == was[g] || fat[g] == FREE
        invariant Deleting(was, fat[..], first, n, f)
        decreases |UsedSet(fat[..])|, f < LAST
      {
        ghost var before := fat[..];
        var next := fat[f];
        fat[f] := FREE;
        assert fat[..] == before[f := FREE];
        Freeing(before, f);
        DeletingNext(was, before, first, n, f);
        f := next;
        n := n + 1;
      }
      Deleted(was, fat[..], first, n, f);
    }

    /** `countchain`. */
    method CountChain(first: byte) returns (c: nat)
      requires Valid() && Walk(fat[..], first, FATZ).Some?
      ensures c == |Walk(fat[..], first, FATZ).value|
    {
      c := 0;
      var f: nat := first;
      ghost var left := FATZ;
      while f < LAST
        invariant 0 <= left <= FATZ && Walk(fat[..], f, left).Some?
        invariant c + |Walk(fat[..], f, left).value| == |Walk(fat[..], first, FATZ).value|
        decreases left
      {
        f := fat[f];
        c := c + 1;
        left := left - 1;
      }
    }

    /** `granfree`. */
    method GranFree() returns (c: nat)
      requires Valid()
      ensures c == |FreeSet(fat[..])|
    {
      c := 0;
      var x := 0;
      while x < FATZ
        invariant 0 <= x <= FATZ && c == |FreeSet(fat[..x])|
      {
        FreeSetStep(fat[..x], fat[x]);
        assert fat[..x + 1] == fat[..x] + [fat[x]];
        if fat[x] == FREE { c := c + 1; }
        x := x + 1;
      }
      assert fat[..x] == fat[..];
    }

    /** The size of the next write of `get`: a whole granule, or what is left of the last one. */
    method NextSize(entry: seq<byte>, gran: nat) returns (size: int)
      requires Valid() && |entry| == ENTRYZ && gran < FATZ
      ensures size == if fat[gran] >= LAST then LastSize(fat[gran], Remainder(entry)) else GRANZ
    {
      size := GRANZ;
      if fat[gran] >= LAST {
        size := (fat[gran] as int) % 64 - 1;
        size := size * SECZ;
        size := size + 256 * (entry[14] as int) + entry[15];
      }
    }

    /** The copying loop of `get`; `ok` is false where `write` is asked for a negative number of bytes. */
    method CopyOut(entry: seq<byte>) returns (ok: bool, dst: seq<byte>)
      requires Valid() && |entry| == ENTRYZ && fat[..] == V().fat && GoodFile(V(), entry)
      ensures Content(V(), entry) == if ok then Whole(dst) else Fails(dst)
    {
      dst := [];
      ghost var v, n := V(), 0;
      ghost var c := Chain(v.fat, entry);
      FileParts(v, entry);
      ContentParts(v, entry);
      var gran: nat, size: int := entry[13], GRANZ;
      while size == GRANZ
        invariant 0 <= n <= |c|
        invariant size == GRANZ ==> n < |c| && gran == c[n] && dst == Joined(v.grans, c[..n])
        invariant size != GRANZ ==> Content(v, entry) == Whole(dst)
        decreases |c| - n
      {
        assert fat[gran] == v.fat[c[n]];
        size := NextSize(entry, gran);
        if size < 0 { return false, dst; }
        var buf := GranOf(img, gran);
        assert buf == v.grans[c[n]];
        if n < |c| - 1 {
          JoinedAppend(v.grans, c, n);
          assert buf[..size] == buf;
        }
        dst := dst + buf[..size];
        gran := fat[gran];
        n := n + 1;
      }
      ok := true;
    }

    /** `get`: copies out exactly what the volume's file holds, or fails where its last length is negative. */
    method Get(key: seq<byte>) returns (r: GetResult, dst: seq<byte>)
      requires Valid() && ValidKey(key) && FilesGood(V())
      modifies fat
      ensures r == NotFound <==> DecbVolume.Get(V(), key) == None
      ensures r == GetOk ==> DecbVolume.Get(V(), key) == Some(Whole(dst))
      ensures r == WriteError ==> DecbVolume.Get(V(), key) == Some(Fails(dst))
    {
      LoadFat();
      var slot := FindName(key);
      if slot.None? { return NotFound, []; }
      var entry := EntryOf(img, slot.value);
      KeyByte(entry);
      var ok;
      ok, dst := CopyOut(entry);
      r := if ok then GetOk else WriteError;
    }

    /** `rm`. */
    method Rm(key: seq<byte>, ghost reserved: set<nat>) returns (found: bool, ghost slot: nat)
      requires Valid() && ValidKey(key) && Inv(V(), reserved)
      modifies this`img, fat
      ensures Valid() && found == Find(old(V()).dir, key, 0).Some?
      ensures found ==> Removes(old(V()), V(), reserved, slot, key)
      ensures !found ==> img == old(img)
    {
      slot := 0;
      LoadFat();
      var k := FindName(key);
      if k.None? { return false, 0; }
      slot := k.value;
      var entry := EntryOf(img, k.value);
      KeyByte(entry);
      InvLinksInRange(V(), reserved);
      WalkIsChain(V().fat, First(entry), FATZ);
      DelChain(entry[13]);
      entry := entry[0 := 0];
      SaveFat();
      SaveEntry(k.value, entry);
      found := true;
    }

    /** `seekgran` and `write`. */
    method WriteChunk(gran: byte, chunk: seq<byte>)
      requires Valid() && gran < FATZ && |chunk| <= GRANZ
      modifies this`img
      ensures Valid() && V() == old(V()).(grans := old(V()).grans[gran := chunk + old(V()).grans[gran][|chunk|..]])
    {
      WriteGran(img, gran, chunk);
      img := WriteAt(img, GranOffset(gran), chunk);
    }

    /** `x = fat[x] = findgran()`. */
    method LinkNext(x: byte) returns (next: Option<byte>)
      requires Valid() && x < FATZ && fat[x] != FREE
      modifies fat
      ensures next == None ==> FreeSet(old(fat[..])) == {}
      ensures next.Some? ==> next.value < FATZ && old(fat[next.value]) == FREE
      ensures next.Some? ==> fat[..] == old(fat[..])[next.value := LAST][x := next.value]
      ensures next.Some? ==> |FreeSet(fat[..])| == |FreeSet(old(fat[..]))| - 1
    {
      ghost var before := fat[..];
      next := FindGran();
      if next.None? { return; }
      FreeSetTaken(before, next.value);
      FreeSetLinked(fat[..], x, next.value);
      ghost var taken := fat[..];
      fat[x] := next.value;
      assert fat[..] == taken[x := next.value];
    }

    /**
     The copying loop of `put`. `None` when it runs out of granules; there the C code has already truncated findgran's
     -1 to 255 and goes on outside the FAT.
     */
    method WriteData(data: seq<byte>) returns (done: Option<(byte, byte)>, ghost c: seq<nat>)
      requires Valid() && fat[..] == V().fat
      modifies this`img, fat
      ensures Valid()
      ensures done.Some? <==> |FreeSet(old(fat[..]))| >= Granules(|data|)
      ensures done.Some? ==> |c| == Granules(|data|) && Writing(old(V()), V(), fat[..], c, data)
      ensures done.Some? ==> Filled(old(V()).grans, V().grans, c, data)
      ensures done.Some? ==> done.value == (c[0], c[|c| - 1])
    {
      hide Writing, Filled, Vol, FreeSet, Walk, Linked, Elements, WriteAt;
      ghost var v0 := V();
      var x := FindGran();
      if x.None? { return None, []; }
      var first := x.value;
      c := [x.value];
      StartWriting(v0, fat[..], first, data);
      FreeSetTaken(v0.fat, first);
      var pos := 0;
      while true
        invariant Valid() && x.Some? && |c| > 0 && c[0] == first && c[|c| - 1] == x.value
        invariant pos == GRANZ * (|c| - 1) <= |data| && x.value < FATZ && fat[x.value] == LAST
        invariant Writing(v0, V(), fat[..], c, data)
        invariant |FreeSet(fat[..])| + |c| == |FreeSet(v0.fat)|
        decreases |data| - pos
      {
        ghost var v := V();
        var size := if |data| - pos < GRANZ then |data| - pos else GRANZ;
        WriteChunk(x.value, data[pos..pos + size]);
        Wrote(v0, v, V(), fat[..], c, data, size);
        if size < GRANZ {
          return Some((first, x.value)), c;
        }
        v := V();
        ghost var before := fat[..];
        x := LinkNext(x.value);
        if x.None? { return None, c; }
        ExtendWriting(v0, v, before, c, data, x.value);
        c := c + [x.value];
        pos := pos + GRANZ;
      }
    }

    /** `put`. It succeeds exactly when the name is new, there is an entry, and there are L/2304 + 1 free granules. */
    method Put(key: seq<byte>, kind: byte, aflag: byte, data: seq<byte>) returns (r: PutResult, ghost slot: nat,
          ghost c: seq<nat>)
      requires Valid() && ValidKey(key)
      modifies this`img, fat
      ensures Valid()
      ensures r == FileExists <==> Find(old(V()).dir, key, 0).Some?
      ensures r == NoEntry <==> r != FileExists && FreeSlot(old(V()).dir, 0) == None
      ensures r == NoGranule <==> r != FileExists && r != NoEntry && |FreeSet(old(V()).fat)| < Granules(|data|)
      ensures r == FileExists || r == NoEntry ==> img == old(img)
      ensures r == PutOk ==> PutStep(old(V()), V(), slot, key, kind, aflag, data, c)
    {
      hide Find, FreeSlot, FreeSet, Walk, Linked, Filled, Elements, Vol;
      slot, c := 0, [];
      LoadFat();
      var found := FindName(key);
      if found.Some? { r := FileExists; return; }
      var k := FindSlot();
      if k.None? { r := NoEntry; return; }
      slot := k.value;
      var entry := EntryOf(img, k.value);
      ghost var v0 := V();
      var done;
      done, c := WriteData(data);
      if done.None? { r := NoGranule; return; }
      ghost var linked, v1 := fat[..], V();
      var size := |data| % GRANZ;
      fat[done.value.1] := LAST + (size + SECZ - 1) / SECZ;
      assert fat[..] == linked[done.value.1 := Mark(|data|)];
      MarkLast(v0.fat, linked, c, Mark(|data|));
      entry := key + [kind, aflag, done.value.0, 0, size % SECZ] + entry[16..];
      SaveEntry(k.value, entry);
      SaveFat();
      r := PutOk;
    }
  }

  /** A file's chain, link by link. */
  lemma FileParts(v: Volume, e: seq<byte>)
    requires Shaped(v) && |e| == ENTRYZ && GoodFile(v, e)
    ensures var c := Chain(v.fat, e); var n := |c| - 1;
      && n >= 0 && c[0] == First(e)
      && (forall i :: 0 <= i <= n ==> c[i] < FATZ)
      && (forall i :: 0 <= i <= n ==> (v.fat[c[i]] >= LAST <==> i == n))
      && (forall i :: 0 <= i < n ==> v.fat[c[i]] == c[i + 1])
  {
    WalkIsChain(v.fat, First(e), FATZ);
    var c := Chain(v.fat, e);
    forall i | 0 <= i < |c| - 1 ensures v.fat[c[i]] < LAST { assert v.fat[c[i]] == c[i + 1]; }
  }

  /** A file's content in terms of its last granule. */
  lemma ContentParts(v: Volume, e: seq<byte>)
    requires Shaped(v) && |e| == ENTRYZ && GoodFile(v, e)
    ensures var c := Chain(v.fat, e); var n := |c| - 1; var size := LastSize(v.fat[c[n]], Remainder(e));
      && size < GRANZ
      && Content(v, e) ==
        (if size < 0 then Fails(Joined(v.grans, c[..n])) else Whole(Joined(v.grans, c[..n]) + v.grans[c[n]][..size]))
  {
    hide Walk, Joined;
  }

  lemma {:induction false} JoinedAppend(grans: seq<seq<byte>>, c: seq<nat>, n: nat)
    requires n < |c| && forall i :: 0 <= i < |c| ==> c[i] < |grans|
    ensures Joined(grans, c[..n + 1]) == Joined(grans, c[..n]) + grans[c[n]]
    decreases n
  {
    if n == 0 {
      assert c[..1][1..] == [];
    } else {
      assert c[..n + 1][1..] == c[1..][..n] && c[..n][1..] == c[1..][..n - 1];
      JoinedAppend(grans, c[1..], n - 1);
    }
  }

  // ----- the copying loop of put -----

  /** All of `data` up to the last granule of `c` has been written, and the FAT copy links `c`. */
  ghost predicate Writing(v0: Volume, v: Volume, fat: seq<byte>, c: seq<nat>, data: seq<byte>) {
    && Shaped(v0) && Shaped(v) && |fat| == FATZ && |c| > 0 && GRANZ * (|c| - 1) <= |data|
    && v.dir == v0.dir && v.fat == v0.fat
    && Fresh(v0.fat, c) && Linked(v0.fat, fat, c, LAST)
    && (forall i :: 0 <= i < |c| - 1 ==> v.grans[c[i]] == data[GRANZ * i..GRANZ * (i + 1)])
    && (forall g :: 0 <= g < FATZ && g !in Elements(c) ==> v.grans[g] == v0.grans[g])
  }

  lemma StartWriting(v0: Volume, fat: seq<byte>, x: nat, data: seq<byte>)
    requires Shaped(v0) && x < FATZ && v0.fat[x] == FREE && fat == v0.fat[x := LAST]
    ensures Writing(v0, v0, fat, [x], data)
  {
    assert [x][0] in Elements([x]);
  }

  lemma Wrote(v0: Volume, v: Volume, v': Volume, fat: seq<byte>, c: seq<nat>, data: seq<byte>, size: nat)
    requires Writing(v0, v, fat, c, data)
    requires size == if |data| - GRANZ * (|c| - 1) < GRANZ then |data| - GRANZ * (|c| - 1) else GRANZ
    requires var pos := GRANZ * (|c| - 1);
      v' == v.(grans := v.grans[c[|c| - 1] := data[pos..pos + size] + v.grans[c[|c| - 1]][size..]])
    ensures Writing(v0, v', fat, c, data)
    ensures v'.grans[c[|c| - 1]][..size] == data[GRANZ * (|c| - 1)..GRANZ * (|c| - 1) + size]
    ensures size < GRANZ ==> |c| == Granules(|data|) && Filled(v0.grans, v'.grans, c, data)
    ensures size == GRANZ ==> v'.grans[c[|c| - 1]] == data[GRANZ * (|c| - 1)..GRANZ * |c|] && |c| < Granules(|data|)
  {
    var m := |c| - 1;
    assert c[m] in Elements(c);
    assert Shaped(v');
    if size < GRANZ {
      assert |data| == GRANZ * m + size;
      assert |data| / GRANZ == m && |data| % GRANZ == size;
    } else {
      assert |data| / GRANZ >= |c|;
      assert v'.grans[c[m]][..size] == v'.grans[c[m]];
    }
  }

  lemma LinkedNotFree(fat: seq<byte>, linked: seq<byte>, c: seq<nat>)
    requires |fat| == |linked| == FATZ && |c| > 0 && Fresh(fat, c) && Linked(fat, linked, c, LAST)
    ensures forall g :: g in Elements(c) ==> linked[g] != FREE
    ensures forall g :: 0 <= g < FATZ && linked[g] == FREE ==> fat[g] == FREE && g !in Elements(c)
  {
    forall i | 0 <= i < |c| ensures linked[c[i]] != FREE {
      if i < |c| - 1 { assert linked[c[i]] == c[i + 1]; }
    }
  }

  lemma ElementsAppend(c: seq<nat>, x: nat)
    ensures Elements(c + [x]) == Elements(c) + {x}
  {
    var c' := c + [x];
    assert forall i :: 0 <= i < |c| ==> c'[i] == c[i];
    assert c'[|c|] == x;
  }

  lemma ExtendLinks(fat: seq<byte>, linked: seq<byte>, c: seq<nat>, next: byte)
    requires |fat| == |linked| == FATZ && |c| > 0 && Fresh(fat, c) && Linked(fat, linked, c, LAST)
    requires next < FATZ && linked[next] == FREE
    ensures Fresh(fat, c + [next]) && Linked(fat, linked[next := LAST][c[|c| - 1] := next], c + [next], LAST)
  {
    LinkedNotFree(fat, linked, c);
    ExtendFresh(fat, c, next);
    ExtendLinked(fat, linked, c, next);
  }

  lemma ExtendFresh(fat: seq<byte>, c: seq<nat>, next: byte)
    requires |fat| == FATZ && Fresh(fat, c) && next < FATZ && fat[next] == FREE && next !in Elements(c)
    ensures Fresh(fat, c + [next])
  {
    forall i | 0 <= i < |c| ensures c[i] in Elements(c) {}
  }

  lemma ExtendLinked(fat: seq<byte>, linked: seq<byte>, c: seq<nat>, next: byte)
    requires |fat| == |linked| == FATZ && |c| > 0 && Fresh(fat, c) && Linked(fat, linked, c, LAST)
    requires next < FATZ && next !in Elements(c)
    ensures Linked(fat, linked[next := LAST][c[|c| - 1] := next], c + [next], LAST)
  {
    hide Elements;
    InElements(c);
    ElementsAppend(c, next);
  }

  lemma InElements(c: seq<nat>)
    ensures forall i :: 0 <= i < |c| ==> c[i] in Elements(c)
  {
  }

  lemma ExtendWriting(v0: Volume, v: Volume, fat: seq<byte>, c: seq<nat>, data: seq<byte>, next: byte)
    requires Writing(v0, v, fat, c, data) && GRANZ * |c| <= |data|
    requires v.grans[c[|c| - 1]] == data[GRANZ * (|c| - 1)..GRANZ * |c|]
    requires next < FATZ && fat[next] == FREE
    ensures Writing(v0, v, fat[next := LAST][c[|c| - 1] := next], c + [next], data)
  {
    hide Linked;
    ExtendLinks(v0.fat, fat, c, next);
    ElementsAppend(c, next);
  }

  lemma FreeSetTaken(fat: seq<byte>, g: nat)
    requires g < |fat| && fat[g] == FREE
    ensures |FreeSet(fat[g := LAST])| == |FreeSet(fat)| - 1
  {
    var after := fat[g := LAST];
    forall x: nat ensures x in FreeSet(after) <==> x in FreeSet(fat) && x != g {
      if x < |fat| { assert after[x] == if x == g then LAST else fat[x]; }
    }
    assert FreeSet(after) == FreeSet(fat) - {g};
  }

  lemma InFreeSet(fat: seq<byte>, x: nat)
    ensures x in FreeSet(fat) <==> x < |fat| && fat[x] == FREE
  {
  }

  lemma FreeSetLinked(fat: seq<byte>, g: nat, next: byte)
    requires g < |fat| && fat[g] != FREE && next != FREE
    ensures FreeSet(fat[g := next]) == FreeSet(fat)
  {
    var after := fat[g := next];
    forall x: nat ensures x in FreeSet(after) <==> x in FreeSet(fat) {
      InFreeSet(fat, x);
      InFreeSet(after, x);
      if x < |fat| && x != g { assert after[x] == fat[x]; }
      assert after[g] == next;
    }
  }

  lemma MarkLast(fat: seq<byte>, linked: seq<byte>, c: seq<nat>, mark: byte)
    requires |fat| == |linked| == FATZ && |c| > 0 && Fresh(fat, c) && Linked(fat, linked, c, LAST)
    ensures Linked(fat, linked[c[|c| - 1] := mark], c, mark)
  {
    assert c[|c| - 1] in Elements(c);
  }

  lemma FreeSetStep(fat: seq<byte>, b: byte)
    ensures |FreeSet(fat + [b])| == |FreeSet(fat)| + if b == FREE then 1 else 0
  {
    assert forall g :: 0 <= g < |fat| ==> (fat + [b])[g] == fat[g];
    forall x: nat ensures x in FreeSet(fat + [b]) <==> x in FreeSet(fat) || (b == FREE && x == |fat|) {
      InFreeSet(fat, x);
      InFreeSet(fat + [b], x);
      if x == |fat| { assert (fat + [b])[x] == b; }
    }
    assert FreeSet(fat + [b]) == FreeSet(fat) + if b == FREE then {|fat|} else {};
  }

  lemma Freeing(fat: seq<byte>, g: nat)
    requires g < |fat|
    ensures fat[g] != FREE ==> |UsedSet(fat[g := FREE])| < |UsedSet(fat)|
    ensures fat[g] == FREE ==> fat[g := FREE] == fat
  {
    var after := fat[g := FREE];
    assert forall x :: 0 <= x < |fat| && x != g ==> after[x] == fat[x];
    forall x: nat ensures x in UsedSet(after) <==> x in UsedSet(fat) - {g} {
      if x < |fat| { assert after[x] == if x == g then FREE else fat[x]; }
    }
    assert UsedSet(after) == UsedSet(fat) - {g};
  }

  /** Where `delchain` stands on a proper chain: its first n granules are free, and f is the next one, or a mark. */
  ghost predicate Deleting(was: seq<byte>, now: seq<byte>, first: nat, n: nat, f: nat)
    requires |was| == |now| == FATZ
  {
    Walk(was, first, FATZ).Some? ==>
      var c := Walk(was, first, FATZ).value;
      && n <= |c| && Freed(was, now, c[..n]) && (if n < |c| then f == c[n] else f >= LAST)
  }

  lemma StartDeleting(was: seq<byte>, first: byte)
    requires |was| == FATZ
    ensures Deleting(was, was, first, 0, first)
  {
    if Walk(was, first, FATZ).Some? && first < LAST { WalkIsChain(was, first, FATZ); }
  }

  lemma DeletingNext(was: seq<byte>, before: seq<byte>, first: nat, n: nat, f: nat)
    requires |was| == |before| == FATZ && Deleting(was, before, first, n, f) && f < FATZ
    ensures Deleting(was, before[f := FREE], first, n + 1, before[f])
  {
    if Walk(was, first, FATZ).Some? {
      var c := Walk(was, first, FATZ).value;
      WalkEmpty(was, first);
      WalkIsChain(was, first, FATZ);
      FreeingNext(was, before, before[f := FREE], c, n);
    }
  }

  lemma WalkEmpty(fat: seq<byte>, first: nat)
    requires |fat| == FATZ && Walk(fat, first, FATZ).Some?
    ensures first >= LAST ==> Walk(fat, first, FATZ).value == []
  {
  }

  lemma Deleted(was: seq<byte>, now: seq<byte>, first: nat, n: nat, f: nat)
    requires |was| == |now| == FATZ && Deleting(was, now, first, n, f) && f >= LAST
    ensures Walk(was, first, FATZ).Some? ==> Freed(was, now, Walk(was, first, FATZ).value)
  {
    if Walk(was, first, FATZ).Some? {
      var c := Walk(was, first, FATZ).value;
      WalkEmpty(was, first);
      if first < LAST { WalkIsChain(was, first, FATZ); }
      assert c[..|c|] == c;
    }
  }

  lemma FreeingNext(was: seq<byte>, before: seq<byte>, after: seq<byte>, c: seq<nat>, n: nat)
    requires |was| == |before| == |after| == FATZ && n < |c| && IsChain(was, c[0], c)
    requires Freed(was, before, c[..n]) && after == before[c[n] := FREE]
    ensures Freed(was, after, c[..n + 1])
    ensures before[c[n]] == was[c[n]]
    ensures n + 1 < |c| ==> was[c[n]] == c[n + 1]
    ensures n + 1 == |c| ==> was[c[n]] >= LAST
  {
    assert Elements(c[..n + 1]) == Elements(c[..n]) + {c[n]} by {
      assert forall i :: 0 <= i < n ==> c[..n + 1][i] == c[..n][i];
      assert c[..n + 1][n] == c[n];
    }
    assert c[n] !in Elements(c[..n]);
  }
}
