/** Creating and removing files on a volume, and what every run of such commands keeps. */
module DecbFiles {
  import opened Bytes
  import opened DecbVolume

  // ----- what put and rm do -----

  ghost function Granules(length: nat): nat { length / GRANZ + 1 }

  /** The mark of a chain's last granule: its number of sectors, counting a part as one. */
  function Mark(length: nat): (m: byte)
    ensures LAST <= m <= LAST + 9
  {
    LAST + (length % GRANZ + SECZ - 1) / SECZ
  }

  /** The entry `put` writes: the slot's old unused bytes are kept. */
  function NewEntry(was: seq<byte>, key: seq<byte>, kind: byte, aflag: byte, first: byte, length: nat): (e: seq<byte>)
    requires |was| == ENTRYZ && |key| == 11
    ensures |e| == ENTRYZ && Key(e) == key && e[0] == key[0] && First(e) == first
    ensures Remainder(e) == length % GRANZ % SECZ
  {
    key + [kind, aflag, first, 0, length % GRANZ % SECZ] + was[16..]
  }

  /** Fresh granules: distinct and free. */
  ghost predicate Fresh(fat: seq<byte>, c: seq<nat>)
    requires |fat| == FATZ
  {
    && (forall i :: 0 <= i < |c| ==> c[i] < FATZ && fat[c[i]] == FREE)
    && (forall i, j :: 0 <= i < j < |c| ==> c[i] != c[j])
  }

  ghost predicate Linked(fat: seq<byte>, fat': seq<byte>, c: seq<nat>, mark: byte)
    requires |fat| == |fat'| == FATZ && |c| > 0 && forall i :: 0 <= i < |c| ==> c[i] < FATZ
  {
    && (forall i :: 0 <= i < |c| - 1 ==> fat'[c[i]] == c[i + 1])
    && fat'[c[|c| - 1]] == mark
    && (forall g :: 0 <= g < FATZ && g !in Elements(c) ==> fat'[g] == fat[g])
  }

  ghost predicate Filled(grans: seq<seq<byte>>, grans': seq<seq<byte>>, c: seq<nat>, data: seq<byte>)
    requires |grans| == |grans'| == FATZ && |c| == Granules(|data|) && forall i :: 0 <= i < |c| ==> c[i] < FATZ
    requires forall g :: 0 <= g < FATZ ==> |grans[g]| == |grans'[g]| == GRANZ
  {
    && (forall i :: 0 <= i < |c| - 1 ==> grans'[c[i]] == data[GRANZ * i..GRANZ * (i + 1)])
    && grans'[c[|c| - 1]][..|data| % GRANZ] == data[GRANZ * (|c| - 1)..]
    && (forall g :: 0 <= g < FATZ && g !in Elements(c) ==> grans'[g] == grans[g])
  }

  /** `v'` is `v` with a new file in directory slot `slot`, using the granules `c`. */
  ghost predicate Placed(v: Volume, v': Volume, slot: nat, key: seq<byte>, kind: byte, aflag: byte, data: seq<byte>,
        c: seq<nat>) {
    && Shaped(v) && Shaped(v') && slot < DIRZ && |key| == 11
    && |c| == Granules(|data|) && Fresh(v.fat, c)
    && Linked(v.fat, v'.fat, c, Mark(|data|))
    && Filled(v.grans, v'.grans, c, data)
    && v'.dir == v.dir[slot := NewEntry(v.dir[slot], key, kind, aflag, c[0], |data|)]
  }

  /** A table with the granules of `c` given back. */
  ghost predicate Freed(fat: seq<byte>, fat': seq<byte>, c: seq<nat>)
    requires |fat| == |fat'| == FATZ
  {
    forall g :: 0 <= g < FATZ ==> fat'[g] == if g in Elements(c) then FREE else fat[g]
  }

  /** `v'` is `v` without the file in slot `slot`. */
  ghost predicate Removed(v: Volume, v': Volume, slot: nat) {
    && Shaped(v) && Shaped(v') && slot < DIRZ && GoodFile(v, v.dir[slot])
    && Freed(v.fat, v'.fat, Chain(v.fat, v.dir[slot]))
    && v'.grans == v.grans && v'.dir == v.dir[slot := v.dir[slot][0 := 0]]
  }

  /** The slot `put` takes: the first deleted or never used one. */
  function FreeSlot(dir: seq<seq<byte>>, k: nat): (r: Option<nat>)
    requires k <= |dir| && forall j :: 0 <= j < |dir| ==> |dir[j]| == ENTRYZ
    ensures r.Some? ==> k <= r.value < |dir| && !Live(dir[r.value]) && forall j :: k <= j < r.value ==> Live(dir[j])
    ensures r.None? ==> forall j :: k <= j < |dir| ==> Live(dir[j])
    decreases |dir| - k
  {
    if k == |dir| then None else if !Live(dir[k]) then Some(k) else FreeSlot(dir, k + 1)
  }

  // ----- files that an operation does not touch -----

  lemma {:induction false} WalkUnchanged(fat: seq<byte>, fat': seq<byte>, g: nat, fuel: nat)
    requires |fat| == |fat'| == FATZ && Walk(fat, g, fuel).Some?
    requires forall i :: 0 <= i < |Walk(fat, g, fuel).value| ==> var x := Walk(fat, g, fuel).value[i]; x < FATZ ==>
      fat'[x] == fat[x]
    ensures Walk(fat', g, fuel) == Walk(fat, g, fuel)
    decreases fuel
  {
    if g < LAST {
      var c := Walk(fat, g, fuel).value;
      assert c[0] == g;
      var t := Walk(fat, fat[g], fuel - 1).value;
      forall i | 0 <= i < |t| ensures t[i] < FATZ ==> fat'[t[i]] == fat[t[i]] { assert c[i + 1] == t[i]; }
      WalkUnchanged(fat, fat', fat[g], fuel - 1);
    }
  }

  lemma {:induction false} JoinedUnchanged(grans: seq<seq<byte>>, grans': seq<seq<byte>>, c: seq<nat>)
    requires |grans| == |grans'| && forall i :: 0 <= i < |c| ==> c[i] < |grans| && grans'[c[i]] == grans[c[i]]
    ensures Joined(grans', c) == Joined(grans, c)
    decreases |c|
  {
    if c != [] { JoinedUnchanged(grans, grans', c[1..]); }
  }

  /** A file none of whose granules changed still has the same chain and content. */
  lemma FileUnchanged(v: Volume, v': Volume, e: seq<byte>)
    requires Shaped(v) && Shaped(v') && |e| == ENTRYZ && GoodFile(v, e)
    requires forall i :: 0 <= i < |Chain(v.fat, e)| ==> var g := Chain(v.fat, e)[i];
      v'.fat[g] == v.fat[g] && v'.grans[g] == v.grans[g]
    ensures GoodFile(v', e) && Chain(v'.fat, e) == Chain(v.fat, e) && Content(v', e) == Content(v, e)
  {
    WalkUnchanged(v.fat, v'.fat, First(e), FATZ);
    var c := Chain(v.fat, e);
    JoinedUnchanged(v.grans, v'.grans, c[..|c| - 1]);
  }

  // ----- put -----

  /** The circumstances under which `put` gets as far as creating the file. */
  ghost predicate PutStep(v: Volume, v': Volume, slot: nat, key: seq<byte>, kind: byte, aflag: byte, data: seq<byte>,
        c: seq<nat>) {
    && Placed(v, v', slot, key, kind, aflag, data, c)
    && ValidKey(key) && Find(v.dir, key, 0) == None && FreeSlot(v.dir, 0) == Some(slot)
  }

  ghost predicate Puts(v: Volume, v': Volume, reserved: set<nat>, slot: nat, key: seq<byte>, kind: byte, aflag: byte,
        data: seq<byte>, c: seq<nat>) {
    Inv(v, reserved) && PutStep(v, v', slot, key, kind, aflag, data, c)
  }

  lemma OldFileKept(v: Volume, v': Volume, reserved: set<nat>, slot: nat, key: seq<byte>, kind: byte, aflag: byte,
        data: seq<byte>, c: seq<nat>, k: nat)
    requires Puts(v, v', reserved, slot, key, kind, aflag, data, c)
    requires k < DIRZ && Live(v.dir[k])
    ensures k != slot && v'.dir[k] == v.dir[k] && Elements(Chain(v.fat, v.dir[k])) !! Elements(c)
    ensures GoodFile(v', v.dir[k]) && Chain(v'.fat, v.dir[k]) == Chain(v.fat, v.dir[k])
    ensures Content(v', v.dir[k]) == Content(v, v.dir[k])
  {
    var was := Chain(v.fat, v.dir[k]);
    forall i | 0 <= i < |was| ensures was[i] !in Elements(c) {
      assert v.fat[was[i]] != FREE;
    }
    FileUnchanged(v, v', v.dir[k]);
  }

  lemma LinkedIsChain(fat: seq<byte>, fat': seq<byte>, c: seq<nat>, mark: byte)
    requires |fat| == |fat'| == FATZ && |c| > 0 && Fresh(fat, c) && Linked(fat, fat', c, mark)
    requires LAST <= mark <= LAST + 9
    ensures Walk(fat', c[0], FATZ) == Some(c)
    ensures forall i :: 0 <= i < |c| ==> fat'[c[i]] != FREE
  {
    assert IsChain(fat', c[0], c);
    ChainIsWalk(fat', c[0], c);
    forall i | 0 <= i < |c| ensures fat'[c[i]] != FREE {
      if i < |c| - 1 { assert fat'[c[i]] == c[i + 1]; }
    }
  }

  lemma NewFileGood(v: Volume, v': Volume, slot: nat, key: seq<byte>, kind: byte, aflag: byte, data: seq<byte>,
        c: seq<nat>)
    requires Placed(v, v', slot, key, kind, aflag, data, c)
    ensures GoodFile(v', v'.dir[slot]) && Chain(v'.fat, v'.dir[slot]) == c
  {
    LinkedIsChain(v.fat, v'.fat, c, Mark(|data|));
    var e := v'.dir[slot];
    assert First(e) == c[0] && Remainder(e) < SECZ;
  }

  lemma PutFilesGood(v: Volume, v': Volume, reserved: set<nat>, slot: nat, key: seq<byte>, kind: byte, aflag: byte,
        data: seq<byte>, c: seq<nat>)
    requires Puts(v, v', reserved, slot, key, kind, aflag, data, c)
    ensures FilesGood(v') && Live(v'.dir[slot]) && Chain(v'.fat, v'.dir[slot]) == c
    ensures forall k :: 0 <= k < DIRZ && k != slot ==> v'.dir[k] == v.dir[k]
    ensures forall k :: 0 <= k < DIRZ && k != slot && Live(v'.dir[k]) ==>
      Chain(v'.fat, v'.dir[k]) == Chain(v.fat, v.dir[k])
    ensures forall k :: 0 <= k < DIRZ && k != slot && Live(v'.dir[k]) ==>
      Elements(Chain(v.fat, v.dir[k])) !! Elements(c)
  {
    NewFileGood(v, v', slot, key, kind, aflag, data, c);
    forall k | 0 <= k < DIRZ && Live(v.dir[k])
      ensures GoodFile(v', v.dir[k]) && Chain(v'.fat, v.dir[k]) == Chain(v.fat, v.dir[k])
      ensures Elements(Chain(v.fat, v.dir[k])) !! Elements(c)
    {
      OldFileKept(v, v', reserved, slot, key, kind, aflag, data, c, k);
    }
  }

  lemma PutDirEnds(v: Volume, v': Volume, reserved: set<nat>, slot: nat, key: seq<byte>, kind: byte, aflag: byte,
        data: seq<byte>, c: seq<nat>)
    requires Puts(v, v', reserved, slot, key, kind, aflag, data, c)
    ensures DirEnds(v')
  {
    forall j, k | 0 <= j < k < DIRZ && v'.dir[j][0] == 0xff ensures v'.dir[k][0] == 0xff {
      assert j != slot && v.dir[j][0] == 0xff && !Live(v.dir[j]);
      assert slot < j;
    }
  }

  lemma PutAccounted(v: Volume, v': Volume, reserved: set<nat>, slot: nat, key: seq<byte>, kind: byte, aflag: byte,
        data: seq<byte>, c: seq<nat>)
    requires Puts(v, v', reserved, slot, key, kind, aflag, data, c)
    requires FilesGood(v')
    ensures Accounted(v', reserved)
  {
    PutFilesGood(v, v', reserved, slot, key, kind, aflag, data, c);
    forall g | 0 <= g < FATZ && g in Elements(c) ensures v'.fat[g] != FREE && InSomeFile(v', g) && g !in reserved {
      var i :| 0 <= i < |c| && c[i] == g;
      assert g in Elements(Chain(v'.fat, v'.dir[slot]));
    }
    forall g | 0 <= g < FATZ && g !in Elements(c) ensures InSomeFile(v', g) <==> InSomeFile(v, g) {
      if InSomeFile(v, g) {
        var k :| 0 <= k < DIRZ && Live(v.dir[k]) && g in Elements(Chain(v.fat, v.dir[k]));
        assert k != slot && Live(v'.dir[k]) && g in Elements(Chain(v'.fat, v'.dir[k]));
      }
    }
  }

  /** `put` keeps the invariant. */
  lemma PutKeepsInv(v: Volume, v': Volume, reserved: set<nat>, slot: nat, key: seq<byte>, kind: byte, aflag: byte,
        data: seq<byte>, c: seq<nat>)
    requires Puts(v, v', reserved, slot, key, kind, aflag, data, c)
    ensures Inv(v', reserved)
  {
    PutFilesGood(v, v', reserved, slot, key, kind, aflag, data, c);
    PutDirEnds(v, v', reserved, slot, key, kind, aflag, data, c);
    PutAccounted(v, v', reserved, slot, key, kind, aflag, data, c);
    FindCharacterised(v, reserved, key);
    assert FilesApart(v');
  }

  lemma {:induction false} JoinedIsData(grans: seq<seq<byte>>, c: seq<nat>, data: seq<byte>)
    requires GRANZ * |c| <= |data|
    requires forall i :: 0 <= i < |c| ==> c[i] < |grans| && grans[c[i]] == data[GRANZ * i..GRANZ * (i + 1)]
    ensures Joined(grans, c) == data[..GRANZ * |c|]
    decreases |c|
  {
    if c != [] {
      var rest := data[GRANZ..];
      forall i | 0 <= i < |c| - 1 ensures grans[c[1..][i]] == rest[GRANZ * i..GRANZ * (i + 1)] {
        assert c[1..][i] == c[i + 1];
        assert data[GRANZ..][GRANZ * i..GRANZ * (i + 1)] == data[GRANZ * (i + 1)..GRANZ * (i + 2)];
      }
      JoinedIsData(grans, c[1..], rest);
      assert data[..GRANZ * |c|] == data[..GRANZ] + rest[..GRANZ * (|c| - 1)];
    }
  }

  /** What `get` makes of a file of the given data: exactly the data if and only if its length is no multiple of 256. */
  function Kept(data: seq<byte>): Stored {
    if |data| % SECZ != 0 then Whole(data)
    else if |data| % GRANZ == 0 then Fails(data)
    else Whole(data[..|data| - SECZ])
  }

  lemma PiecesAreKept(whole: seq<byte>, data: seq<byte>, n: nat)
    requires |data| == GRANZ * n + |data| % GRANZ && |whole| == GRANZ
    requires whole[..|data| % GRANZ] == data[GRANZ * n..]
    ensures var size := LastSize(Mark(|data|), |data| % GRANZ % SECZ);
      size <= |data| % GRANZ
      && Kept(data) == if size < 0 then Fails(data[..GRANZ * n]) else Whole(data[..GRANZ * n] + whole[..size])
  {
    LastSizes(|data|);
    var size := LastSize(Mark(|data|), |data| % GRANZ % SECZ);
    if size >= 0 {
      assert whole[..size] == whole[..|data| % GRANZ][..size] == data[GRANZ * n..][..size];
      assert data[..GRANZ * n] + data[GRANZ * n..][..size] == data[..GRANZ * n + size];
    }
    assert data[..|data|] == data;
  }

  lemma NewFileContent(v: Volume, v': Volume, slot: nat, key: seq<byte>, kind: byte, aflag: byte, data: seq<byte>,
        c: seq<nat>)
    requires Placed(v, v', slot, key, kind, aflag, data, c)
    ensures GoodFile(v', v'.dir[slot]) && Content(v', v'.dir[slot]) == Kept(data)
  {
    NewFileGood(v, v', slot, key, kind, aflag, data, c);
    var n := |c| - 1;
    JoinedIsData(v'.grans, c[..n], data);
    PiecesAreKept(v'.grans[c[n]], data, n);
  }

  /** The length `get` computes for the last granule, from the sector count and remainder `put` wrote. */
  lemma LastSizes(length: nat)
    ensures length % GRANZ % SECZ == length % SECZ
    ensures LastSize(Mark(length), length % GRANZ % SECZ) ==
      if length % SECZ != 0 then length % GRANZ else length % GRANZ - SECZ
  {
    var q, r := length / GRANZ, length % GRANZ;
    var s, t := r / SECZ, r % SECZ;
    assert length == SECZ * (9 * q + s) + t;
    SectorsOf(9 * q + s, t);
    SectorsOf(s, t);
    assert 0 <= s <= 8;
    assert Mark(length) == LAST + s + if t == 0 then 0 else 1;
  }

  lemma SectorsOf(s: nat, t: nat)
    requires t < SECZ
    ensures (SECZ * s + t) % SECZ == t && (SECZ * s + t + SECZ - 1) / SECZ == s + if t == 0 then 0 else 1
  {
  }

  /** Put, then get: the file holds what `Kept` says, and every other name gives what it gave before. */
  lemma PutGet(v: Volume, v': Volume, reserved: set<nat>, slot: nat, key: seq<byte>, kind: byte, aflag: byte,
        data: seq<byte>, c: seq<nat>, other: seq<byte>)
    requires Puts(v, v', reserved, slot, key, kind, aflag, data, c) && ValidKey(other)
    ensures FilesGood(v') && Get(v', other) == if other == key then Some(Kept(data)) else Get(v, other)
  {
    PutKeepsInv(v, v', reserved, slot, key, kind, aflag, data, c);
    FindCharacterised(v, reserved, other);
    FindCharacterised(v', reserved, other);
    NewFileContent(v, v', slot, key, kind, aflag, data, c);
    if other != key && Find(v.dir, other, 0).Some? {
      var k := Find(v.dir, other, 0).value;
      KeyByte(v.dir[k]);
      OldFileKept(v, v', reserved, slot, key, kind, aflag, data, c, k);
    }
  }

  /** The round trip law, exactly: what was put comes back if and only if its length is not a multiple of 256. */
  lemma PutGetRoundTrip(v: Volume, v': Volume, reserved: set<nat>, slot: nat, key: seq<byte>, kind: byte,
        aflag: byte, data: seq<byte>, c: seq<nat>)
    requires Puts(v, v', reserved, slot, key, kind, aflag, data, c)
    ensures FilesGood(v') && (Get(v', key) == Some(Whole(data)) <==> |data| % SECZ != 0)
  {
    hide Get, Inv, FilesGood;
    PutGet(v, v', reserved, slot, key, kind, aflag, data, c, key);
  }

  // ----- rm -----

  /** A freshly formatted disk, and the same disk after a file of less than a granule has been put on it. */
  ghost function Blank(): (v: Volume)
    ensures Formatted(v, {})
  {
    Volume(seq(FATZ, _ => FREE), seq(DIRZ, _ => seq(ENTRYZ, _ => 0xff)), seq(FATZ, _ => seq(GRANZ, _ => 0xff)))
  }

  ghost function OneFile(key: seq<byte>, data: seq<byte>): (v: Volume)
    requires ValidKey(key) && |data| < GRANZ
    ensures Shaped(v)
  {
    var b := Blank();
    Volume(b.fat[0 := Mark(|data|)], b.dir[0 := NewEntry(b.dir[0], key, 0, 0, 0, |data|)],
           b.grans[0 := data + b.grans[0][|data|..]])
  }

  lemma OneFileIsPut(key: seq<byte>, data: seq<byte>)
    requires ValidKey(key) && |data| < GRANZ
    ensures Puts(Blank(), OneFile(key, data), {}, 0, key, 0, 0, data, [0])
  {
    FormattedInv(Blank(), {});
    FindNothing(Blank().dir, key, 0);
    assert Granules(|data|) == 1 && |data| % GRANZ == |data|;
    assert Elements([0]) == {0} by { assert [0][0] == 0; }
  }

  /** Two files that do not come back: of no bytes, where the write fails, and of 256, where nothing is read. */
  lemma ShortFilesAreLost(key: seq<byte>, data: seq<byte>)
    requires ValidKey(key) && |data| == 256
    ensures Inv(OneFile(key, []), {}) && Get(OneFile(key, []), key) == Some(Fails([]))
    ensures Inv(OneFile(key, data), {}) && Get(OneFile(key, data), key) == Some(Whole([]))
  {
    hide Puts, Get, OneFile, Inv, FilesGood;
    OneFileIsPut(key, []);
    PutKeepsInv(Blank(), OneFile(key, []), {}, 0, key, 0, 0, [], [0]);
    PutGet(Blank(), OneFile(key, []), {}, 0, key, 0, 0, [], [0], key);
    OneFileIsPut(key, data);
    PutKeepsInv(Blank(), OneFile(key, data), {}, 0, key, 0, 0, data, [0]);
    PutGet(Blank(), OneFile(key, data), {}, 0, key, 0, 0, data, [0], key);
    assert data[..0] == [];
  }


  /** The circumstances under which `rm` removes the file in `slot`. */
  ghost predicate RmStep(v: Volume, v': Volume, slot: nat, key: seq<byte>) {
    Removed(v, v', slot) && ValidKey(key) && Find(v.dir, key, 0) == Some(slot)
  }

  ghost predicate Removes(v: Volume, v': Volume, reserved: set<nat>, slot: nat, key: seq<byte>) {
    Inv(v, reserved) && RmStep(v, v', slot, key)
  }

  lemma OtherFileKept(v: Volume, v': Volume, reserved: set<nat>, slot: nat, key: seq<byte>, k: nat)
    requires Removes(v, v', reserved, slot, key)
    requires k < DIRZ && k != slot && Live(v.dir[k])
    ensures v'.dir[k] == v.dir[k] && GoodFile(v', v.dir[k]) && Chain(v'.fat, v.dir[k]) == Chain(v.fat, v.dir[k])
    ensures Content(v', v.dir[k]) == Content(v, v.dir[k])
  {
    KeyByte(v.dir[slot]);
    var c := Chain(v.fat, v.dir[k]);
    assert Elements(c) !! Elements(Chain(v.fat, v.dir[slot]));
    forall i | 0 <= i < |c| ensures v'.fat[c[i]] == v.fat[c[i]] { assert c[i] in Elements(c); }
    FileUnchanged(v, v', v.dir[k]);
  }

  lemma RmFilesGood(v: Volume, v': Volume, reserved: set<nat>, slot: nat, key: seq<byte>)
    requires Removes(v, v', reserved, slot, key)
    ensures FilesGood(v') && Live(v.dir[slot]) && !Live(v'.dir[slot])
    ensures forall k :: 0 <= k < DIRZ && k != slot ==> v'.dir[k] == v.dir[k]
    ensures forall k :: 0 <= k < DIRZ && k != slot && Live(v'.dir[k]) ==>
      Chain(v'.fat, v'.dir[k]) == Chain(v.fat, v.dir[k])
  {
    KeyByte(v.dir[slot]);
    forall k | 0 <= k < DIRZ && k != slot && Live(v.dir[k])
      ensures GoodFile(v', v.dir[k]) && Chain(v'.fat, v.dir[k]) == Chain(v.fat, v.dir[k])
    {
      OtherFileKept(v, v', reserved, slot, key, k);
    }
  }

  lemma RmInSomeFile(v: Volume, v': Volume, reserved: set<nat>, slot: nat, key: seq<byte>, g: nat)
    requires Removes(v, v', reserved, slot, key) && FilesGood(v')
    ensures InSomeFile(v', g) <==> InSomeFile(v, g) && g !in Elements(Chain(v.fat, v.dir[slot]))
  {
    hide Walk, Find, DirEnds, Accounted, Elements;
    RmFilesGood(v, v', reserved, slot, key);
    if InSomeFile(v, g) && g !in Elements(Chain(v.fat, v.dir[slot])) {
      var k :| 0 <= k < DIRZ && Live(v.dir[k]) && g in Elements(Chain(v.fat, v.dir[k]));
      assert Live(v'.dir[k]) && g in Elements(Chain(v'.fat, v'.dir[k]));
    }
    if InSomeFile(v', g) {
      var k :| 0 <= k < DIRZ && Live(v'.dir[k]) && g in Elements(Chain(v'.fat, v'.dir[k]));
      assert Live(v.dir[k]) && g in Elements(Chain(v.fat, v.dir[k]));
    }
  }

  lemma RmAccounted(v: Volume, v': Volume, reserved: set<nat>, slot: nat, key: seq<byte>)
    requires Removes(v, v', reserved, slot, key) && FilesGood(v')
    ensures Accounted(v', reserved)
  {
    hide Walk, Find, DirEnds, FilesApart, Elements;
    RmFilesGood(v, v', reserved, slot, key);
    var gone := Elements(Chain(v.fat, v.dir[slot]));
    forall g: nat ensures InSomeFile(v', g) <==> InSomeFile(v, g) && g !in gone {
      RmInSomeFile(v, v', reserved, slot, key, g);
    }
    assert forall g :: g in gone ==> InSomeFile(v, g);
  }

  /** `rm` keeps the invariant. */
  lemma RmKeepsInv(v: Volume, v': Volume, reserved: set<nat>, slot: nat, key: seq<byte>)
    requires Removes(v, v', reserved, slot, key)
    ensures Inv(v', reserved)
  {
    RmFilesGood(v, v', reserved, slot, key);
    RmAccounted(v, v', reserved, slot, key);
    assert FilesApart(v');
    assert DirEnds(v');
  }

  /** After rm the name is gone and every other name gives what it gave before. */
  lemma RmGet(v: Volume, v': Volume, reserved: set<nat>, slot: nat, key: seq<byte>, other: seq<byte>)
    requires Removes(v, v', reserved, slot, key) && ValidKey(other)
    ensures FilesGood(v') && Get(v', other) == if other == key then None else Get(v, other)
  {
    RmKeepsInv(v, v', reserved, slot, key);
    RmFilesGood(v, v', reserved, slot, key);
    FindCharacterised(v, reserved, other);
    FindCharacterised(v', reserved, other);
    if other != key && Find(v.dir, other, 0).Some? {
      var k := Find(v.dir, other, 0).value;
      KeyByte(v.dir[k]);
      OtherFileKept(v, v', reserved, slot, key, k);
    }
  }

  // ----- conservation of granules -----

  ghost function FreeSet(fat: seq<byte>): set<nat> {
    set g: nat | 0 <= g < |fat| && fat[g] == FREE :: g
  }

  lemma FreedSet(fat: seq<byte>, fat': seq<byte>, c: seq<nat>)
    requires |fat| == |fat'| == FATZ && Freed(fat, fat', c)
    requires forall i :: 0 <= i < |c| ==> c[i] < FATZ && fat[c[i]] != FREE
    ensures FreeSet(fat') == FreeSet(fat) + Elements(c) && FreeSet(fat) !! Elements(c)
  {
  }

  /** `rm` frees exactly the granules `countchain` counts. */
  lemma RmFrees(v: Volume, v': Volume, slot: nat)
    requires Removed(v, v', slot)
    ensures |FreeSet(v'.fat)| == |FreeSet(v.fat)| + |Chain(v.fat, v.dir[slot])|
  {
    hide FreeSet, Elements, Freed, Walk;
    var c := Chain(v.fat, v.dir[slot]);
    WalkIsChain(v.fat, First(v.dir[slot]), FATZ);
    CardOfDistinct(c);
    FreedSet(v.fat, v'.fat, c);
  }

  /** Removing what was just put gives back the table as it was. */
  lemma PutRmRestores(v: Volume, v': Volume, v'': Volume, reserved: set<nat>, slot: nat, key: seq<byte>, kind: byte,
        aflag: byte, data: seq<byte>, c: seq<nat>)
    requires Puts(v, v', reserved, slot, key, kind, aflag, data, c)
    requires Find(v'.dir, key, 0).Some? && Removed(v', v'', Find(v'.dir, key, 0).value)
    ensures Find(v'.dir, key, 0) == Some(slot) && v''.fat == v.fat
  {
    PutKeepsInv(v, v', reserved, slot, key, kind, aflag, data, c);
    FindCharacterised(v', reserved, key);
    NewFileGood(v, v', slot, key, kind, aflag, data, c);
    forall g | 0 <= g < FATZ ensures v''.fat[g] == v.fat[g] {
      if g in Elements(c) { var i :| 0 <= i < |c| && c[i] == g; }
    }
  }

  // ----- whole runs -----

  /** What a command did: created a file, removed one, or was refused and left the volume alone. */
  datatype Event = PutFile(key: seq<byte>, data: seq<byte>) | RmFile(key: seq<byte>) | Refused

  ghost predicate Step(v: Volume, ev: Event, v': Volume) {
    match ev
    case PutFile(key, data) =>
      exists slot: nat, kind: byte, aflag: byte, c: seq<nat> :: PutStep(v, v', slot, key, kind, aflag, data, c)
    case RmFile(key) => exists slot: nat :: RmStep(v, v', slot, key)
    case Refused => v' == v
  }

  ghost predicate Run(vs: seq<Volume>, evs: seq<Event>) {
    |vs| == |evs| + 1 && forall i :: 0 <= i < |evs| ==> Step(vs[i], evs[i], vs[i + 1])
  }

  /** A volume straight from mkfs. */
  ghost predicate Formatted(v: Volume, reserved: set<nat>) {
    && Shaped(v)
    && (forall g :: g in reserved ==> g < FATZ)
    && (forall g :: 0 <= g < FATZ ==> v.fat[g] == if g in reserved then LAST else FREE)
    && (forall k :: 0 <= k < DIRZ ==> v.dir[k][0] == 0xff)
  }

  lemma FormattedInv(v: Volume, reserved: set<nat>)
    requires Formatted(v, reserved)
    ensures Inv(v, reserved)
    ensures forall key :: ValidKey(key) ==> Get(v, key) == None
  {
    assert forall k :: 0 <= k < DIRZ ==> !Live(v.dir[k]);
  }

  /** The file system a user sees: names to what `get` gives for them. */
  ghost function View(evs: seq<Event>): map<seq<byte>, Stored>
    decreases |evs|
  {
    if evs == [] then map[]
    else
      var before := View(evs[..|evs| - 1]);
      match evs[|evs| - 1]
      case PutFile(key, data) => before[key := Kept(data)]
      case RmFile(key) => before - {key}
      case Refused => before
  }

  ghost function At(m: map<seq<byte>, Stored>, key: seq<byte>): Option<Stored> {
    if key in m then Some(m[key]) else None
  }

  ghost function Effect(ev: Event, key: seq<byte>, before: Option<Stored>): Option<Stored> {
    match ev
    case PutFile(k, data) => if key == k then Some(Kept(data)) else before
    case RmFile(k) => if key == k then None else before
    case Refused => before
  }

  lemma StepKeeps(v: Volume, ev: Event, v': Volume, reserved: set<nat>)
    requires Inv(v, reserved) && Step(v, ev, v')
    ensures Inv(v', reserved)
    ensures forall key :: ValidKey(key) ==> Get(v', key) == Effect(ev, key, Get(v, key))
  {
    hide *;
    match ev
    case Refused => RefusedKeeps(v, ev, v');
    case PutFile(_, _) => PutStepKeeps(v, ev, v', reserved);
    case RmFile(_) => RmStepKeeps(v, ev, v', reserved);
  }

  lemma RefusedKeeps(v: Volume, ev: Event, v': Volume)
    requires ev.Refused? && Step(v, ev, v')
    ensures v' == v && forall key, o :: Effect(ev, key, o) == o
  {
  }

  lemma PutStepKeeps(v: Volume, ev: Event, v': Volume, reserved: set<nat>)
    requires Inv(v, reserved) && Step(v, ev, v') && ev.PutFile?
    ensures Inv(v', reserved)
    ensures forall key :: ValidKey(key) ==> Get(v', key) == Effect(ev, key, Get(v, key))
  {
    hide PutStep, Get, Kept, FilesGood, FilesApart, DirEnds, Accounted, ValidKey;
    var slot: nat, kind: byte, aflag: byte, c: seq<nat> :| PutStep(v, v', slot, ev.key, kind, aflag, ev.data, c);
    PutKeepsInv(v, v', reserved, slot, ev.key, kind, aflag, ev.data, c);
    forall key | ValidKey(key) ensures Get(v', key) == Effect(ev, key, Get(v, key)) {
      PutGet(v, v', reserved, slot, ev.key, kind, aflag, ev.data, c, key);
    }
  }

  lemma RmStepKeeps(v: Volume, ev: Event, v': Volume, reserved: set<nat>)
    requires Inv(v, reserved) && Step(v, ev, v') && ev.RmFile?
    ensures Inv(v', reserved)
    ensures forall key :: ValidKey(key) ==> Get(v', key) == Effect(ev, key, Get(v, key))
  {
    hide RmStep, Get, FilesGood, FilesApart, DirEnds, Accounted, ValidKey;
    var slot: nat :| RmStep(v, v', slot, ev.key);
    RmKeepsInv(v, v', reserved, slot, ev.key);
    forall key | ValidKey(key) ensures Get(v', key) == Effect(ev, key, Get(v, key)) {
      RmGet(v, v', reserved, slot, ev.key, key);
    }
  }

  lemma ViewStep(evs: seq<Event>, key: seq<byte>)
    requires evs != []
    ensures At(View(evs), key) == Effect(evs[|evs| - 1], key, At(View(evs[..|evs| - 1]), key))
  {
  }

  lemma RunPrefix(vs: seq<Volume>, evs: seq<Event>, n: nat)
    requires Run(vs, evs) && n <= |evs|
    ensures Run(vs[..n + 1], evs[..n])
  {
  }

  /**
   Every run from mkfs: the invariant always holds, and `get` always gives what a plain map from names to contents,
   updated by the commands so far, would give.
   */
  lemma {:induction false} RunIsMap(vs: seq<Volume>, evs: seq<Event>, reserved: set<nat>)
    requires Run(vs, evs) && Formatted(vs[0], reserved)
    ensures Inv(vs[|evs|], reserved)
    ensures forall key :: ValidKey(key) ==> Get(vs[|evs|], key) == At(View(evs), key)
    decreases |evs|
  {
    if evs == [] {
      FormattedInv(vs[0], reserved);
    } else {
      var n := |evs| - 1;
      var vs', evs' := vs[..n + 1], evs[..n];
      RunPrefix(vs, evs, n);
      RunIsMap(vs', evs', reserved);
      assert vs'[n] == vs[n];
      LastStep(vs[n], vs[n + 1], evs, reserved);
    }
  }

  lemma LastStep(v: Volume, v': Volume, evs: seq<Event>, reserved: set<nat>)
    requires evs != [] && Inv(v, reserved) && Step(v, evs[|evs| - 1], v')
    requires forall key :: ValidKey(key) ==> Get(v, key) == At(View(evs[..|evs| - 1]), key)
    ensures Inv(v', reserved)
    ensures forall key :: ValidKey(key) ==> Get(v', key) == At(View(evs), key)
  {
    StepKeeps(v, evs[|evs| - 1], v', reserved);
    forall key | ValidKey(key) ensures Get(v', key) == At(View(evs), key) {
      ViewStep(evs, key);
    }
  }
}
