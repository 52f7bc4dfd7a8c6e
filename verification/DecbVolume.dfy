/**
 An RSDOS volume as its FAT, its 72 directory entries and its 68 granules, and what creating and removing files does to
 it. Directory entries are kept as their 32 raw bytes.
 */
module DecbVolume {
  import opened Bytes

  const SECZ := 256
  const GRANZ := 2304
  const FATZ := 68
  const DIRZ := 72
  const ENTRYZ := 32
  const FREE: byte := 0xff
  const LAST: byte := 0xc0

  datatype Volume = Volume(fat: seq<byte>, dir: seq<seq<byte>>, grans: seq<seq<byte>>)

  ghost predicate Shaped(v: Volume) {
    && |v.fat| == FATZ && |v.dir| == DIRZ && |v.grans| == FATZ
    && (forall k :: 0 <= k < DIRZ ==> |v.dir[k]| == ENTRYZ)
    && (forall g :: 0 <= g < FATZ ==> |v.grans[g]| == GRANZ)
  }

  // ----- directory entries -----

  function Key(e: seq<byte>): seq<byte> requires |e| == ENTRYZ { e[..11] }
  function First(e: seq<byte>): byte requires |e| == ENTRYZ { e[13] }
  function Remainder(e: seq<byte>): nat requires |e| == ENTRYZ { 256 * (e[14] as int) + e[15] }

  predicate Live(e: seq<byte>) requires |e| == ENTRYZ { e[0] != 0 && e[0] != 0xff }

  lemma KeyByte(e: seq<byte>)
    requires |e| == ENTRYZ
    ensures |Key(e)| == 11 && Key(e)[0] == e[0]
  {
  }

  /** A name `find` can tell from a deleted entry and from the end of the directory. */
  predicate ValidKey(key: seq<byte>) { |key| == 11 && key[0] != 0 && key[0] != 0xff }

  /** `find`: the first entry with that name before the end-of-directory mark. */
  function Find(dir: seq<seq<byte>>, key: seq<byte>, k: nat): (r: Option<nat>)
    requires k <= |dir| && forall j :: 0 <= j < |dir| ==> |dir[j]| == ENTRYZ
    ensures r.Some? ==> k <= r.value < |dir| && dir[r.value][0] != 0xff && Key(dir[r.value]) == key
    decreases |dir| - k
  {
    if k == |dir| || dir[k][0] == 0xff then None
    else if Key(dir[k]) == key then Some(k)
    else Find(dir, key, k + 1)
  }

  // ----- granule chains -----

  /** The granules from `g` on; `None` if the links leave the table or go on for more than `fuel` granules. */
  function Walk(fat: seq<byte>, g: nat, fuel: nat): (r: Option<seq<nat>>)
    requires |fat| == FATZ
    decreases fuel
  {
    if g >= LAST then Some([])
    else if g >= FATZ || fuel == 0 then None
    else
      match Walk(fat, fat[g], fuel - 1)
      case Some(c) => Some([g] + c)
      case None => None
  }

  /** A terminated chain of distinct granules starting at `first`. */
  ghost predicate IsChain(fat: seq<byte>, first: nat, c: seq<nat>)
    requires |fat| == FATZ
  {
    && 0 < |c| && c[0] == first
    && (forall i :: 0 <= i < |c| ==> c[i] < FATZ)
    && (forall i :: 0 <= i < |c| - 1 ==> fat[c[i]] == c[i + 1])
    && fat[c[|c| - 1]] >= LAST
    && (forall i, j :: 0 <= i < j < |c| ==> c[i] != c[j])
  }

  lemma {:induction false} DistinctBelow(c: seq<nat>, n: nat)
    requires forall i, j :: 0 <= i < j < |c| ==> c[i] != c[j]
    requires forall i :: 0 <= i < |c| ==> c[i] < n
    ensures |c| <= n
  {
    var s := set i | 0 <= i < |c| :: c[i];
    CardOfDistinct(c);
    Subrange(s, n);
  }

  ghost function Elements(c: seq<nat>): set<nat> { set i | 0 <= i < |c| :: c[i] }

  lemma {:induction false} CardOfDistinct(c: seq<nat>)
    requires forall i, j :: 0 <= i < j < |c| ==> c[i] != c[j]
    ensures |Elements(c)| == |c|
    decreases |c|
  {
    if c != [] {
      var m := |c| - 1;
      CardOfDistinct(c[..m]);
      assert Elements(c) == Elements(c[..m]) + {c[m]} by {
        assert forall i :: 0 <= i < m ==> c[..m][i] == c[i];
      }
      assert c[m] !in Elements(c[..m]);
    }
  }

  lemma {:induction false} Subrange(s: set<nat>, n: nat)
    requires forall x :: x in s ==> x < n
    ensures |s| <= n
    decreases n
  {
    if n == 0 {
      assert s == {};
    } else {
      Subrange(s - {n - 1}, n - 1);
      if n - 1 in s { assert s == (s - {n - 1}) + {n - 1}; } else { assert s - {n - 1} == s; }
    }
  }

  /** A chain is what walking finds, whenever there is fuel for its length. */
  lemma {:induction false} WalkOfLinks(fat: seq<byte>, c: seq<nat>, fuel: nat)
    requires |fat| == FATZ && 0 < |c| <= fuel
    requires forall i :: 0 <= i < |c| ==> c[i] < FATZ
    requires forall i :: 0 <= i < |c| - 1 ==> fat[c[i]] == c[i + 1]
    requires fat[c[|c| - 1]] >= LAST
    ensures Walk(fat, c[0], fuel) == Some(c)
    decreases |c|
  {
    if |c| == 1 {
      assert c == [c[0]] + [];
    } else {
      WalkOfLinks(fat, c[1..], fuel - 1);
      assert c == [c[0]] + c[1..];
    }
  }

  lemma {:induction false} WalkLinks(fat: seq<byte>, g: nat, fuel: nat)
    requires |fat| == FATZ && Walk(fat, g, fuel).Some? && g < LAST
    ensures var c := Walk(fat, g, fuel).value;
      && 0 < |c| <= fuel && c[0] == g
      && (forall i :: 0 <= i < |c| ==> c[i] < FATZ)
      && (forall i :: 0 <= i < |c| - 1 ==> fat[c[i]] == c[i + 1])
      && fat[c[|c| - 1]] >= LAST
    decreases fuel
  {
    if fat[g] < LAST { WalkLinks(fat, fat[g], fuel - 1); }
  }

  /** A finite walk never comes back to a granule it has visited. */
  lemma WalkIsChain(fat: seq<byte>, g: nat, fuel: nat)
    requires |fat| == FATZ && Walk(fat, g, fuel).Some? && g < LAST
    ensures IsChain(fat, g, Walk(fat, g, fuel).value)
  {
    WalkLinks(fat, g, fuel);
    var c := Walk(fat, g, fuel).value;
    forall i, j | 0 <= i < j < |c| ensures c[i] != c[j] {
      WalkOfLinks(fat, c[i..], fuel);
      WalkOfLinks(fat, c[j..], fuel);
      assert |c[i..]| != |c[j..]|;
    }
  }

  lemma ChainIsWalk(fat: seq<byte>, g: nat, c: seq<nat>)
    requires |fat| == FATZ && IsChain(fat, g, c)
    ensures Walk(fat, g, FATZ) == Some(c)
  {
    DistinctBelow(c, FATZ);
    WalkOfLinks(fat, c, FATZ);
  }

  ghost function Chain(fat: seq<byte>, e: seq<byte>): seq<nat>
    requires |fat| == FATZ && |e| == ENTRYZ && Walk(fat, First(e), FATZ).Some?
  {
    Walk(fat, First(e), FATZ).value
  }

  // ----- what a file holds, as `get` copies it out -----

  /** The bytes `get` writes; `Fails` if it then stops with an error because the last length comes out negative. */
  datatype Stored = Whole(data: seq<byte>) | Fails(partial: seq<byte>)

  ghost function Joined(grans: seq<seq<byte>>, c: seq<nat>): seq<byte>
    requires forall i :: 0 <= i < |c| ==> c[i] < |grans|
    decreases |c|
  {
    if c == [] then [] else grans[c[0]] + Joined(grans, c[1..])
  }

  function LastSize(mark: byte, remainder: nat): int { (mark % 64 - 1) * SECZ + remainder }

  /** A chain whose last length `get` can use: short of a whole granule. */
  ghost predicate GoodFile(v: Volume, e: seq<byte>)
    requires Shaped(v) && |e| == ENTRYZ
  {
    && First(e) < LAST && Walk(v.fat, First(e), FATZ).Some? && Remainder(e) < SECZ
    && var c := Chain(v.fat, e);
      && (forall i :: 0 <= i < |c| ==> c[i] < FATZ && v.fat[c[i]] != FREE)
      && |c| > 0 && LAST <= v.fat[c[|c| - 1]] <= LAST + 9
  }

  ghost function Content(v: Volume, e: seq<byte>): Stored
    requires Shaped(v) && |e| == ENTRYZ && GoodFile(v, e)
  {
    var c := Chain(v.fat, e);
    var n := |c| - 1;
    var size := LastSize(v.fat[c[n]], Remainder(e));
    var before := Joined(v.grans, c[..n]);
    if size < 0 then Fails(before) else Whole(before + v.grans[c[n]][..size])
  }

  // ----- the invariant of every reachable volume -----

  ghost predicate FilesGood(v: Volume)
    requires Shaped(v)
  {
    forall k :: 0 <= k < DIRZ && Live(v.dir[k]) ==> GoodFile(v, v.dir[k])
  }

  /** No two files have the same name or share a granule. */
  ghost predicate FilesApart(v: Volume)
    requires Shaped(v) && FilesGood(v)
  {
    forall j, k :: 0 <= j < k < DIRZ && Live(v.dir[j]) && Live(v.dir[k]) ==>
      Key(v.dir[j]) != Key(v.dir[k]) && Elements(Chain(v.fat, v.dir[j])) !! Elements(Chain(v.fat, v.dir[k]))
  }

  /** Nothing follows an end-of-directory mark. */
  ghost predicate DirEnds(v: Volume)
    requires Shaped(v)
  {
    forall j, k :: 0 <= j < k < DIRZ && v.dir[j][0] == 0xff ==> v.dir[k][0] == 0xff
  }

  ghost predicate InSomeFile(v: Volume, g: nat)
    requires Shaped(v) && FilesGood(v)
  {
    exists k :: 0 <= k < DIRZ && Live(v.dir[k]) && g in Elements(Chain(v.fat, v.dir[k]))
  }

  /** Every granule is free, in a file, or one mkfs was told to protect, and only one of these. */
  ghost predicate Accounted(v: Volume, reserved: set<nat>)
    requires Shaped(v) && FilesGood(v)
  {
    && (forall g :: 0 <= g < FATZ ==> (v.fat[g] != FREE <==> g in reserved || InSomeFile(v, g)))
    && (forall g :: g in reserved ==> g < FATZ && v.fat[g] == LAST && !InSomeFile(v, g))
  }

  /** `reserved` are the granules mkfs was told to protect. */
  ghost predicate Inv(v: Volume, reserved: set<nat>) {
    Shaped(v) && FilesGood(v) && FilesApart(v) && DirEnds(v) && Accounted(v, reserved)
  }

  /** What `get` gives for a name: nothing, or the file's content. */
  ghost function Get(v: Volume, key: seq<byte>): Option<Stored>
    requires Shaped(v) && ValidKey(key) && FilesGood(v)
  {
    match Find(v.dir, key, 0)
    case None => None
    case Some(k) =>
      KeyByte(v.dir[k]);
      Some(Content(v, v.dir[k]))
  }

  lemma {:induction false} FindIs(dir: seq<seq<byte>>, key: seq<byte>, from: nat, k: nat)
    requires forall j :: 0 <= j < |dir| ==> |dir[j]| == ENTRYZ
    requires from <= k < |dir| && Key(dir[k]) == key
    requires forall j :: from <= j <= k ==> dir[j][0] != 0xff
    requires forall j :: from <= j < k ==> Key(dir[j]) != key
    ensures Find(dir, key, from) == Some(k)
    decreases k - from
  {
    if from < k { FindIs(dir, key, from + 1, k); }
  }

  lemma {:induction false} FindNothing(dir: seq<seq<byte>>, key: seq<byte>, from: nat)
    requires forall j :: 0 <= j < |dir| ==> |dir[j]| == ENTRYZ
    requires from <= |dir| && forall j :: from <= j < |dir| && dir[j][0] != 0xff ==> Key(dir[j]) != key
    ensures Find(dir, key, from) == None
    decreases |dir| - from
  {
    if from < |dir| { FindNothing(dir, key, from + 1); }
  }

  /** Under the invariant, finding a name finds the one live entry that has it. */
  lemma FindCharacterised(v: Volume, reserved: set<nat>, key: seq<byte>)
    requires Inv(v, reserved) && ValidKey(key)
    ensures Find(v.dir, key, 0) == None <==> forall k :: 0 <= k < DIRZ && Live(v.dir[k]) ==> Key(v.dir[k]) != key
    ensures forall k :: 0 <= k < DIRZ && Live(v.dir[k]) && Key(v.dir[k]) == key ==> Find(v.dir, key, 0) == Some(k)
  {
    forall k | 0 <= k < DIRZ && Live(v.dir[k]) && Key(v.dir[k]) == key ensures Find(v.dir, key, 0) == Some(k) {
      forall j | 0 <= j < k ensures Key(v.dir[j]) != key {
        KeyByte(v.dir[j]);
      }
      FindIs(v.dir, key, 0, k);
    }
    if forall k :: 0 <= k < DIRZ && Live(v.dir[k]) ==> Key(v.dir[k]) != key {
      forall j | 0 <= j < DIRZ && v.dir[j][0] != 0xff ensures Key(v.dir[j]) != key {
        KeyByte(v.dir[j]);
      }
      FindNothing(v.dir, key, 0);
    }
  }
}
