/** The image file: where the FAT, the directory and the granules lie, and that they do not overlap. */
module DecbImage {
  import opened Bytes
  import opened DecbVolume

  const FATST := 307 * SECZ
  const DIRST := 308 * SECZ
  const IMAGEZ := 70 * GRANZ

  /** `seekgran`: track 17, which would hold granules 34 and 35, is skipped. */
  function GranOffset(gran: nat): nat {
    GRANZ * if gran > 33 then gran + 2 else gran
  }

  function EntryOffset(k: nat): nat { DIRST + ENTRYZ * k }

  /** Writing at an offset inside the file. */
  function WriteAt(img: seq<byte>, off: nat, data: seq<byte>): (r: seq<byte>)
    requires off + |data| <= |img|
    ensures |r| == |img|
  {
    img[..off] + data + img[off + |data|..]
  }

  lemma WriteElsewhere(img: seq<byte>, off: nat, data: seq<byte>, lo: nat, n: nat)
    requires off + |data| <= |img| && lo + n <= |img| && (lo + n <= off || off + |data| <= lo)
    ensures WriteAt(img, off, data)[lo..lo + n] == img[lo..lo + n]
  {
  }

  lemma WriteHere(img: seq<byte>, off: nat, data: seq<byte>, n: nat)
    requires off + |data| <= off + n <= |img|
    ensures WriteAt(img, off, data)[off..off + n] == data + img[off..off + n][|data|..]
  {
  }

  /** Granules lie inside the image, apart from each other and from the FAT and directory sectors. */
  lemma Layout(g: nat, h: nat)
    requires g < FATZ && h < FATZ && g != h
    ensures GranOffset(g) + GRANZ <= IMAGEZ
    ensures GranOffset(g) + GRANZ <= GranOffset(h) || GranOffset(h) + GRANZ <= GranOffset(g)
    ensures GranOffset(g) + GRANZ <= FATST || DIRST + ENTRYZ * DIRZ <= GranOffset(g)
    ensures FATST + FATZ <= DIRST
  {
  }

  function FatOf(img: seq<byte>): (fat: seq<byte>)
    requires |img| >= IMAGEZ
    ensures |fat| == FATZ
  {
    img[FATST..FATST + FATZ]
  }

  function EntryOf(img: seq<byte>, k: nat): (e: seq<byte>)
    requires |img| >= IMAGEZ && k < DIRZ
    ensures |e| == ENTRYZ
  {
    img[EntryOffset(k)..EntryOffset(k) + ENTRYZ]
  }

  function GranOf(img: seq<byte>, g: nat): (s: seq<byte>)
    requires |img| >= IMAGEZ && g < FATZ
    ensures |s| == GRANZ
  {
    img[GranOffset(g)..GranOffset(g) + GRANZ]
  }

  /** The volume an image holds. */
  ghost function Vol(img: seq<byte>): (v: Volume)
    requires |img| >= IMAGEZ
    ensures Shaped(v) && v.fat == FatOf(img)
    ensures forall k :: 0 <= k < DIRZ ==> v.dir[k] == EntryOf(img, k)
    ensures forall g :: 0 <= g < FATZ ==> v.grans[g] == GranOf(img, g)
  {
    Volume(FatOf(img),
           seq(DIRZ, k requires 0 <= k < DIRZ => EntryOf(img, k)),
           seq(FATZ, g requires 0 <= g < FATZ => GranOf(img, g)))
  }

  lemma GranAfter(img: seq<byte>, g: nat, data: seq<byte>, h: nat)
    requires |img| >= IMAGEZ && g < FATZ && h < FATZ && |data| <= GRANZ && GranOffset(g) + |data| <= |img|
    ensures GranOf(WriteAt(img, GranOffset(g), data), h)
      == if h == g then data + GranOf(img, g)[|data|..] else GranOf(img, h)
  {
    hide WriteAt;
    Layout(g, if g == 0 then 1 else 0);
    if h == g {
      WriteHere(img, GranOffset(g), data, GRANZ);
    } else {
      Layout(h, g);
      WriteElsewhere(img, GranOffset(g), data, GranOffset(h), GRANZ);
    }
  }

  /** Writing into a granule changes the front of that granule and nothing else. */
  lemma WriteGran(img: seq<byte>, g: nat, data: seq<byte>)
    requires |img| >= IMAGEZ && g < FATZ && |data| <= GRANZ
    ensures GranOffset(g) + |data| <= |img|
    ensures var v := Vol(img);
      Vol(WriteAt(img, GranOffset(g), data)) == v.(grans := v.grans[g := data + v.grans[g][|data|..]])
  {
    Layout(g, if g == 0 then 1 else 0);
    var v, off := Vol(img), GranOffset(g);
    var img' := WriteAt(img, off, data);
    var v' := Vol(img');
    WriteElsewhere(img, off, data, FATST, FATZ);
    forall k | 0 <= k < DIRZ ensures v'.dir[k] == v.dir[k] { WriteElsewhere(img, off, data, EntryOffset(k), ENTRYZ); }
    var grans := v.grans[g := data + v.grans[g][|data|..]];
    forall h | 0 <= h < FATZ ensures v'.grans[h] == grans[h] { GranAfter(img, g, data, h); }
    assert v'.dir == v.dir && v'.grans == grans;
  }

  lemma WriteFat(img: seq<byte>, fat: seq<byte>)
    requires |img| >= IMAGEZ && |fat| == FATZ
    ensures Vol(WriteAt(img, FATST, fat)) == Vol(img).(fat := fat)
  {
    var v, v' := Vol(img), Vol(WriteAt(img, FATST, fat));
    WriteHere(img, FATST, fat, FATZ);
    assert fat + FatOf(img)[FATZ..] == fat;
    forall k | 0 <= k < DIRZ ensures v'.dir[k] == v.dir[k] { WriteElsewhere(img, FATST, fat, EntryOffset(k), ENTRYZ); }
    forall h | 0 <= h < FATZ ensures v'.grans[h] == v.grans[h] {
      Layout(h, if h == 0 then 1 else 0);
      WriteElsewhere(img, FATST, fat, GranOffset(h), GRANZ);
    }
    assert v'.dir == v.dir && v'.grans == v.grans;
  }

  lemma WriteEntry(img: seq<byte>, slot: nat, e: seq<byte>)
    requires |img| >= IMAGEZ && slot < DIRZ && |e| == ENTRYZ
    ensures var v := Vol(img); Vol(WriteAt(img, EntryOffset(slot), e)) == v.(dir := v.dir[slot := e])
  {
    var off := EntryOffset(slot);
    var v, v' := Vol(img), Vol(WriteAt(img, off, e));
    WriteElsewhere(img, off, e, FATST, FATZ);
    WriteHere(img, off, e, ENTRYZ);
    assert e + EntryOf(img, slot)[ENTRYZ..] == e;
    forall k | 0 <= k < DIRZ ensures v'.dir[k] == v.dir[slot := e][k] {
      if k != slot { WriteElsewhere(img, off, e, EntryOffset(k), ENTRYZ); }
    }
    forall h | 0 <= h < FATZ ensures v'.grans[h] == v.grans[h] {
      Layout(h, if h == 0 then 1 else 0);
      WriteElsewhere(img, off, e, GranOffset(h), GRANZ);
    }
    assert v'.dir == v.dir[slot := e] && v'.grans == v.grans;
  }
}
