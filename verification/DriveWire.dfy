/** lwwire.c's server, byte by byte, and dw.c's client of it. */
module DriveWire {
  import opened Bytes
  import opened DwServer
  import opened DwRuns

  class Server {
    const drives: array<Drive>
    var phase: Phase
    const now: seq<byte>   // the clock

    ghost function St(): State
      reads this, drives
    {
      State(drives[..], phase, now)
    }

    ghost predicate Valid()
      reads this, drives
    {
      DwServer.Valid(St())
    }

    constructor (d: seq<Drive>, now: seq<byte>)
      requires |d| == 256
      ensures Valid() && St() == State(d, Opcode, now) && fresh(drives)
    {
      drives := new Drive[256](i requires 0 <= i < 256 => d[i]);
      phase, this.now := Opcode, now;
      new;
      assert drives[..] == d;
    }

    /** `lwwire_fetch_sector`: reads a sector into a buffer; what lies past the end of the image reads as zeros. */
    method FetchSector(dn: byte, lsn: nat, buf: array<byte>, off: nat) returns (ec: byte)
      requires Valid() && off + SECTOR <= buf.Length
      modifies drives, buf
      ensures drives[..] == old(drives[..])[dn := Opened(old(drives[dn]))]
      ensures ec == if Ready(old(drives[dn])) then 0 else LWERR_NOTREADY
      ensures ec != 0 ==> buf[..] == old(buf[..])
      ensures ec == 0 ==>
        buf[..off] == old(buf[..off]) && buf[off..off + SECTOR] == View(old(drives[dn]), lsn)
    {
      ghost var d := drives[dn];
      drives[dn] := Opened(drives[dn]);
      if !Ready(drives[dn]) { return LWERR_NOTREADY; }
      var f, at := drives[dn].file.value, SECTOR * lsn;
      ghost var all, v := drives[..], View(d, lsn);
      assert v == SectorOf(f, lsn);
      var rc := if |f| <= at then 0 else if |f| - at < SECTOR then |f| - at else SECTOR;
      var i := 0;
      while i < rc
        invariant 0 <= i <= rc && drives[..] == all
        invariant buf[..off] == old(buf[..off]) && buf[off..off + i] == v[..i]
      {
        buf[off + i] := f[at + i];
        assert buf[off..off + i + 1] == buf[off..off + i] + [v[i]] == v[..i + 1];
        i := i + 1;
      }
      while i < SECTOR
        invariant rc <= i <= SECTOR && drives[..] == all
        invariant buf[..off] == old(buf[..off]) && buf[off..off + i] == v[..i]
      {
        buf[off + i] := 0;
        assert buf[off..off + i + 1] == buf[off..off + i] + [v[i]] == v[..i + 1];
        i := i + 1;
      }
      ec := 0;
    }

    /** `lwwire_save_sector`. */
    method SaveSector(dn: byte, lsn: nat, data: seq<byte>) returns (ec: byte)
      requires Valid() && |data| == SECTOR
      modifies drives
      ensures var (d, code) := Save(old(drives[dn]), lsn, data);
        drives[..] == old(drives[..])[dn := d] && ec == code
    {
      if drives[dn].isconst { return LWERR_WRITE; }
      drives[dn] := Opened(drives[dn]);
      if !Ready(drives[dn]) { return LWERR_NOTREADY; }
      drives[dn] := drives[dn].(file := Some(Written(drives[dn].file.value, lsn, data)));
      ec := 0;
    }

    /** `lwwire_proto_read`. */
    method ProtoRead(args: seq<byte>) returns (out: seq<byte>)
      requires Valid() && |args| == 4
      modifies drives
      ensures drives[..] == old(drives[..])[args[0] := Opened(old(drives[args[0]]))]
      ensures out == ReadReply(old(drives[args[0]]), Lsn(args))
    {
      hide Sum, View, Opened, Ready;
      ghost var v := View(drives[args[0]], Lsn(args));
      var buf := new byte[259](_ => 0);
      var ec := FetchSector(args[0], Lsn(args), buf, 1);
      if ec != 0 { return [ec]; }
      SumBound(v);
      var sum := SumOf(buf, 1);
      buf[257], buf[258] := sum / 256, sum % 256;
      out := [ec] + buf[1..259];
      assert buf[1..259] == v + Halves(sum);
    }

    /** The checksum loops: 16-bit sums of 256 bytes, which do not wrap. */
    method SumOf(buf: array<byte>, from: nat) returns (sum: nat)
      requires from + SECTOR <= buf.Length
      ensures sum == Sum(buf[from..from + SECTOR]) < 0x10000
    {
      sum := 0;
      var i := 0;
      while i < SECTOR
        invariant 0 <= i <= SECTOR && sum == Sum(buf[from..from + i])
      {
        SumBound(buf[from..from + i]);
        assert buf[from..from + i + 1][..i] == buf[from..from + i];
        sum := (sum + buf[from + i]) % 0x10000;
        i := i + 1;
      }
      SumBound(buf[from..from + SECTOR]);
    }

    /** `lwwire_proto_write`. */
    method ProtoWrite(args: seq<byte>) returns (out: seq<byte>)
      requires Valid() && |args| == 262
      modifies drives
      ensures var (d, ec) := WriteResult(old(drives[args[0]]), args);
        drives[..] == old(drives[..])[args[0] := d] && out == [ec]
    {
      var buf := new byte[262](i requires 0 <= i < 262 => args[i]);
      assert buf[..] == args && buf[4..260] == args[4..260];
      var sum := SumOf(buf, 4);
      var ec := LWERR_CHECKSUM;
      if sum == Word(buf[260], buf[261]) {
        ec := SaveSector(buf[0], Lsn(buf[..]), buf[4..260]);
      }
      out := [ec];
    }

    /** `lwwire_proto_readex` up to where it waits for the client's sum. */
    method ProtoReadEx(args: seq<byte>) returns (out: seq<byte>, ec: byte, csum: nat)
      requires Valid() && |args| == 4
      modifies drives
      ensures drives[..] == old(drives[..])[args[0] := Opened(old(drives[args[0]]))]
      ensures ec == if Ready(old(drives[args[0]])) then 0 else LWERR_NOTREADY
      ensures out == DwServer.ReadExData(old(drives[args[0]]), Lsn(args)) && csum == Sum(out)
    {
      var buf := new byte[256](_ => 0);
      ec := FetchSector(args[0], Lsn(args), buf, 0);
      if ec != 0 {
        forall k | 0 <= k < 256 { buf[k] := 0; }
      }
      csum := SumOf(buf, 0);
      out := buf[0..256];
    }

    /** The dispatch loop, one byte at a time. */
    method Receive(b: byte) returns (out: seq<byte>)
      requires Valid()
      modifies this, drives
      ensures Valid() && (St(), out) == Feed(old(St()), b)
    {
      match phase
      case Opcode =>
        if Need(b) == 0 {
          out := Handle(b, []);
        } else {
          phase, out := Args(b, []), [];
        }
      case Args(op, got) =>
        if |got| + 1 < Need(op) {
          phase, out := Args(op, got + [b]), [];
        } else {
          out := Handle(op, got + [b]);
        }
      case Echo(ec, csum, sum) =>
        if |sum| == 0 {
          phase, out := Echo(ec, csum, [b]), [];
        } else {
          phase, out := Opcode, [EchoCode(ec, csum, sum + [b])];
        }
    }

    method Handle(op: byte, args: seq<byte>) returns (out: seq<byte>)
      requires Valid() && |args| == Need(op)
      modifies this, drives
      ensures Valid() && (St(), out) == DwServer.Handle(old(St()), op, args)
    {
      phase := Opcode;
      if IsRead(op) {
        out := ProtoRead(args);
      } else if IsReadEx(op) {
        var ec, csum;
        out, ec, csum := ProtoReadEx(args);
        phase := Echo(ec, csum, []);
      } else if IsWrite(op) {
        out := ProtoWrite(args);
      } else if op == 0x23 {
        out := now;
      } else if op == 0x5A {
        out := [0x80];
      } else if op == 0xF0 {
        out := [0x55];
      } else if op == 0xF1 {
        out := [0x42];
      } else {
        out := [];
      }
    }
  }

  /** The client, with the server at the other end of its line. */
  class Client {
    const server: Server
    const b2: array<byte>   // the request: READEX, drive, and three bytes of sector number

    ghost predicate Valid()
      reads this, server, server.drives, b2
    {
      && server.Valid() && server.phase == Opcode
      && b2.Length == 5 && b2[0] == 0xD2
    }

    /** `dw_init`'s lasting effect: the drive number in the request. */
    constructor (server: Server, drive: byte)
      requires server.Valid() && server.phase == Opcode
      ensures Valid() && fresh(b2) && b2[1] == drive && this.server == server
    {
      this.server := server;
      b2 := new byte[5](i => if i == 0 then 0xD2 else if i == 1 then drive else 0);
    }

    /** `dw_trans`: sends bytes, takes `|noise|` bytes back, and sums them; it fails if fewer come. */
    method Trans(send: seq<byte>, noise: seq<byte>) returns (ok: bool, got: seq<byte>, sum: nat)
      requires server.Valid()
      modifies server, server.drives
      ensures server.Valid() && server.St() == FeedAll(old(server.St()), send).0
      ensures var out := FeedAll(old(server.St()), send).1;
        && (ok <==> |noise| <= |out|)
        && (ok ==> got == Received(out[..|noise|], noise)) && sum == Sum(got)
    {
      var out := [];
      var i := 0;
      ghost var s0 := server.St();
      while i < |send|
        invariant 0 <= i <= |send| && server.Valid()
        invariant (server.St(), out) == FeedAll(s0, send[..i])
      {
        FeedOne(s0, send[..i], send[i]);
        assert send[..i + 1] == send[..i] + [send[i]];
        var more := server.Receive(send[i]);
        out := out + more;
        i := i + 1;
      }
      assert send[..i] == send;
      ok := |noise| <= |out|;
      var n: nat := if ok then |noise| else |out|;
      got, sum := Take(out[..n], noise[..n]);
      assert ok ==> noise[..n] == noise;
    }

    /** Takes bytes off the line and sums them, as DWRead does. */
    method Take(sent: seq<byte>, noise: seq<byte>) returns (got: seq<byte>, sum: nat)
      requires |noise| == |sent|
      ensures got == Received(sent, noise) && sum == Sum(got)
    {
      got, sum := [], 0;
      var i := 0;
      while i < |sent|
        invariant 0 <= i <= |sent| && |got| == i && sum == Sum(got)
        invariant forall k :: 0 <= k < i ==> got[k] == Received(sent, noise)[k]
      {
        var b: byte := ((sent[i] as int) + noise[i]) % 256;
        assert (got + [b])[..i] == got;
        got, sum := got + [b], sum + b;
        i := i + 1;
      }
    }

    /** Puts a sector number into the request. */
    method Address(lsn: nat)
      requires Valid() && lsn < 0x1000000
      modifies b2
      ensures Valid() && b2[1] == old(b2[1]) && b2[..] == [0xD2] + b2[1..5] && Lsn(b2[1..5]) == lsn
    {
      b2[4] := lsn % 0x100;
      b2[3] := lsn / 0x100 % 0x100;
      b2[2] := lsn / 0x10000;
    }

    /** `read`: one READEX transaction; its result is 0 only if the drive is there and the sums agree. */
    method Read(buf: array<byte>, off: nat, lsn: nat, noise: seq<byte>) returns (ret: byte)
      requires Valid() && buf != b2 && off + SECTOR <= buf.Length && lsn < 0x1000000 && |noise| == SECTOR
      modifies b2, buf, server, server.drives
      ensures Valid() && b2[1] == old(b2[1]) && SameViews(old(server.St()), server.St())
      ensures var d := old(server.drives[b2[1]]); var sent := DwServer.ReadExData(d, lsn);
        && buf[off..off + SECTOR] == Received(sent, noise)
        && (ret == 0 <==> Ready(d) && Sum(Received(sent, noise)) == Sum(sent))
      ensures buf[..off] == old(buf[..off])
    {
      hide FeedAll, View, Received, DwServer.ReadExData, Ready, Sum, Lsn;
      ghost var s0, d := server.St(), server.drives[b2[1]];
      Address(lsn);
      DwRuns.ReadExData(s0, 0xD2, b2[1..5]);
      var ok, got, sum := Trans(b2[..], noise);
      ghost var sent, s1 := DwServer.ReadExData(d, lsn), server.St();
      assert sent[..|noise|] == sent;
      CopyOut(got, buf, off);
      SumBound(got);
      ReadExCode(s1, sum / 256, sum % 256);
      var ok', code, _ := Trans([sum / 256, sum % 256], [0]);
      ghost var out := FeedAll(s1, [sum / 256, sum % 256]).1;
      PlainByte(out);
      b2[4] := code[0];
      ret := if ok && ok' then b2[4] else 255;
    }

    lemma PlainByte(out: seq<byte>)
      requires |out| == 1
      ensures Received(out[..1], [0]) == out
    {
    }

    method CopyOut(got: seq<byte>, buf: array<byte>, off: nat)
      requires off + |got| <= buf.Length
      modifies buf
      ensures buf[..off] == old(buf[..off]) && buf[off..off + |got|] == got
    {
      var i := 0;
      while i < |got|
        invariant 0 <= i <= |got| && buf[..off] == old(buf[..off])
        invariant buf[off..off + i] == got[..i]
      {
        buf[off + i] := got[i];
        i := i + 1;
      }
    }

    /**
     `dw_read`: fetches the two sectors of a block. On a clean line it succeeds exactly for blocks below 0x800000 of a
     drive that is there; on a line that spoils no more than one byte of each sector it never reports success with
     anything but the drive's own bytes in the buffer.
     */
    method DwRead(buf: array<byte>, blk: nat, noise: seq<byte>, noise': seq<byte>) returns (ok: bool)
      requires Valid() && buf != b2 && buf.Length == 512 && |noise| == |noise'| == SECTOR
      modifies b2, buf, server, server.drives
      ensures Valid() && SameViews(old(server.St()), server.St())
      ensures blk >= 0x800000 ==> !ok && buf[..] == old(buf[..]) && server.St() == old(server.St())
      ensures var d := old(server.drives[b2[1]]);
        && (ok ==> Ready(d))
        && (ok && OnceAtMost(noise) && OnceAtMost(noise') ==> buf[..] == View(d, 2 * blk) + View(d, 2 * blk + 1))
        && (blk < 0x800000 && Ready(d) && Silent(noise) && Silent(noise') ==> ok)
    {
      hide View, Received, Sum, OnceAtMost, Silent;
      if blk >= 0x800000 { return false; }
      ghost var d := server.drives[b2[1]];
      var one, two := 2 * blk, 2 * blk + 1;
      var ret := Read(buf, 0, one, noise);
      Arrives(DwServer.ReadExData(d, one), noise);
      if ret != 0 { return false; }
      ghost var first := buf[0..256];
      ret := Read(buf, 256, two, noise');
      Arrives(DwServer.ReadExData(d, two), noise');
      assert buf[..256] == first && buf[..] == buf[..256] + buf[256..256 + SECTOR];
      ok := ret == 0;
    }
  }

  /** What a sector that arrives with the right sum is worth. */
  lemma Arrives(sent: seq<byte>, noise: seq<byte>)
    requires |sent| == |noise|
    ensures OnceAtMost(noise) && Sum(Received(sent, noise)) == Sum(sent) ==> Received(sent, noise) == sent
    ensures Silent(noise) ==> Received(sent, noise) == sent
  {
    if OnceAtMost(noise) && Sum(Received(sent, noise)) == Sum(sent) { OneByteIsDetected(sent, noise); }
    if Silent(noise) { Quiet(sent, noise); }
  }

  ghost predicate Silent(noise: seq<byte>) {
    forall i :: 0 <= i < |noise| ==> noise[i] == 0
  }
}
