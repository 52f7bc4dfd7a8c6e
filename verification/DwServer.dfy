/** The DriveWire server as a map from drives and sector numbers to sectors, and its byte-by-byte protocol. */
module DwServer {
  import opened Bytes

  const SECTOR := 256
  const LWERR_CHECKSUM: byte := 0xF3
  const LWERR_WRITE: byte := 0xF5
  const LWERR_NOTREADY: byte := 0xF6

  // ----- drives -----

  /** A drive given on the command line, and the image file its path names, if that exists. */
  datatype Drive = Drive(path: bool, isconst: bool, file: Option<seq<byte>>)

  /** Whether the image can be opened; one that does not exist is created unless the drive is read-only. */
  predicate Ready(d: Drive) {
    d.path && (d.file.Some? || !d.isconst)
  }

  /** The drive once its image has been opened. */
  function Opened(d: Drive): (r: Drive)
    ensures r.path == d.path && r.isconst == d.isconst && Ready(r) == Ready(d) && (Ready(r) ==> r.file.Some?)
    ensures forall l: nat :: View(r, l) == View(d, l)
  {
    if d.path && d.file.None? && !d.isconst then d.(file := Some([])) else d
  }

  /** A sector of a file of any length. */
  function SectorOf(f: seq<byte>, l: nat): (r: seq<byte>)
    ensures |r| == SECTOR
  {
    seq(SECTOR, i requires 0 <= i < SECTOR => if SECTOR * l + i < |f| then f[SECTOR * l + i] else 0)
  }

  /** What a drive shows at a sector number. */
  function View(d: Drive, l: nat): (r: seq<byte>)
    ensures |r| == SECTOR
  {
    SectorOf(if d.file.Some? then d.file.value else [], l)
  }

  function Zeros(n: nat): (r: seq<byte>)
    ensures |r| == n && forall i :: 0 <= i < n ==> r[i] == 0
  {
    seq(n, _ => 0)
  }

  /** A file after a seek and a write; a seek past the end leaves zeros behind. */
  function Written(f: seq<byte>, l: nat, data: seq<byte>): seq<byte> {
    var at := SECTOR * l;
    (if |f| < at then f + Zeros(at - |f|) else f[..at]) + data + (if |f| > at + |data| then f[at + |data|..] else [])
  }

  /** On files of any length, a write changes that one sector and no other. */
  lemma WrittenSector(f: seq<byte>, l: nat, data: seq<byte>, m: nat)
    requires |data| == SECTOR
    ensures SectorOf(Written(f, l, data), m) == if m == l then data else SectorOf(f, m)
  {
    var w := Written(f, l, data);
    assert SECTOR * l + SECTOR <= |w| && |w| == if |f| > SECTOR * l + SECTOR then |f| else SECTOR * l + SECTOR;
    forall k: nat ensures (if k < |w| then w[k] else 0) ==
      if SECTOR * l <= k < SECTOR * l + SECTOR then data[k - SECTOR * l] else if k < |f| then f[k] else 0
    {
    }
    if m < l { SectorsApart(m, l); }
    if l < m { SectorsApart(l, m); }
    assert forall i :: 0 <= i < SECTOR ==> SectorOf(w, m)[i] == (if m == l then data else SectorOf(f, m))[i];
  }

  lemma SectorsApart(l: nat, m: nat)
    requires l < m
    ensures SECTOR * l + SECTOR <= SECTOR * m
  {
  }

  /** `lwwire_save_sector`. */
  function Save(d: Drive, l: nat, data: seq<byte>): (r: (Drive, byte))
  {
    if d.isconst then (d, LWERR_WRITE)
    else if !Ready(d) then (d, LWERR_NOTREADY)
    else (Opened(d).(file := Some(Written(Opened(d).file.value, l, data))), 0)
  }

  /** A save is refused exactly on a read-only or absent drive, and then changes nothing. */
  lemma SaveIsUpdate(d: Drive, l: nat, data: seq<byte>, m: nat)
    requires |data| == SECTOR
    ensures var (e, ec) := Save(d, l, data);
      && (ec == 0 <==> d.path && !d.isconst) && (ec != 0 ==> e == d)
      && View(e, m) == (if ec == 0 && m == l then data else View(d, m))
      && e.isconst == d.isconst && e.path == d.path
  {
    if d.path && !d.isconst { WrittenSector(Opened(d).file.value, l, data, m); }
    assert View(Opened(d), m) == View(d, m);
  }

  // ----- checksums -----

  function Sum(s: seq<byte>): (n: nat)
    decreases |s|
  {
    if s == [] then 0 else Sum(s[..|s| - 1]) + s[|s| - 1]
  }

  /** A sector's sum fits the 16 bits it is kept in. */
  lemma {:induction false} SumBound(s: seq<byte>)
    ensures Sum(s) <= 255 * |s|
    decreases |s|
  {
    if s != [] { SumBound(s[..|s| - 1]); }
  }

  /** A change in one byte changes the sum. */
  lemma {:induction false} SumUpdate(s: seq<byte>, i: nat, b: byte)
    requires i < |s|
    ensures Sum(s[i := b]) == Sum(s) - s[i] + b
    decreases |s|
  {
    var n := |s| - 1;
    if i < n {
      SumUpdate(s[..n], i, b);
      assert s[i := b][..n] == s[..n][i := b];
    } else {
      assert s[i := b][..n] == s[..n];
    }
  }

  // ----- the protocol -----

  /** What the server is blocked on: an operation code, the rest of a request, or the client's checksum. */
  datatype Phase =
    | Opcode
    | Args(op: byte, got: seq<byte>)
    | Echo(ec: byte, csum: nat, sum: seq<byte>)

  datatype State = State(drives: seq<Drive>, phase: Phase, now: seq<byte>)

  predicate Valid(s: State) {
    && |s.drives| == 256
    && match s.phase
       case Opcode => true
       case Args(op, got) => |got| < Need(op)
       case Echo(_, _, sum) => |sum| < 2
  }

  predicate IsRead(op: byte) { op == 0x52 || op == 0x72 }
  predicate IsWrite(op: byte) { op == 0x57 || op == 0x77 }
  predicate IsReadEx(op: byte) { op == 0xD2 || op == 0xF2 }

  /** How many bytes follow an operation code. */
  function Need(op: byte): nat {
    if IsRead(op) || IsReadEx(op) then 4
    else if IsWrite(op) then 262
    else if op == 0x47 || op == 0x53 || op == 0xF3 then 2
    else if op == 0x50 || op == 0x5A || op == 0xF0 || op == 0xF1 then 1
    else 0
  }

  function Lsn(args: seq<byte>): (l: nat)
    requires |args| >= 4
    ensures l < 0x1000000
  {
    0x10000 * (args[1] as int) + 0x100 * (args[2] as int) + args[3]
  }

  function Word(hi: byte, lo: byte): nat { 256 * (hi as int) + lo }

  function Halves(n: nat): (r: seq<byte>)
    requires n < 0x10000
    ensures |r| == 2 && Word(r[0], r[1]) == n
  {
    [n / 256, n % 256]
  }

  /** The answer to READ: an error code, or 0, the sector and its sum. */
  function ReadReply(d: Drive, l: nat): seq<byte> {
    SumBound(View(d, l));
    if Ready(d) then [0] + View(d, l) + Halves(Sum(View(d, l))) else [LWERR_NOTREADY]
  }

  /** What READEX sends before it knows the client's sum: zeros when there is no drive. */
  function ReadExData(d: Drive, l: nat): (r: seq<byte>)
    ensures |r| == SECTOR
  {
    if Ready(d) then View(d, l) else Zeros(SECTOR)
  }

  /** A complete WRITE request whose sum is right. */
  predicate GoodWrite(args: seq<byte>) {
    |args| == 262 && Sum(args[4..260]) == Word(args[260], args[261])
  }

  function WriteResult(d: Drive, args: seq<byte>): (Drive, byte)
    requires |args| == 262
  {
    if GoodWrite(args) then Save(d, Lsn(args), args[4..260]) else (d, LWERR_CHECKSUM)
  }

  /** Handling a request all of whose bytes have come in. */
  function Handle(s: State, op: byte, args: seq<byte>): (r: (State, seq<byte>))
    requires |s.drives| == 256 && |args| == Need(op)
    ensures |r.0.drives| == 256
  {
    var idle := s.(phase := Opcode);
    if IsRead(op) then
      var d := s.drives[args[0]];
      (idle.(drives := s.drives[args[0] := Opened(d)]), ReadReply(d, Lsn(args)))
    else if IsReadEx(op) then
      var d := s.drives[args[0]];
      var data := ReadExData(d, Lsn(args));
      var ec := if Ready(d) then 0 else LWERR_NOTREADY;
      (s.(drives := s.drives[args[0] := Opened(d)], phase := Echo(ec, Sum(data), [])), data)
    else if IsWrite(op) then
      var (d, ec) := WriteResult(s.drives[args[0]], args);
      (idle.(drives := s.drives[args[0] := d]), [ec])
    else if op == 0x23 then (idle, s.now)
    else if op == 0x5A then (idle, [0x80])
    else if op == 0xF0 then (idle, [0x55])
    else if op == 0xF1 then (idle, [0x42])
    else (idle, [])
  }

  /** The code that ends a READEX. */
  function EchoCode(ec: byte, csum: nat, sum: seq<byte>): byte
    requires |sum| == 2
  {
    if Word(sum[0], sum[1]) != csum then LWERR_CHECKSUM else ec
  }

  /** One byte from the client. */
  function Feed(s: State, b: byte): (r: (State, seq<byte>))
    requires Valid(s)
    ensures Valid(r.0)
  {
    match s.phase
    case Opcode => if Need(b) == 0 then Handle(s, b, []) else (s.(phase := Args(b, [])), [])
    case Args(op, got) =>
      if |got| + 1 < Need(op) then (s.(phase := Args(op, got + [b])), []) else Handle(s, op, got + [b])
    case Echo(ec, csum, sum) =>
      if |sum| == 0 then (s.(phase := Echo(ec, csum, [b])), [])
      else (s.(phase := Opcode), [EchoCode(ec, csum, sum + [b])])
  }

  function FeedAll(s: State, bs: seq<byte>): (r: (State, seq<byte>))
    requires Valid(s)
    ensures Valid(r.0)
    decreases |bs|
  {
    if bs == [] then (s, [])
    else
      var (t, o) := FeedAll(s, bs[..|bs| - 1]);
      var (u, p) := Feed(t, bs[|bs| - 1]);
      (u, o + p)
  }

  lemma FeedOne(s: State, bs: seq<byte>, b: byte)
    requires Valid(s)
    ensures FeedAll(s, bs + [b]) ==
      (Feed(FeedAll(s, bs).0, b).0, FeedAll(s, bs).1 + Feed(FeedAll(s, bs).0, b).1)
  {
    assert (bs + [b])[..|bs|] == bs;
  }

  lemma {:induction false} FeedConcat(s: State, bs: seq<byte>, cs: seq<byte>)
    requires Valid(s)
    ensures FeedAll(s, bs + cs) ==
      (FeedAll(FeedAll(s, bs).0, cs).0, FeedAll(s, bs).1 + FeedAll(FeedAll(s, bs).0, cs).1)
    decreases |cs|
  {
    hide Feed;
    if cs == [] {
      assert bs + cs == bs && FeedAll(s, bs).1 + [] == FeedAll(s, bs).1;
    } else {
      var n := |cs| - 1;
      FeedConcat(s, bs, cs[..n]);
      assert bs + cs == (bs + cs[..n]) + [cs[n]] && cs == cs[..n] + [cs[n]];
      FeedOne(s, bs + cs[..n], cs[n]);
      var t := FeedAll(s, bs).0;
      FeedOne(t, cs[..n], cs[n]);
      Assoc(FeedAll(s, bs).1, FeedAll(t, cs[..n]).1, Feed(FeedAll(t, cs[..n]).0, cs[n]).1);
    }
  }

  lemma Assoc(a: seq<byte>, b: seq<byte>, c: seq<byte>)
    ensures (a + b) + c == a + (b + c)
  {
  }

  /** A request is handled when its last byte comes in, and not before. */
  lemma {:induction false} FeedRequest(s: State, op: byte, args: seq<byte>)
    requires Valid(s) && s.phase == Opcode && 0 < Need(op) && |args| <= Need(op)
    ensures FeedAll(s, [op] + args) ==
      if |args| < Need(op) then (s.(phase := Args(op, args)), []) else Handle(s, op, args)
    decreases |args|
  {
    hide Handle, Need;
    if args == [] {
      assert [op] + args == [] + [op] && FeedAll(s, []) == (s, []);
      FeedOne(s, [], op);
      assert Feed(s, op) == (s.(phase := Args(op, [])), []);
      var none: seq<byte> := [];
      assert none + [] == none;
    } else {
      var n := |args| - 1;
      FeedRequest(s, op, args[..n]);
      assert [op] + args == ([op] + args[..n]) + [args[n]] && args[..n] + [args[n]] == args;
      FeedOne(s, [op] + args[..n], args[n]);
      var t := s.(phase := Args(op, args[..n]));
      assert t.(phase := Args(op, args)) == s.(phase := Args(op, args));
      if |args| == Need(op) { HandleForgets(s, t, op, args); }
      var r := Feed(t, args[n]);
      assert [] + r.1 == r.1;
    }
  }

  /** What a request does is independent of the phase it is handled in. */
  lemma HandleForgets(s: State, t: State, op: byte, args: seq<byte>)
    requires |s.drives| == 256 && |args| == Need(op) && t.drives == s.drives && t.now == s.now
    ensures Handle(t, op, args) == Handle(s, op, args)
  {
  }
}
