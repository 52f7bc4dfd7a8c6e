/** What whole runs of the DriveWire server do, and what a READEX transaction guarantees its client. */
module DwRuns {
  import opened Bytes
  import opened DwServer

  // ----- single requests -----

  /** WRITE answers one byte; it is 0 exactly when the sum is right and the drive writable, else nothing has changed. */
  lemma WriteRequest(s: State, op: byte, args: seq<byte>, dn: byte, l: nat)
    requires Valid(s) && s.phase == Opcode && IsWrite(op) && |args| == 262
    ensures var (t, out) := FeedAll(s, [op] + args);
      && t.phase == Opcode && |out| == 1
      && (out[0] == 0 <==> GoodWrite(args) && s.drives[args[0]].path && !s.drives[args[0]].isconst)
      && (out[0] != 0 ==> t == s)
      && View(t.drives[dn], l) ==
        (if out[0] == 0 && dn == args[0] && l == Lsn(args) then args[4..260] else View(s.drives[dn], l))
  {
    FeedRequest(s, op, args);
    if GoodWrite(args) { SaveIsUpdate(s.drives[args[0]], Lsn(args), args[4..260], l); }
    assert s.drives[args[0] := s.drives[args[0]]] == s.drives;
  }

  /** READ answers with what the drive shows, and changes nothing that can be seen. */
  lemma ReadRequest(s: State, op: byte, args: seq<byte>, dn: byte, l: nat)
    requires Valid(s) && s.phase == Opcode && IsRead(op) && |args| == 4
    ensures var (t, out) := FeedAll(s, [op] + args); var d := s.drives[args[0]];
      && t.phase == Opcode && View(t.drives[dn], l) == View(s.drives[dn], l)
      && (if Ready(d) then
            && |out| == 259 && out[0] == 0 && out[1..257] == View(d, Lsn(args))
            && Word(out[257], out[258]) == Sum(View(d, Lsn(args)))
          else out == [LWERR_NOTREADY])
  {
    FeedRequest(s, op, args);
    var v := View(s.drives[args[0]], Lsn(args));
    SumBound(v);
    var h := Halves(Sum(v));
    assert ([0] + v + h)[1..257] == v && ([0] + v + h)[257] == h[0] && ([0] + v + h)[258] == h[1];
  }

  // ----- whole runs -----

  /** A write the server has accepted. */
  datatype Update = Update(drive: byte, lsn: nat, data: seq<byte>)

  /** The write that byte `b` completes, if it does and the server accepts it. */
  function Completed(s: State, b: byte): (r: seq<Update>)
    requires Valid(s)
  {
    if s.phase.Args? && IsWrite(s.phase.op) && |s.phase.got| + 1 == 262 then
      var args := s.phase.got + [b];
      if WriteResult(s.drives[args[0]], args).1 == 0 then [Update(args[0], Lsn(args), args[4..260])] else []
    else []
  }

  /** The accepted writes of a run, in order. */
  function Accepted(s: State, bs: seq<byte>): seq<Update>
    requires Valid(s)
    decreases |bs|
  {
    if bs == [] then []
    else Accepted(s, bs[..|bs| - 1]) + Completed(FeedAll(s, bs[..|bs| - 1]).0, bs[|bs| - 1])
  }

  /** The newest value written to a sector. */
  function Newest(log: seq<Update>, dn: byte, l: nat, first: seq<byte>): seq<byte>
    decreases |log|
  {
    if log == [] then first
    else
      var u := log[|log| - 1];
      if u.drive == dn && u.lsn == l then u.data else Newest(log[..|log| - 1], dn, l, first)
  }

  lemma NewestOfTwo(log: seq<Update>, more: seq<Update>, dn: byte, l: nat, first: seq<byte>)
    requires |more| <= 1
    ensures Newest(log + more, dn, l, first) == Newest(more, dn, l, Newest(log, dn, l, first))
  {
    if more == [] {
      assert log + more == log;
    } else {
      assert (log + more)[..|log|] == log && more[..0] == [];
    }
  }

  lemma StepIsUpdate(s: State, b: byte, dn: byte, l: nat)
    requires Valid(s)
    ensures View(Feed(s, b).0.drives[dn], l) == Newest(Completed(s, b), dn, l, View(s.drives[dn], l))
    ensures Feed(s, b).0.drives[dn].path == s.drives[dn].path && Feed(s, b).0.drives[dn].isconst == s.drives[dn].isconst
  {
    hide View;
    match s.phase
    case Opcode => if Need(b) == 0 { HandleIsUpdate(s, b, [], dn, l); }
    case Args(op, got) => if |got| + 1 == Need(op) { HandleIsUpdate(s, op, got + [b], dn, l); }
    case Echo(_, _, _) =>
  }

  lemma HandleIsUpdate(s: State, op: byte, args: seq<byte>, dn: byte, l: nat)
    requires |s.drives| == 256 && |args| == Need(op)
    ensures var t := Handle(s, op, args).0; var d := s.drives[dn];
      && View(t.drives[dn], l) == (if IsWrite(op) && WriteResult(s.drives[args[0]], args).1 == 0
            && dn == args[0] && l == Lsn(args) then args[4..260] else View(d, l))
      && t.drives[dn].path == d.path && t.drives[dn].isconst == d.isconst
  {
    hide View;
    if IsWrite(op) && GoodWrite(args) { SaveIsUpdate(s.drives[args[0]], Lsn(args), args[4..260], l); }
  }

  /** In every run, every sector shows the newest write the server accepted for it, or what was there before. */
  lemma {:induction false} RunIsMap(s: State, bs: seq<byte>, dn: byte, l: nat)
    requires Valid(s)
    ensures var t := FeedAll(s, bs).0;
      && View(t.drives[dn], l) == Newest(Accepted(s, bs), dn, l, View(s.drives[dn], l))
      && t.drives[dn].path == s.drives[dn].path && t.drives[dn].isconst == s.drives[dn].isconst
    decreases |bs|
  {
    hide View, Feed, Completed;
    if bs != [] {
      var n := |bs| - 1;
      RunIsMap(s, bs[..n], dn, l);
      var t := FeedAll(s, bs[..n]).0;
      StepIsUpdate(t, bs[n], dn, l);
      CompletedOne(t, bs[n]);
      NewestOfTwo(Accepted(s, bs[..n]), Completed(t, bs[n]), dn, l, View(s.drives[dn], l));
    }
  }

  lemma CompletedOne(s: State, b: byte)
    requires Valid(s)
    ensures |Completed(s, b)| <= 1
  {
  }

  /** `bs[i..]` begins with a complete WRITE request for this update, with the right sum. */
  ghost predicate SentAt(bs: seq<byte>, i: nat, u: Update) {
    && i + 263 <= |bs| && IsWrite(bs[i]) && GoodWrite(bs[i + 1..i + 263])
    && u == Update(bs[i + 1], Lsn(bs[i + 1..i + 263]), bs[i + 1..i + 263][4..260])
  }

  /** The bytes of a request in progress are the last ones that came in. */
  lemma {:induction false} PendingIsTail(s: State, bs: seq<byte>)
    requires Valid(s) && s.phase == Opcode
    ensures var p := FeedAll(s, bs).0.phase; p.Args? ==> |p.got| < |bs| && bs[|bs| - 1 - |p.got|..] == [p.op] + p.got
    decreases |bs|
  {
    hide View, Feed;
    if bs != [] {
      var n := |bs| - 1;
      PendingIsTail(s, bs[..n]);
      PendingGrows(FeedAll(s, bs[..n]).0, bs[n]);
      var p, q := FeedAll(s, bs[..n]).0.phase, FeedAll(s, bs).0.phase;
      if q.Args? && q.got != [] {
        assert bs[n - |p.got| - 1..] == bs[..n][n - |p.got| - 1..] + [bs[n]];
      }
    }
  }

  lemma PendingGrows(s: State, b: byte)
    requires Valid(s)
    ensures var q := Feed(s, b).0.phase; q.Args? ==>
      (q.op == b && q.got == []) || (s.phase.Args? && q.op == s.phase.op && q.got == s.phase.got + [b])
  {
    hide View, WriteResult;
  }

  lemma CompletedWasSent(s: State, bs: seq<byte>, b: byte, u: Update)
    requires Valid(s) && s.phase == Opcode && u in Completed(FeedAll(s, bs).0, b)
    ensures s.drives[u.drive].path && !s.drives[u.drive].isconst && |bs| >= 262 && SentAt(bs + [b], |bs| - 262, u)
  {
    hide *;
    var t := FeedAll(s, bs).0;
    CompletedParts(t, b, u);
    PendingIsTail(s, bs);
    RunIsMap(s, bs, u.drive, 0);
    TailSlices(bs, b, |bs| - 262, t.phase.op, t.phase.got);
    Sent(bs + [b], |bs| - 262, u);
  }

  lemma Sent(bs: seq<byte>, i: nat, u: Update)
    requires i + 263 <= |bs| && IsWrite(bs[i]) && GoodWrite(bs[i + 1..i + 263])
    requires u == Update(bs[i + 1..i + 263][0], Lsn(bs[i + 1..i + 263]), bs[i + 1..i + 263][4..260])
    ensures SentAt(bs, i, u)
  {
  }

  lemma CompletedParts(t: State, b: byte, u: Update)
    requires Valid(t) && u in Completed(t, b)
    ensures t.phase.Args? && IsWrite(t.phase.op) && |t.phase.got| == 261
    ensures var args := t.phase.got + [b];
      GoodWrite(args) && u == Update(args[0], Lsn(args), args[4..260])
    ensures t.drives[u.drive].path && !t.drives[u.drive].isconst
  {
    hide View, GoodWrite, Lsn;
    Writable(t.drives[(t.phase.got + [b])[0]], t.phase.got + [b]);
  }

  lemma TailSlices(bs: seq<byte>, b: byte, i: nat, op: byte, got: seq<byte>)
    requires |got| == 261 && i + 262 == |bs| && bs[i..] == [op] + got
    ensures (bs + [b])[i] == op && (bs + [b])[i + 1..i + 263] == got + [b]
  {
    assert bs[i] == bs[i..][0] && bs[i + 1..] == bs[i..][1..] == got;
  }

  lemma Writable(d: Drive, args: seq<byte>)
    requires |args| == 262 && WriteResult(d, args).1 == 0
    ensures GoodWrite(args) && d.path && !d.isconst
  {
  }

  /** Whatever the server accepts was sent to it as a well-formed request, for a drive it may write. */
  lemma {:induction false} AcceptedWasSent(s: State, bs: seq<byte>, u: Update)
    requires Valid(s) && s.phase == Opcode && u in Accepted(s, bs)
    ensures s.drives[u.drive].path && !s.drives[u.drive].isconst && exists i :: SentAt(bs, i, u)
    decreases |bs|
  {
    hide View, Feed, FeedAll, Completed, GoodWrite, Lsn;
    var n := |bs| - 1;
    if u in Accepted(s, bs[..n]) {
      AcceptedWasSent(s, bs[..n], u);
      var i :| SentAt(bs[..n], i, u);
      assert bs[..n][i + 1..i + 263] == bs[i + 1..i + 263];
      assert SentAt(bs, i, u);
    } else {
      CompletedWasSent(s, bs[..n], bs[n], u);
      assert bs[..n] + [bs[n]] == bs;
    }
  }

  // ----- READEX -----

  /** What arrives of `sent` over a line that adds `noise` to every byte. */
  function Received(sent: seq<byte>, noise: seq<byte>): (r: seq<byte>)
    requires |noise| == |sent|
    ensures |r| == |sent|
  {
    seq(|sent|, i requires 0 <= i < |sent| => ((sent[i] as int) + noise[i]) % 256)
  }

  /** Noise in at most one place. */
  ghost predicate OnceAtMost(noise: seq<byte>) {
    forall i, j :: 0 <= i < j < |noise| ==> noise[i] == 0 || noise[j] == 0
  }

  /** A sum of one changed byte is a different sum, so READEX detects it. */
  lemma OneByteIsDetected(sent: seq<byte>, noise: seq<byte>)
    requires |noise| == |sent| && OnceAtMost(noise) && Sum(Received(sent, noise)) == Sum(sent)
    ensures Received(sent, noise) == sent
  {
    hide Received;
    if i :| 0 <= i < |sent| && noise[i] != 0 {
      OneChange(sent, noise, i);
      SumUpdate(sent, i, Received(sent, noise)[i]);
    } else {
      Quiet(sent, noise);
    }
  }

  lemma Quiet(sent: seq<byte>, noise: seq<byte>)
    requires |noise| == |sent| && forall i :: 0 <= i < |sent| ==> noise[i] == 0
    ensures Received(sent, noise) == sent
  {
  }

  lemma OneChange(sent: seq<byte>, noise: seq<byte>, i: nat)
    requires |noise| == |sent| && OnceAtMost(noise) && i < |sent| && noise[i] != 0
    ensures Received(sent, noise)[i] != sent[i]
    ensures Received(sent, noise) == sent[i := Received(sent, noise)[i]]
  {
    var got := Received(sent, noise);
    forall j | 0 <= j < |sent| && j != i ensures got[j] == sent[j] {
      assert noise[j] == 0;
    }
  }

  /** READEX, first half: four bytes of address out, 256 bytes back, and the server waits for their sum. */
  lemma ReadExData(s: State, op: byte, args: seq<byte>)
    requires Valid(s) && s.phase == Opcode && IsReadEx(op) && |args| == 4
    ensures var (t, out) := FeedAll(s, [op] + args); var d := s.drives[args[0]];
      && out == DwServer.ReadExData(d, Lsn(args))
      && t.phase == Echo(if Ready(d) then 0 else LWERR_NOTREADY, Sum(out), [])
      && SameViews(s, t)
  {
    FeedRequest(s, op, args);
  }

  /** Nothing that can be seen differs. */
  ghost predicate SameViews(s: State, t: State) {
    && |s.drives| == |t.drives| == 256
    && forall dn: byte ::
      && Ready(t.drives[dn]) == Ready(s.drives[dn])
      && forall l: nat :: View(t.drives[dn], l) == View(s.drives[dn], l)
  }

  /** READEX, second half: the code is 0 only if the client has the drive's sum. */
  lemma ReadExCode(s: State, hi: byte, lo: byte)
    requires Valid(s) && s.phase.Echo? && s.phase.sum == []
    ensures var (t, out) := FeedAll(s, [hi, lo]);
      && t == s.(phase := Opcode) && |out| == 1
      && (out[0] == 0 <==> Word(hi, lo) == s.phase.csum && s.phase.ec == 0)
  {
    FeedOne(s, [], hi);
    FeedOne(s, [hi], lo);
    assert [hi, lo] == [hi] + [lo] && [hi] == [] + [hi];
    assert FeedAll(s, []) == (s, []);
    assert Feed(s, hi) == (s.(phase := Echo(s.phase.ec, s.phase.csum, [hi])), []);
    assert [hi] + [lo] == [hi, lo];
  }
}
