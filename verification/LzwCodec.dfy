/**
 LZW on symbols: the prefix/suffix dictionary both programs keep, the strings it stands for, the parse of the compressor
 and the textbook string-table decoder.
 */
module LzwCodec {
  import opened Bytes

  const CLEAR := 256
  const FIRST_FREE := 257

  datatype Entry = Entry(prefix: nat, suffix: byte)

  /** Entry k belongs to code 257 + k. */
  type Dict = seq<Entry>

  ghost predicate IsCode(d: Dict, c: nat) {
    c < 256 || FIRST_FREE <= c < FIRST_FREE + |d|
  }

  /** Every entry refers to a smaller code that is not CLEAR, so following prefixes ends at a byte. */
  ghost predicate ValidDict(d: Dict) {
    forall k :: 0 <= k < |d| ==> d[k].prefix != CLEAR && d[k].prefix < FIRST_FREE + k
  }

  /** The string of a code. */
  ghost function Str(d: Dict, c: nat): (s: seq<byte>)
    requires ValidDict(d) && IsCode(d, c)
    ensures s != []
    decreases c
  {
    if c < 256 then [c] else Str(d, d[c - FIRST_FREE].prefix) + [d[c - FIRST_FREE].suffix]
  }

  lemma {:induction false} StrOfExtended(d: Dict, e: Entry, c: nat)
    requires ValidDict(d + [e]) && IsCode(d, c)
    ensures ValidDict(d) && Str(d + [e], c) == Str(d, c)
    decreases c
  {
    forall k | 0 <= k < |d| ensures d[k].prefix != CLEAR && d[k].prefix < FIRST_FREE + k {
      assert d[k] == (d + [e])[k];
    }
    if c >= 256 {
      StrOfExtended(d, e, d[c - FIRST_FREE].prefix);
    }
  }

  lemma StrOfNewest(d: Dict, e: Entry)
    requires ValidDict(d + [e])
    ensures ValidDict(d) && IsCode(d, e.prefix)
    ensures Str(d + [e], FIRST_FREE + |d|) == Str(d, e.prefix) + [e.suffix]
  {
    assert (d + [e])[|d|] == e;
    StrOfExtended(d, e, e.prefix);
  }

  lemma ExtendValid(d: Dict, e: Entry)
    requires ValidDict(d) && IsCode(d, e.prefix)
    ensures ValidDict(d + [e])
  {
  }

  /** A string is never longer than its entry's place in the dictionary allows. */
  lemma {:induction false} StrLength(d: Dict, c: nat)
    requires ValidDict(d) && IsCode(d, c)
    ensures c >= 256 ==> |Str(d, c)| <= c - CLEAR + 1
    ensures c < 256 ==> |Str(d, c)| == 1
    decreases c
  {
    if c >= 256 { StrLength(d, d[c - FIRST_FREE].prefix); }
  }

  // ----- the compressor's lookup -----

  ghost predicate Distinct(d: Dict) {
    forall j, k :: 0 <= j < k < |d| ==> d[j] != d[k]
  }

  /** Different codes stand for different strings. */
  lemma {:induction false} StrInjective(d: Dict, a: nat, b: nat)
    requires ValidDict(d) && Distinct(d) && IsCode(d, a) && IsCode(d, b)
    requires Str(d, a) == Str(d, b)
    ensures a == b
    decreases a + b
  {
    StrLength(d, a);
    StrLength(d, b);
    if a >= 256 && b >= 256 {
      var x, y := d[a - FIRST_FREE], d[b - FIRST_FREE];
      var s := Str(d, a);
      assert s[..|s| - 1] == Str(d, x.prefix) == Str(d, y.prefix);
      assert s[|s| - 1] == x.suffix == y.suffix;
      StrInjective(d, x.prefix, y.prefix);
    }
  }

  /** The code of the entry (p, x), if there is one. */
  ghost function Lookup(d: Dict, p: nat, x: byte): (r: Option<nat>)
    ensures r.Some? ==> FIRST_FREE <= r.value < FIRST_FREE + |d| && d[r.value - FIRST_FREE] == Entry(p, x)
    ensures r.None? ==> Entry(p, x) !in d
  {
    if exists k :: 0 <= k < |d| && d[k] == Entry(p, x) then
      var k :| 0 <= k < |d| && d[k] == Entry(p, x);
      Some(FIRST_FREE + k)
    else None
  }

  /** Comparing whole strings, as `exist` does, finds exactly the entry with that prefix and suffix. */
  lemma StringSearchIsLookup(d: Dict, p: nat, x: byte, h: nat)
    requires ValidDict(d) && Distinct(d) && IsCode(d, p) && FIRST_FREE <= h < FIRST_FREE + |d|
    ensures Str(d, h) == Str(d, p) + [x] <==> Lookup(d, p, x) == Some(h)
  {
    var e := d[h - FIRST_FREE];
    if Str(d, h) == Str(d, p) + [x] {
      hide Lookup;
      var s := Str(d, h);
      assert s == Str(d, e.prefix) + [e.suffix];
      assert s[..|s| - 1] == Str(d, e.prefix) == Str(d, p);
      assert s[|s| - 1] == e.suffix == x;
      StrInjective(d, e.prefix, p);
      assert d[h - FIRST_FREE] == Entry(p, x);
    }
  }

  // ----- the compressor's parse -----

  /**
   The symbols still to come, with dictionary d, pending symbol w and the rest of the input; the dictionary is
   unbounded.
   */
  ghost function Parse(d: Dict, w: nat, rest: seq<byte>): seq<nat>
    decreases |rest|
  {
    if rest == [] then [w]
    else
      match Lookup(d, w, rest[0])
      case Some(n) => Parse(d, n, rest[1..])
      case None => [w] + Parse(d + [Entry(w, rest[0])], rest[0], rest[1..])
  }

  ghost function Symbols(input: seq<byte>): seq<nat>
    requires input != []
  {
    Parse([], input[0], input[1..])
  }

  lemma {:induction false} ParseNonEmpty(d: Dict, w: nat, rest: seq<byte>)
    ensures 1 <= |Parse(d, w, rest)| <= |rest| + 1
    decreases |rest|
  {
    if rest != [] {
      match Lookup(d, w, rest[0])
      case Some(n) => ParseNonEmpty(d, n, rest[1..]);
      case None => ParseNonEmpty(d + [Entry(w, rest[0])], rest[0], rest[1..]);
    }
  }

  /** Every symbol is a code of the dictionary as it was when the symbol was sent, so never CLEAR. */
  lemma {:induction false} ParseCodes(d: Dict, w: nat, rest: seq<byte>, k: nat)
    requires ValidDict(d) && IsCode(d, w) && k < |Parse(d, w, rest)|
    ensures Parse(d, w, rest)[k] != CLEAR && Parse(d, w, rest)[k] < FIRST_FREE + |d| + k
    decreases |rest|
  {
    if rest != [] {
      match Lookup(d, w, rest[0])
      case Some(n) => ParseCodes(d, n, rest[1..], k);
      case None =>
        ExtendValid(d, Entry(w, rest[0]));
        if k > 0 { ParseCodes(d + [Entry(w, rest[0])], rest[0], rest[1..], k - 1); }
    }
  }

  // ----- the compressor with its nine-bit limit -----

  const MAX_ENTRIES := 255

  /**
   What is really sent. When the table is full and one more entry is needed the compressor sends CLEAR, empties the
   table, keeps the pending symbol and loses the byte it was looking at. `None`: it does so while the pending symbol
   is itself a table entry. The C code then goes on with a stale code: one above the entries in use, whose old prefix
   and suffix are still in the arrays until new entries overwrite them.
   */
  ghost function Sent(d: Dict, w: nat, rest: seq<byte>): Option<seq<nat>>
    decreases |rest|
  {
    if rest == [] then Some([w])
    else
      match Lookup(d, w, rest[0])
      case Some(n) => Sent(d, n, rest[1..])
      case None =>
        if |d| < MAX_ENTRIES then Before(w, Sent(d + [Entry(w, rest[0])], rest[0], rest[1..]))
        else if w < 256 then Before(CLEAR, Sent([], w, rest[1..]))
        else None
  }

  ghost function Before(s: nat, r: Option<seq<nat>>): Option<seq<nat>> {
    if r.None? then None else Some([s] + r.value)
  }

  /** The bytes of `rest` that are not lost. */
  ghost function Kept(d: Dict, w: nat, rest: seq<byte>): (k: seq<byte>)
    ensures |k| <= |rest|
    decreases |rest|
  {
    if rest == [] then []
    else
      match Lookup(d, w, rest[0])
      case Some(n) => [rest[0]] + Kept(d, n, rest[1..])
      case None =>
        if |d| < MAX_ENTRIES then [rest[0]] + Kept(d + [Entry(w, rest[0])], rest[0], rest[1..])
        else Kept([], w, rest[1..])
  }

  /** Nothing is lost if and only if the table never needs a 256th entry, and then what is sent is the plain parse. */
  lemma {:induction false} KeptIffFits(d: Dict, w: nat, rest: seq<byte>)
    requires |d| <= MAX_ENTRIES
    ensures |d| + |Parse(d, w, rest)| <= MAX_ENTRIES + 1 ==>
      Kept(d, w, rest) == rest && Sent(d, w, rest) == Some(Parse(d, w, rest))
    ensures |d| + |Parse(d, w, rest)| > MAX_ENTRIES + 1 ==> |Kept(d, w, rest)| < |rest|
    decreases |rest|
  {
    if rest != [] {
      assert [rest[0]] + rest[1..] == rest;
      match Lookup(d, w, rest[0])
      case Some(n) => KeptIffFits(d, n, rest[1..]);
      case None =>
        ParseNonEmpty(d + [Entry(w, rest[0])], rest[0], rest[1..]);
        if |d| < MAX_ENTRIES { KeptIffFits(d + [Entry(w, rest[0])], rest[0], rest[1..]); }
    }
  }

  // ----- the textbook decoder -----

  ghost predicate NonEmpty(t: seq<seq<byte>>) {
    forall k :: 0 <= k < |t| ==> t[k] != []
  }

  /** The string a received code stands for: a byte, a known string, or the one string not yet in the table. */
  ghost function Meaning(t: seq<seq<byte>>, prev: seq<byte>, c: nat): (s: seq<byte>)
    requires prev != [] && c != CLEAR && c <= FIRST_FREE + |t| && NonEmpty(t)
    ensures s != []
  {
    if c < 256 then [c]
    else if c < FIRST_FREE + |t| then t[c - FIRST_FREE]
    else prev + [prev[0]]
  }

  /**
   What follows after the string `prev`. After CLEAR the table is empty and a byte comes next. `None` on a code that is
   not yet known.
   */
  ghost function Unparse(t: seq<seq<byte>>, prev: seq<byte>, syms: seq<nat>): Option<seq<byte>>
    requires prev != [] && NonEmpty(t)
    decreases |syms|
  {
    if syms == [] then Some([])
    else if syms[0] == CLEAR then
      if |syms| < 2 || syms[1] >= 256 then None
      else
        var more := Unparse([], [syms[1]], syms[2..]);
        if more.None? then None else Some([syms[1]] + more.value)
    else if syms[0] > FIRST_FREE + |t| then None
    else
      var cur := Meaning(t, prev, syms[0]);
      var more := Unparse(t + [prev + [cur[0]]], cur, syms[1..]);
      if more.None? then None else Some(cur + more.value)
  }

  ghost function Strings(d: Dict): (t: seq<seq<byte>>)
    requires ValidDict(d)
    ensures |t| == |d| && NonEmpty(t)
    ensures forall k :: 0 <= k < |d| ==> t[k] == Str(d, FIRST_FREE + k)
  {
    var t := seq(|d|, k requires 0 <= k < |d| => Str(d, FIRST_FREE + k));
    assert forall k :: 0 <= k < |d| ==> t[k] == Str(d, FIRST_FREE + k) && t[k] != [];
    t
  }

  lemma StringsOfExtended(d: Dict, e: Entry)
    requires ValidDict(d + [e])
    ensures ValidDict(d) && IsCode(d, e.prefix)
    ensures Strings(d + [e]) == Strings(d) + [Str(d, e.prefix) + [e.suffix]]
  {
    StrOfNewest(d, e);
    forall k | 0 <= k < |d| ensures Strings(d + [e])[k] == Strings(d)[k] {
      StrOfExtended(d, e, FIRST_FREE + k);
    }
  }

  /** What the decoder makes of the symbol w, including the one it has not yet got an entry for. */
  lemma ReceivedMeaning(d: Dict, p: nat, a: byte, w: nat)
    requires ValidDict(d + [Entry(p, a)]) && ValidDict(d) && IsCode(d, p)
    requires IsCode(d + [Entry(p, a)], w) && Str(d + [Entry(p, a)], w)[0] == a
    ensures w != CLEAR && w <= FIRST_FREE + |d|
    ensures Meaning(Strings(d), Str(d, p), w) == Str(d + [Entry(p, a)], w)
  {
    StrOfNewest(d, Entry(p, a));
    if IsCode(d, w) { StrOfExtended(d, Entry(p, a), w); }
  }

  /** A code is received and the table grows by one string. */
  lemma UnparseStep(d: Dict, p: nat, a: byte, w: nat, tail: seq<nat>)
    requires ValidDict(d + [Entry(p, a)]) && ValidDict(d) && IsCode(d, p)
    requires IsCode(d + [Entry(p, a)], w) && Str(d + [Entry(p, a)], w)[0] == a
    ensures var d' := d + [Entry(p, a)];
      var more := Unparse(Strings(d'), Str(d', w), tail);
      Unparse(Strings(d), Str(d, p), [w] + tail) == if more.None? then None else Some(Str(d', w) + more.value)
  {
    ReceivedMeaning(d, p, a, w);
    StringsOfExtended(d, Entry(p, a));
    assert ([w] + tail)[1..] == tail;
  }

  lemma UnparseClear(d: Dict, p: nat, w: byte, tail: seq<nat>)
    requires ValidDict(d) && IsCode(d, p)
    ensures var more := Unparse([], [w], tail);
      Unparse(Strings(d), Str(d, p), [CLEAR] + ([w] + tail)) == if more.None? then None else Some([w] + more.value)
  {
    var all := [CLEAR] + ([w as nat] + tail);
    assert all[2..] == tail;
  }

  /** From an empty table the first symbol is the pending byte, and the rest decodes to what was kept. */
  lemma {:induction false} FromEmpty(w: byte, rest: seq<byte>)
    requires Sent([], w, rest).Some?
    ensures var s := Sent([], w, rest).value;
      s != [] && s[0] == w && Unparse([], [w], s[1..]) == Some(Kept([], w, rest))
    decreases |rest|, 0
  {
    if rest == [] {
      assert [w as nat][1..] == [];
    } else {
      var d: Dict := [];
      var e := Entry(w, rest[0]);
      assert d + [e] == [e];
      var s := Sent([e], rest[0], rest[1..]).value;
      assert ([w as nat] + s)[1..] == s;
      assert Strings(d) == [];
      DecoderLagsByOne(d, w, rest[0], rest[0], rest[1..]);
    }
  }

  /**
   The decoder's table is always the compressor's without its newest entry (p, a), and that is enough: the newest
   entry's string is only ever needed when it begins with its own last byte.
   */
  lemma {:induction false} DecoderLagsByOne(d: Dict, p: nat, a: byte, w: nat, rest: seq<byte>)
    requires ValidDict(d + [Entry(p, a)]) && ValidDict(d) && IsCode(d, p) && |d| < MAX_ENTRIES
    requires IsCode(d + [Entry(p, a)], w) && Str(d + [Entry(p, a)], w)[0] == a
    requires Sent(d + [Entry(p, a)], w, rest).Some?
    ensures var d' := d + [Entry(p, a)];
      Unparse(Strings(d), Str(d, p), Sent(d', w, rest).value) == Some(Str(d', w) + Kept(d', w, rest))
    decreases |rest|, 1
  {
    hide Str, Strings, Unparse, ValidDict, IsCode, Sent, Kept;
    if rest == [] {
      LastLags(d, p, a, w);
      SentOfNone(d + [Entry(p, a)], w);
    } else {
      SentCases(d + [Entry(p, a)], w, rest);
      if Lookup(d + [Entry(p, a)], w, rest[0]).Some? {
        KnownLags(d, p, a, w, rest);
      } else if |d| + 1 < MAX_ENTRIES {
        NewLags(d, p, a, w, rest);
      } else {
        ClearLags(d, p, a, w, rest);
      }
    }
  }

  lemma SentOfNone(d: Dict, w: nat)
    ensures Sent(d, w, []) == Some([w]) && Kept(d, w, []) == []
  {
  }

  /** One step of what is sent and kept. */
  lemma SentCases(d: Dict, w: nat, rest: seq<byte>)
    requires rest != []
    ensures Lookup(d, w, rest[0]).Some? ==>
      var n := Lookup(d, w, rest[0]).value;
      Sent(d, w, rest) == Sent(d, n, rest[1..]) && Kept(d, w, rest) == [rest[0]] + Kept(d, n, rest[1..])
    ensures Lookup(d, w, rest[0]).None? && |d| < MAX_ENTRIES ==>
      var d' := d + [Entry(w, rest[0])];
      && Sent(d, w, rest) == Before(w, Sent(d', rest[0], rest[1..]))
      && Kept(d, w, rest) == [rest[0]] + Kept(d', rest[0], rest[1..])
    ensures Lookup(d, w, rest[0]).None? && |d| >= MAX_ENTRIES ==>
      && Sent(d, w, rest) == (if w < 256 then Before(CLEAR, Sent([], w, rest[1..])) else None)
      && Kept(d, w, rest) == Kept([], w, rest[1..])
  {
  }

  lemma LastLags(d: Dict, p: nat, a: byte, w: nat)
    requires ValidDict(d + [Entry(p, a)]) && ValidDict(d) && IsCode(d, p)
    requires IsCode(d + [Entry(p, a)], w) && Str(d + [Entry(p, a)], w)[0] == a
    ensures Unparse(Strings(d), Str(d, p), [w]) == Some(Str(d + [Entry(p, a)], w) + [])
  {
    hide Str, Strings;
    UnparseStep(d, p, a, w, []);
    assert [w] + [] == [w] && Str(d + [Entry(p, a)], w) + [] == Str(d + [Entry(p, a)], w);
  }

  /** The pending string is extended to one that is in the table. */
  lemma {:induction false} KnownLags(d: Dict, p: nat, a: byte, w: nat, rest: seq<byte>)
    requires ValidDict(d + [Entry(p, a)]) && ValidDict(d) && IsCode(d, p) && |d| < MAX_ENTRIES
    requires IsCode(d + [Entry(p, a)], w) && Str(d + [Entry(p, a)], w)[0] == a
    requires rest != [] && Lookup(d + [Entry(p, a)], w, rest[0]).Some?
    requires Sent(d + [Entry(p, a)], Lookup(d + [Entry(p, a)], w, rest[0]).value, rest[1..]).Some?
    ensures var d' := d + [Entry(p, a)]; var n := Lookup(d', w, rest[0]).value;
      Unparse(Strings(d), Str(d, p), Sent(d', n, rest[1..]).value)
      == Some(Str(d', w) + ([rest[0]] + Kept(d', n, rest[1..])))
    decreases |rest|, 0
  {
    hide Strings, Unparse, Sent, Kept;
    var d' := d + [Entry(p, a)];
    var n := Lookup(d', w, rest[0]).value;
    assert Str(d', n) == Str(d', w) + [rest[0]];
    DecoderLagsByOne(d, p, a, n, rest[1..]);
    assert Str(d', n) + Kept(d', n, rest[1..]) == Str(d', w) + ([rest[0]] + Kept(d', n, rest[1..]));
  }

  /** The pending symbol is sent and the table grows. */
  lemma {:induction false} NewLags(d: Dict, p: nat, a: byte, w: nat, rest: seq<byte>)
    requires ValidDict(d + [Entry(p, a)]) && ValidDict(d) && IsCode(d, p) && |d| + 1 < MAX_ENTRIES
    requires IsCode(d + [Entry(p, a)], w) && Str(d + [Entry(p, a)], w)[0] == a
    requires rest != [] && Sent(d + [Entry(p, a)] + [Entry(w, rest[0])], rest[0], rest[1..]).Some?
    ensures var d' := d + [Entry(p, a)]; var d'' := d' + [Entry(w, rest[0])];
      Unparse(Strings(d), Str(d, p), [w] + Sent(d'', rest[0], rest[1..]).value)
      == Some(Str(d', w) + ([rest[0]] + Kept(d'', rest[0], rest[1..])))
    decreases |rest|, 0
  {
    hide Strings, Unparse, Sent, Kept;
    var d' := d + [Entry(p, a)];
    var f := Entry(w, rest[0]);
    ExtendValid(d', f);
    DecoderLagsByOne(d', w, rest[0], rest[0], rest[1..]);
    UnparseStep(d, p, a, w, Sent(d' + [f], rest[0], rest[1..]).value);
  }

  /** The table is full and the pending symbol a byte. */
  lemma {:induction false} ClearLags(d: Dict, p: nat, a: byte, w: nat, rest: seq<byte>)
    requires ValidDict(d + [Entry(p, a)]) && ValidDict(d) && IsCode(d, p)
    requires w < 256 && rest != [] && Sent([], w, rest[1..]).Some?
    ensures Unparse(Strings(d), Str(d, p), [CLEAR] + Sent([], w, rest[1..]).value)
      == Some(Str(d + [Entry(p, a)], w) + Kept([], w, rest[1..]))
    decreases |rest|, 0
  {
    hide Strings, Unparse, Sent, Kept;
    FromEmpty(w, rest[1..]);
    var s := Sent([], w, rest[1..]).value;
    assert s == [w] + s[1..];
    UnparseClear(d, p, w, s[1..]);
  }
}
