/**
 The parse the packer chooses: at every position the nearest of the longest matches in the last 4095 bytes.
 */
module SlzGreedy {
  import opened Bytes
  import opened SlzFormat

  function Min(a: int, b: int): int { if a < b then a else b }

  /** How many bytes, up to `limit`, agree from positions e and i on. */
  function Common(s: seq<byte>, e: nat, i: nat, limit: nat): (n: nat)
    requires e < i && i + limit <= |s|
    ensures n <= limit
    decreases limit
  {
    if limit == 0 || s[e] != s[i] then 0 else 1 + Common(s, e + 1, i + 1, limit - 1)
  }

  ghost predicate Agree(s: seq<byte>, e: nat, i: nat, n: nat)
    requires e < i && i + n <= |s|
  {
    forall k :: e <= k < e + n ==> s[k] == s[k + (i - e)]
  }

  /** `Common` is exactly the length of the longest agreement. */
  lemma {:induction false} CommonIsLongest(s: seq<byte>, e: nat, i: nat, limit: nat)
    requires e < i && i + limit <= |s|
    ensures var n := Common(s, e, i, limit); Agree(s, e, i, n) && (n < limit ==> s[e + n] != s[i + n])
    decreases limit
  {
    if limit != 0 && s[e] == s[i] {
      CommonIsLongest(s, e + 1, i + 1, limit - 1);
    }
  }

  lemma {:induction false} CommonIsUnique(s: seq<byte>, e: nat, i: nat, limit: nat, n: nat)
    requires e < i && i + limit <= |s| && n <= limit
    requires Agree(s, e, i, n) && (n < limit ==> s[e + n] != s[i + n])
    ensures Common(s, e, i, limit) == n
  {
    CommonIsLongest(s, e, i, limit);
  }

  /** Length of the match at e for position i, capped at 17 and at the end of the input. */
  function MatchAt(s: seq<byte>, i: nat, e: nat): (n: nat)
    requires e < i <= |s|
    ensures n <= MAX_COMP_LEN && i + n <= |s|
  {
    Common(s, e, i, Min(MAX_COMP_LEN, |s| - i))
  }

  function WindowStart(i: nat): nat {
    if i < HISTORY_SIZE - 1 then 0 else i - (HISTORY_SIZE - 1)
  }

  datatype Match = Match(len: nat, at: nat)

  /** The match kept after looking at positions i-1, i-2, ..., e. */
  function Best(s: seq<byte>, i: nat, e: nat): (m: Match)
    requires e <= i <= |s|
    decreases i - e
  {
    if e == i then Match(0, 0)
    else
      var m := Best(s, i, e + 1);
      if MatchAt(s, i, e) > m.len then Match(MatchAt(s, i, e), e) else m
  }

  lemma BestStarts(s: seq<byte>, i: nat)
    requires i <= |s|
    ensures Best(s, i, i) == Match(0, 0)
  {
  }

  /** One more position looked at. */
  lemma BestStep(s: seq<byte>, i: nat, e: nat)
    requires e < i <= |s|
    ensures var m := Best(s, i, e + 1);
      Best(s, i, e) == if MatchAt(s, i, e) > m.len then Match(MatchAt(s, i, e), e) else m
  {
  }

  /** `Best` is the longest match, and the nearest of the longest. */
  lemma {:induction false} BestIsNearestLongest(s: seq<byte>, i: nat, e: nat)
    requires e <= i <= |s|
    ensures var m := Best(s, i, e);
      && (forall x :: e <= x < i ==> MatchAt(s, i, x) <= m.len)
      && (m.len > 0 ==> e <= m.at < i && MatchAt(s, i, m.at) == m.len
                        && forall x :: m.at < x < i ==> MatchAt(s, i, x) < m.len)
    decreases i - e
  {
    if e < i {
      BestIsNearestLongest(s, i, e + 1);
    }
  }

  /** Once a match of the greatest possible length is held, looking further back changes nothing. */
  lemma {:induction false} BestIsSettled(s: seq<byte>, i: nat, e: nat, lo: nat)
    requires lo <= e <= i <= |s| && Best(s, i, e).len >= MAX_COMP_LEN
    ensures Best(s, i, lo) == Best(s, i, e)
    decreases e - lo
  {
    hide Best, MatchAt;
    if lo < e {
      BestIsSettled(s, i, e, lo + 1);
      BestStep(s, i, lo);
    }
  }

  lemma BestBounds(s: seq<byte>, i: nat, e: nat)
    requires e <= i <= |s|
    ensures var m := Best(s, i, e); m.len <= MAX_COMP_LEN && i + m.len <= |s| && (m.len > 0 ==> e <= m.at < i)
  {
    BestIsNearestLongest(s, i, e);
  }

  /** The token the packer emits at position i, and how many input bytes it covers. */
  function TokenAt(s: seq<byte>, i: nat): (t: Token)
    requires i < |s|
    ensures Encodable(t)
    ensures t.Copy? ==> t.distance <= i && i + t.length <= |s|
  {
    var m := Best(s, i, WindowStart(i));
    BestBounds(s, i, WindowStart(i));
    if m.len > 2 then Copy(i - m.at, m.len) else Literal(s[i])
  }

  function Width(t: Token): (n: nat)
    requires Encodable(t)
    ensures n > 0
  {
    match t case Literal(_) => 1 case Copy(_, n) => n
  }

  function Greedy(s: seq<byte>, i: nat): (toks: seq<Token>)
    requires i <= |s|
    ensures AllEncodable(toks)
    decreases |s| - i
  {
    if i == |s| then [] else [TokenAt(s, i)] + Greedy(s, i + Width(TokenAt(s, i)))
  }

  /** The packed form of an input. */
  ghost function Packed(s: seq<byte>): seq<int> {
    EncodeStream(Greedy(s, 0))
  }

  // ----- the parse means the input -----

  lemma {:induction false} CopyReproduces(s: seq<byte>, i: nat, d: nat, n: nat)
    requires 1 <= d <= i && i + n <= |s|
    requires Agree(s, i - d, i, n)
    ensures CopyBack(s[..i], d, n) == s[..i + n]
    decreases n
  {
    if n > 0 {
      assert s[i - d] == s[i];
      assert s[..i] + [Behind(s[..i], d)] == s[..i + 1];
      CopyReproduces(s, i + 1, d, n - 1);
    }
  }

  lemma TokenReproduces(s: seq<byte>, i: nat)
    requires i < |s|
    ensures i + Width(TokenAt(s, i)) <= |s|
    ensures Apply(s[..i], TokenAt(s, i)) == s[..i + Width(TokenAt(s, i))]
  {
    var t := TokenAt(s, i);
    match t
    case Literal(_) =>
    case Copy(d, n) =>
      BestIsNearestLongest(s, i, WindowStart(i));
      CommonIsLongest(s, i - d, i, Min(MAX_COMP_LEN, |s| - i));
      CopyReproduces(s, i, d, n);
  }

  lemma {:induction false} GreedyReproduces(s: seq<byte>, i: nat)
    requires i <= |s|
    ensures Expand(s[..i], Greedy(s, i)) == s
    decreases |s| - i
  {
    hide Best, Apply, TokenAt;
    if i == |s| {
      assert s[..i] == s;
    } else {
      TokenReproduces(s, i);
      GreedyReproduces(s, i + Width(TokenAt(s, i)));
      var toks := Greedy(s, i);
      assert toks[1..] == Greedy(s, i + Width(TokenAt(s, i)));
    }
  }

  /** Unpacking undoes packing, for every input. */
  lemma PackRoundTrip(s: seq<byte>)
    ensures AllBytes(Packed(s))
    ensures Unpacked(Packed(s)) == Some(s)
  {
    StreamRoundTrip(Greedy(s, 0), 0, []);
    GreedyReproduces(s, 0);
    assert s[..0] == [];
  }

  lemma GreedyEnd(s: seq<byte>)
    ensures Greedy(s, |s|) == [] && Payload([]) == []
  {
  }

  lemma GreedyHead(s: seq<byte>, i: nat)
    requires i < |s|
    ensures var t := TokenAt(s, i);
      Encodable(t) && i + Width(t) <= |s| && Greedy(s, i) == [t] + Greedy(s, i + Width(t))
  {
    hide TokenAt;
  }

  /** A token's payload is no longer than what it covers. */
  lemma PayloadHead(t: Token, more: seq<Token>)
    requires Encodable(t) && AllEncodable([t] + more) && AllEncodable(more)
    ensures |Payload([t] + more)| <= Width(t) + |Payload(more)|
  {
    assert ([t] + more)[1..] == more;
  }

  lemma {:induction false} GreedySize(s: seq<byte>, i: nat)
    requires i <= |s|
    ensures |Greedy(s, i)| <= |s| - i && |Payload(Greedy(s, i))| <= |s| - i
    decreases |s| - i
  {
    hide TokenAt, Payload, Greedy, Width, AllEncodable, Encodable;
    if i == |s| {
      GreedyEnd(s);
    } else {
      GreedyHead(s, i);
      var t := TokenAt(s, i);
      GreedySize(s, i + Width(t));
      PayloadHead(t, Greedy(s, i + Width(t)));
    }
  }

  /** Packing never adds more than one byte in eight, plus three. */
  lemma PackedSizeBound(s: seq<byte>)
    ensures |Packed(s)| <= |s| + |s| / 8 + 3
  {
    GreedySize(s, 0);
    StreamSize(Greedy(s, 0));
  }
}
