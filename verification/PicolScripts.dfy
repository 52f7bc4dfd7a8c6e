/** What commands do: written out as words, on numbers, and with parameters. */
module PicolScripts {
  import opened Bytes
  import opened PicolToken
  import opened PicolEval

  /** A word of letters and digits. */
  predicate Plainly(w: string) {
    w != "" && forall k :: 0 <= k < |w| ==> InName(w[k])
  }

  lemma {:induction false} StringEndOf(text: string, pos: nat, n: nat)
    requires pos + n <= |text| && forall k :: pos <= k < pos + n ==> InName(text[k])
    requires pos + n < |text| ==> text[pos + n] == ' '
    ensures StringEnd(text, pos, false) == pos + n
    decreases n
  {
    if n > 0 { StringEndOf(text, pos + 1, n - 1); }
  }

  /** A plain word at the start of a word becomes one more argument. */
  lemma WordStep(s: Interp, text: string, p: P, argv: seq<string>, fuel: nat, w: string, tail: string)
    requires p.pos <= |text| && (p.kind == SEP || p.kind == EOL) && !p.quoted
    requires Plainly(w) && text[p.pos..] == w + tail && (tail != "" ==> tail[0] == ' ')
    ensures var e := p.pos + |w|;
      && e <= |text| && text[e..] == tail
      && Tokens(s, text, p, argv, fuel) == Tokens(s, text, P(e, p.pos, e, ESC, false), argv + [w], fuel)
  {
    hide StringEnd, Call;
    Peel(text, p.pos, w, tail);
    var e := p.pos + |w|;
    WordHere(text, p, w, tail);
    assert Next(text, p) == Some(P(e, p.pos, e, ESC, false));
  }

  lemma WordHere(text: string, p: P, w: string, tail: string)
    requires p.pos <= |text| && (p.kind == SEP || p.kind == EOL) && !p.quoted
    requires Plainly(w) && text[p.pos..] == w + tail && (tail != "" ==> tail[0] == ' ')
    ensures Next(text, p) == Some(P(p.pos + |w|, p.pos, p.pos + |w|, ESC, false))
  {
    hide StringEnd;
    Peel(text, p.pos, w, tail);
    var e := p.pos + |w|;
    forall k | p.pos <= k < e ensures InName(text[k]) {
      assert text[k] == text[p.pos..e][k - p.pos];
    }
    if e < |text| { assert text[e] == text[e..][0]; }
    StringEndOf(text, p.pos, |w|);
  }

  /** One space separates. */
  lemma GapStep(s: Interp, text: string, p: P, argv: seq<string>, fuel: nat, tail: string)
    requires p.pos <= |text| && IsWord(p.kind) && !p.quoted && argv != []
    requires text[p.pos..] == " " + tail && tail != "" && !Blank(tail[0])
    ensures var e := p.pos + 1;
      && e <= |text| && text[e..] == tail
      && Tokens(s, text, p, argv, fuel) == Tokens(s, text, P(e, p.pos, e, SEP, false), argv, fuel)
  {
    hide Call, Value;
    Peel(text, p.pos, " ", tail);
    var e := p.pos + 1;
    assert text[e] == text[e..][0];
    assert SepEnd(text, e) == e && SepEnd(text, p.pos) == e;
    assert Next(text, p) == Some(P(e, p.pos, e, SEP, false));
  }

  /** A braced word is one more argument, without its braces and with nothing in it replaced. */
  lemma BraceStep(s: Interp, text: string, p: P, argv: seq<string>, fuel: nat, w: Quoted, tail: string)
    requires p.pos <= |text| && (p.kind == SEP || p.kind == EOL) && !p.quoted
    requires Proper(w) && text[p.pos..] == "{" + Text(w) + "}" + tail
    ensures var q := Next(text, p);
      && q.Some? && q.value.kind == STR && !q.value.quoted && q.value.pos <= |text| && text[q.value.pos..] == tail
      && Tokens(s, text, p, argv, fuel) == Tokens(s, text, q.value, argv + [Text(w)], fuel)
  {
    hide Next, Text, Proper, Call;
    BraceQuotes(w, text, p, tail);
  }

  /** The end of the text ends the command. */
  lemma EndStep(s: Interp, text: string, p: P, argv: seq<string>, fuel: nat)
    requires p.pos == |text| && IsWord(p.kind) && argv != []
    ensures Tokens(s, text, p, argv, fuel) == Call(s, argv, fuel)
  {
    hide Call;
    var q := p.(kind := EOL);
    assert Next(text, p) == Some(q) && Next(text, q) == Some(p.(kind := EOF));
  }

  /** A plain word and the space after it. */
  lemma WordAndGap(s: Interp, text: string, p: P, argv: seq<string>, fuel: nat, w: string, tail: string)
    requires p.pos <= |text| && (p.kind == SEP || p.kind == EOL) && !p.quoted
    requires Plainly(w) && text[p.pos..] == w + (" " + tail) && tail != "" && !Blank(tail[0])
    ensures var e := p.pos + |w|;
      && e + 1 <= |text| && text[e + 1..] == tail
      && Tokens(s, text, p, argv, fuel) == Tokens(s, text, P(e + 1, e, e + 1, SEP, false), argv + [w], fuel)
  {
    hide Tokens, Next;
    var e := p.pos + |w|;
    WordStep(s, text, p, argv, fuel, w, " " + tail);
    GapStep(s, text, P(e, p.pos, e, ESC, false), argv + [w], fuel, tail);
  }

  lemma LastBraced(s: Interp, text: string, p: P, argv: seq<string>, fuel: nat, w: Quoted)
    requires p.pos <= |text| && p.kind == SEP && !p.quoted
    requires Proper(w) && text[p.pos..] == "{" + Text(w) + "}"
    ensures Tokens(s, text, p, argv, fuel) == Call(s, argv + [Text(w)], fuel)
  {
    hide Tokens, Next, Text, Proper, Call;
    assert "{" + Text(w) + "}" + "" == "{" + Text(w) + "}";
    BraceStep(s, text, p, argv, fuel, w, "");
    EndStep(s, text, Next(text, p).value, argv + [Text(w)], fuel);
  }

  /** `set name {w}`. */
  function SetScript(name: string, w: Quoted): string {
    "set" + (" " + (name + (" " + ("{" + Text(w) + "}"))))
  }

  lemma ScriptParts(name: string, w: Quoted)
    ensures var braced := "{" + Text(w) + "}"; SetScript(name, w) == "set" + (" " + (name + (" " + braced)))
  {
  }

  lemma SetTokens(s: Interp, name: string, w: Quoted, fuel: nat)
    requires Plainly(name) && Proper(w)
    ensures Eval(s, SetScript(name, w), fuel) == Call(s.(result := ""), ["set", name, Text(w)], fuel)
  {
    hide Tokens, Text, Proper, Call;
    hide SetScript;
    var braced := "{" + Text(w) + "}";
    ScriptParts(name, w);
    var text, s0 := SetScript(name, w), s.(result := "");
    assert text[0..] == text && braced[0] == '{';
    WordAndGap(s0, text, FRESH, [], fuel, "set", name + (" " + braced));
    WordAndGap(s0, text, P(4, 3, 4, SEP, false), ["set"], fuel, name, braced);
    var e := 4 + |name|;
    LastBraced(s0, text, P(e + 1, e, e + 1, SEP, false), ["set", name], fuel, w);
    assert [] + ["set"] == ["set"] && ["set"] + [name] == ["set", name];
    assert ["set", name] + [Text(w)] == ["set", name, Text(w)];
  }

  /**
   `set` with a plain name and a braced value stores exactly the text between the braces, and changes no other
   variable.
   */
  lemma SetStores(s: Interp, name: string, w: Quoted, fuel: nat, other: string)
    requires Plainly(name) && Proper(w) && Find(s.commands, "set") == Some(Set)
    ensures var (u, code) := Eval(s, SetScript(name, w), fuel);
      && code == OK && u.result == Text(w) && u.below == s.below && u.commands == s.commands
      && GetVar(u.vars, other) == if other == name then Some(Text(w)) else GetVar(s.vars, other)
  {
    hide Eval, Text, Proper, Call, GetVar, SetVar, SetScript;
    SetTokens(s, name, w, fuel);
    SetCalled(s.(result := ""), name, Text(w), fuel);
    SetGet(s.vars, name, Text(w), other);
  }

  lemma SetCalled(s: Interp, name: string, val: string, fuel: nat)
    requires Find(s.commands, "set") == Some(Set)
    ensures Call(s, ["set", name, val], fuel) == (s.(vars := SetVar(s.vars, name, val), result := val), OK)
  {
  }

  // ----- numbers -----

  lemma QuotientSign(a: int, b: int)
    requires b != 0
    ensures var q := (if a >= 0 then a else -a) / (if b > 0 then b else -b);
      Quotient(a, b) == if (a >= 0) == (b > 0) then q else -q
  {
  }

  /**
   C's division truncates towards zero: the remainder is smaller than the divisor and has the sign of the dividend.
   */
  lemma QuotientTruncates(a: int, b: int)
    requires b != 0
    ensures var r := a - b * Quotient(a, b);
      && (if b > 0 then -b < r < b else b < r < -b)
      && (a >= 0 ==> r >= 0) && (a <= 0 ==> r <= 0)
  {
    hide Quotient;
    var c, d := if a >= 0 then a else -a, if b > 0 then b else -b;
    var q := c / d;
    assert c == d * q + c % d;
    QuotientSign(a, b);
    assert b * -q == -(b * q) && -b * q == -(b * q);
  }

  /** The arithmetic commands compute, on numbers as `atol` reads them; comparisons give 1 or 0. */
  lemma MathComputes(s: Interp, op: string, x: string, y: string)
    ensures var (u, code) := MathCmd(s, [op, x, y]); var a, b, c := Atol(x), Atol(y), Atol(u.result);
      && (op == "+" ==> code == OK && c == a + b)
      && (op == "-" ==> code == OK && c == a - b)
      && (op == "*" ==> code == OK && c == a * b)
      && (op == "/" ==> code == (if b == 0 then ERR else OK) && (b != 0 ==> c == Quotient(a, b)))
      && (op == "<" ==> code == OK && c == if a < b then 1 else 0)
      && (op == "<=" ==> code == OK && c == if a <= b then 1 else 0)
      && (op == ">" ==> code == OK && c == if a > b then 1 else 0)
      && (op == ">=" ==> code == OK && c == if a >= b then 1 else 0)
      && (op == "==" ==> code == OK && c == if a == b then 1 else 0)
      && (op == "!=" ==> code == OK && c == if a != b then 1 else 0)
  {
    hide Atol, Show, Quotient;
    forall n: int ensures Atol(Show(n)) == n { NumberRoundTrip(n); }
  }

  // ----- parameters -----

  predicate IsWordOf(w: string) { w != "" && ' ' !in w }

  /** Words with single spaces between them. */
  function Spaced(ws: seq<string>): string
    decreases |ws|
  {
    if ws == [] then "" else if |ws| == 1 then ws[0] else ws[0] + " " + Spaced(ws[1..])
  }

  lemma {:induction false} CollectWord(w: string, rest: string, word: string)
    requires ' ' !in w
    ensures WordsFrom(w + rest, word) == WordsFrom(rest, word + w)
    decreases |w|
  {
    if w == "" {
      assert w + rest == rest && word + w == word;
    } else {
      CollectWord(w[1..], rest, word + [w[0]]);
      assert (w + rest)[1..] == w[1..] + rest;
      assert word + [w[0]] + w[1..] == word + w;
    }
  }

  /** A parameter list is read as the words it was written from. */
  lemma {:induction false} WordsOfSpaced(ws: seq<string>)
    requires forall k :: 0 <= k < |ws| ==> IsWordOf(ws[k])
    ensures Words(Spaced(ws)) == ws
    decreases |ws|
  {
    if |ws| == 1 {
      CollectWord(ws[0], "", "");
      assert ws[0] + "" == ws[0] && "" + ws[0] == ws[0];
    } else if |ws| > 1 {
      var rest := " " + Spaced(ws[1..]);
      CollectWord(ws[0], rest, "");
      assert ws[0] + " " + Spaced(ws[1..]) == ws[0] + rest && "" + ws[0] == ws[0];
      assert rest[1..] == Spaced(ws[1..]);
      WordsOfSpaced(ws[1..]);
    }
  }

  /** The place of the last parameter of that name. */
  function LastOf(names: seq<string>, name: string): (k: Option<nat>)
    ensures k.Some? ==> k.value < |names| && names[k.value] == name && forall j :: k.value < j < |names| ==>
      names[j] != name
    ensures k.None? ==> name !in names
    decreases |names|
  {
    if names == [] then None
    else
      var later := LastOf(names[1..], name);
      if later.Some? then Some(later.value + 1) else if names[0] == name then Some(0) else None
  }

  /**
   In a procedure's frame every parameter has its argument, the last one if a name is repeated, and nothing else is
   set.
   */
  lemma {:induction false} BindGet(vars: seq<Var>, names: seq<string>, vals: seq<string>, name: string)
    requires |names| == |vals|
    ensures GetVar(Bind(vars, names, vals), name) ==
      (var k := LastOf(names, name); if k.Some? then Some(vals[k.value]) else GetVar(vars, name))
    decreases |names|
  {
    hide SetVar;
    if names != [] {
      BindGet(SetVar(vars, names[0], vals[0]), names[1..], vals[1..], name);
      SetGet(vars, names[0], vals[0], name);
    }
  }
}
