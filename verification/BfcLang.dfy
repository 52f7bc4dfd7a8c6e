/**
 The structured part of bfc's input language, the words it is written as, and the assembler lines that belong to it.
 */
module BfcLang {
  import opened Bytes

  /** What a primitive's assembler body does; `Data(f)` is any primitive that only works on the data stack. */
  datatype Op = Lit | Bra | Zbra | Push | Pull | DoFor | Exit | Data(f: nat)

  /** Structured source. `Plain` is a word of the dictionary or a number. */
  datatype Code =
    | Skip
    | Plain(word: string)
    | Seq(first: Code, second: Code)
    | If(thn: Code)
    | IfElse(thn: Code, els: Code)
    | Again(body: Code)
    | Until(body: Code)
    | While(cond: Code, body: Code)
    | For(body: Code)

  datatype Def = Primitive(name: string, op: Op) | Colon(name: string, body: Code)

  /** Input words; an assembler body is one token. */
  datatype Token = Text(word: string) | Asm(op: Op)

  /** Output lines: a label, a call, an address cell, a number cell, a return, an assembler body. */
  datatype Line = Label(l: nat) | Jsr(l: nat) | Addr(l: nat) | Cell(v: int) | Rts | Body(op: Op)

  /** The words process_file acts on itself. */
  const HOST_WORDS: seq<string> :=
    ["p:", "a:", ":", ";", "if", "then", "begin", "again", "until", "while", "repeat", "else", "$", "c$", "var", "]",
     "allot", "for", "next", "imm", "#"]

  /** How the C library reads a word as a number. */
  type Numbers = string -> Option<int>

  function Words(c: Code): (toks: seq<Token>) {
    match c
    case Skip => []
    case Plain(w) => [Text(w)]
    case Seq(a, b) => Words(a) + Words(b)
    case If(t) => [Text("if")] + Words(t) + [Text("then")]
    case IfElse(t, e) => [Text("if")] + Words(t) + [Text("else")] + Words(e) + [Text("then")]
    case Again(b) => [Text("begin")] + Words(b) + [Text("again")]
    case Until(b) => [Text("begin")] + Words(b) + [Text("until")]
    case While(c, b) => [Text("begin")] + Words(c) + [Text("while")] + Words(b) + [Text("repeat")]
    case For(b) => [Text("for")] + Words(b) + [Text("next")]
  }

  function DefWords(d: Def): seq<Token> {
    match d
    case Primitive(name, op) => [Text("p:"), Text(name), Asm(op)]
    case Colon(name, body) => [Text(":"), Text(name)] + Words(body) + [Text(";")]
  }

  function ProgWords(prog: seq<Def>): seq<Token>
    decreases |prog|
  {
    if prog == [] then [] else DefWords(prog[0]) + ProgWords(prog[1..])
  }

  /** How many labels a piece of source uses up. */
  function Labels(c: Code): nat {
    match c
    case Skip => 0
    case Plain(_) => 0
    case Seq(a, b) => Labels(a) + Labels(b)
    case If(t) => 1 + Labels(t)
    case IfElse(t, e) => 2 + Labels(t) + Labels(e)
    case Again(b) => 1 + Labels(b)
    case Until(b) => 1 + Labels(b)
    case While(c, b) => 2 + Labels(c) + Labels(b)
    case For(b) => 2 + Labels(b)
  }

  function Max(a: nat, b: nat): nat { if a < b then b else a }

  /** How many control-stack cells it needs. */
  function Depth(c: Code): nat {
    match c
    case Skip => 0
    case Plain(_) => 0
    case Seq(a, b) => Max(Depth(a), Depth(b))
    case If(t) => 1 + Depth(t)
    case IfElse(t, e) => 1 + Max(Depth(t), Depth(e))
    case Again(b) => 1 + Depth(b)
    case Until(b) => 1 + Depth(b)
    case While(c, b) => Max(1 + Depth(c), 2 + Depth(b))
    case For(b) => 2 + Depth(b)
  }

  // ----- scope: a word means its newest definition so far -----

  /** The newest of the first m definitions with that name. */
  function Newest(prog: seq<Def>, m: nat, w: string): (r: Option<nat>)
    requires m <= |prog|
    ensures r.Some? ==> r.value < m && prog[r.value].name == w
    ensures r.Some? ==> forall j :: r.value < j < m ==> prog[j].name != w
    ensures r.None? ==> forall j :: 0 <= j < m ==> prog[j].name != w
  {
    if m == 0 then None else if prog[m - 1].name == w then Some(m - 1) else Newest(prog, m - 1, w)
  }

  /** The label of definition k. */
  function LabelOf(prog: seq<Def>, k: nat): nat
    requires k <= |prog|
  {
    if k == 0 then 0 else LabelOf(prog, k - 1) + 1 + if prog[k - 1].Colon? then Labels(prog[k - 1].body) else 0
  }

  /** The run-time word `name` is at hand when definition k is compiled, and is the primitive the compiler needs. */
  ghost predicate HasRuntime(prog: seq<Def>, m: nat, name: string, op: Op)
    requires m <= |prog|
  {
    Newest(prog, m, name).Some? && prog[Newest(prog, m, name).value] == Primitive(name, op)
  }

  /** The label of a run-time word. */
  function Runtime(prog: seq<Def>, m: nat, name: string): nat
    requires m <= |prog| && Newest(prog, m, name).Some?
  {
    LabelOf(prog, Newest(prog, m, name).value)
  }

  /** Every word has a meaning, and the run-time words the control structures compile to are defined. */
  ghost predicate Closed(prog: seq<Def>, num: Numbers, m: nat, c: Code)
    requires m <= |prog|
    decreases c
  {
    match c
    case Skip => true
    case Plain(w) =>
      w != "" && w !in HOST_WORDS && (Newest(prog, m, w).None? ==> num(w).Some? && HasRuntime(prog, m, "lit", Lit))
    case Seq(a, b) => Closed(prog, num, m, a) && Closed(prog, num, m, b)
    case If(t) => HasRuntime(prog, m, "0bra", Zbra) && Closed(prog, num, m, t)
    case IfElse(t, e) =>
      HasRuntime(prog, m, "0bra", Zbra) && HasRuntime(prog, m, "bra", Bra) && Closed(prog, num, m, t)
        && Closed(prog, num, m, e)
    case Again(b) => HasRuntime(prog, m, "bra", Bra) && Closed(prog, num, m, b)
    case Until(b) => HasRuntime(prog, m, "0bra", Zbra) && Closed(prog, num, m, b)
    case While(c, b) =>
      HasRuntime(prog, m, "0bra", Zbra) && HasRuntime(prog, m, "bra", Bra) && Closed(prog, num, m, c)
        && Closed(prog, num, m, b)
    case For(b) =>
      HasRuntime(prog, m, "push", Push) && HasRuntime(prog, m, "dofor", DoFor) && HasRuntime(prog, m, "bra", Bra)
      && Closed(prog, num, m, b)
  }

  const MAXDICT := 256
  const MAXNAME := 32
  const CSTACK := 16

  ghost predicate ProgClosed(prog: seq<Def>, num: Numbers) {
    && |prog| <= MAXDICT && LabelOf(prog, |prog|) <= MAXDICT
    && (forall k :: 0 <= k < |prog| ==> |prog[k].name| < MAXNAME)
    && (forall k :: 0 <= k < |prog| && prog[k].Colon? ==>
      Closed(prog, num, k + 1, prog[k].body) && Depth(prog[k].body) <= CSTACK)
  }

  // ----- the lines a structured body stands for, with labels numbered from n -----

  ghost function Lines(prog: seq<Def>, num: Numbers, m: nat, c: Code, n: nat): seq<Line>
    requires m <= |prog| && Closed(prog, num, m, c)
    decreases c
  {
    match c
    case Skip => []
    case Plain(w) =>
      if Newest(prog, m, w).Some? then [Jsr(Runtime(prog, m, w))]
        else [Jsr(Runtime(prog, m, "lit")), Cell(num(w).value)]
    case Seq(a, b) => Lines(prog, num, m, a, n) + Lines(prog, num, m, b, n + Labels(a))
    case If(t) => [Jsr(Runtime(prog, m, "0bra")), Addr(n)] + Lines(prog, num, m, t, n + 1) + [Label(n)]
    case IfElse(t, e) =>
      var x := n + 1 + Labels(t);
      [Jsr(Runtime(prog, m, "0bra")), Addr(n)] + Lines(prog, num, m, t, n + 1)
      + [Jsr(Runtime(prog, m, "bra")), Addr(x), Label(n)] + Lines(prog, num, m, e, x + 1) + [Label(x)]
    case Again(b) => [Label(n)] + Lines(prog, num, m, b, n + 1) + [Jsr(Runtime(prog, m, "bra")), Addr(n)]
    case Until(b) => [Label(n)] + Lines(prog, num, m, b, n + 1) + [Jsr(Runtime(prog, m, "0bra")), Addr(n)]
    case While(c, b) =>
      var x := n + 1 + Labels(c);
      [Label(n)] + Lines(prog, num, m, c, n + 1) + [Jsr(Runtime(prog, m, "0bra")), Addr(x)]
      + Lines(prog, num, m, b, x + 1) + [Jsr(Runtime(prog, m, "bra")), Addr(n), Label(x)]
    case For(b) =>
      [Jsr(Runtime(prog, m, "push")), Label(n), Jsr(Runtime(prog, m, "dofor")), Addr(n + 1)]
      + Lines(prog, num, m, b, n + 2) + [Jsr(Runtime(prog, m, "bra")), Addr(n), Label(n + 1)]
  }

  ghost function DefLines(prog: seq<Def>, num: Numbers, k: nat): (ls: seq<Line>)
    requires k < |prog| && (prog[k].Colon? ==> Closed(prog, num, k + 1, prog[k].body))
  {
    match prog[k]
    case Primitive(_, op) => [Label(LabelOf(prog, k)), Body(op)]
    case Colon(_, body) => [Label(LabelOf(prog, k))] + Lines(prog, num, k + 1, body, LabelOf(prog, k) + 1) + [Rts]
  }

  /** The lines of the first k definitions. */
  ghost function ProgLines(prog: seq<Def>, num: Numbers, k: nat): seq<Line>
    requires k <= |prog| && forall j :: 0 <= j < k && prog[j].Colon? ==> Closed(prog, num, j + 1, prog[j].body)
  {
    if k == 0 then [] else ProgLines(prog, num, k - 1) + DefLines(prog, num, k - 1)
  }

  // ----- the parts of a structure -----

  lemma SeqParts(prog: seq<Def>, num: Numbers, m: nat, c: Code, n: nat)
    requires m <= |prog| && Closed(prog, num, m, c) && c.Seq?
    ensures Closed(prog, num, m, c.first) && Closed(prog, num, m, c.second)
    ensures Labels(c) == Labels(c.first) + Labels(c.second)
    ensures Lines(prog, num, m, c, n)
      == Lines(prog, num, m, c.first, n) + Lines(prog, num, m, c.second, n + Labels(c.first))
  {
    hide Newest, LabelOf, Runtime, HasRuntime;
  }

  lemma IfParts(prog: seq<Def>, num: Numbers, m: nat, c: Code, n: nat)
    requires m <= |prog| && Closed(prog, num, m, c) && c.If?
    ensures Closed(prog, num, m, c.thn) && HasRuntime(prog, m, "0bra", Zbra) && Labels(c) == 1 + Labels(c.thn)
    ensures Lines(prog, num, m, c, n)
      == [Jsr(Runtime(prog, m, "0bra")), Addr(n)] + Lines(prog, num, m, c.thn, n + 1) + [Label(n)]
  {
    hide Newest, LabelOf, Runtime;
  }

  lemma IfElseClosed(prog: seq<Def>, num: Numbers, m: nat, c: Code)
    requires m <= |prog| && Closed(prog, num, m, c) && c.IfElse?
    ensures Closed(prog, num, m, c.thn) && Closed(prog, num, m, c.els) && Labels(c) == 2 + Labels(c.thn) + Labels(c.els)
    ensures HasRuntime(prog, m, "0bra", Zbra) && HasRuntime(prog, m, "bra", Bra)
  {
    hide HasRuntime;
  }

  lemma IfElseParts(prog: seq<Def>, num: Numbers, m: nat, c: Code, n: nat)
    requires m <= |prog| && Closed(prog, num, m, c) && c.IfElse?
    ensures Closed(prog, num, m, c.thn) && Closed(prog, num, m, c.els) && Labels(c) == 2 + Labels(c.thn) + Labels(c.els)
    ensures HasRuntime(prog, m, "0bra", Zbra) && HasRuntime(prog, m, "bra", Bra)
    ensures var x := n + 1 + Labels(c.thn);
      Lines(prog, num, m, c, n) == [Jsr(Runtime(prog, m, "0bra")), Addr(n)] + Lines(prog, num, m, c.thn, n + 1)
      + [Jsr(Runtime(prog, m, "bra")), Addr(x), Label(n)] + Lines(prog, num, m, c.els, x + 1) + [Label(x)]
  {
    hide Newest, LabelOf, Runtime, Closed, Labels;
    IfElseClosed(prog, num, m, c);
  }

  lemma LoopParts(prog: seq<Def>, num: Numbers, m: nat, c: Code, n: nat)
    requires m <= |prog| && Closed(prog, num, m, c) && (c.Again? || c.Until?)
    ensures Closed(prog, num, m, c.body) && Labels(c) == 1 + Labels(c.body)
    ensures if c.Again? then HasRuntime(prog, m, "bra", Bra) else HasRuntime(prog, m, "0bra", Zbra)
    ensures Lines(prog, num, m, c, n) == [Label(n)] + Lines(prog, num, m, c.body, n + 1)
      + [Jsr(Runtime(prog, m, if c.Again? then "bra" else "0bra")), Addr(n)]
  {
    hide Newest, LabelOf, Runtime;
  }

  lemma WhileClosed(prog: seq<Def>, num: Numbers, m: nat, c: Code)
    requires m <= |prog| && Closed(prog, num, m, c) && c.While?
    ensures Closed(prog, num, m, c.cond) && Closed(prog, num, m, c.body)
    ensures Labels(c) == 2 + Labels(c.cond) + Labels(c.body)
    ensures HasRuntime(prog, m, "0bra", Zbra) && HasRuntime(prog, m, "bra", Bra)
  {
    hide HasRuntime;
  }

  lemma WhileParts(prog: seq<Def>, num: Numbers, m: nat, c: Code, n: nat)
    requires m <= |prog| && Closed(prog, num, m, c) && c.While?
    ensures Closed(prog, num, m, c.cond) && Closed(prog, num, m, c.body)
    ensures Labels(c) == 2 + Labels(c.cond) + Labels(c.body)
    ensures HasRuntime(prog, m, "0bra", Zbra) && HasRuntime(prog, m, "bra", Bra)
    ensures var x := n + 1 + Labels(c.cond);
      Lines(prog, num, m, c, n)
        == [Label(n)] + Lines(prog, num, m, c.cond, n + 1) + [Jsr(Runtime(prog, m, "0bra")), Addr(x)]
      + Lines(prog, num, m, c.body, x + 1) + [Jsr(Runtime(prog, m, "bra")), Addr(n), Label(x)]
  {
    hide Newest, LabelOf, Runtime, Closed, Labels;
    WhileClosed(prog, num, m, c);
  }

  lemma ForParts(prog: seq<Def>, num: Numbers, m: nat, c: Code, n: nat)
    requires m <= |prog| && Closed(prog, num, m, c) && c.For?
    ensures Closed(prog, num, m, c.body) && Labels(c) == 2 + Labels(c.body)
    ensures HasRuntime(prog, m, "push", Push) && HasRuntime(prog, m, "dofor", DoFor) && HasRuntime(prog, m, "bra", Bra)
    ensures Lines(prog, num, m, c, n)
      == [Jsr(Runtime(prog, m, "push")), Label(n), Jsr(Runtime(prog, m, "dofor")), Addr(n + 1)]
      + Lines(prog, num, m, c.body, n + 2) + [Jsr(Runtime(prog, m, "bra")), Addr(n), Label(n + 1)]
  {
    hide Newest, LabelOf, Runtime;
  }

  // ----- every label is defined exactly once -----

  function Count(ls: seq<Line>, l: nat): nat
    decreases |ls|
  {
    if ls == [] then 0 else (if ls[0] == Label(l) then 1 else 0) + Count(ls[1..], l)
  }

  lemma {:induction false} CountSum(a: seq<Line>, b: seq<Line>, l: nat)
    ensures Count(a + b, l) == Count(a, l) + Count(b, l)
    decreases |a|
  {
    if a == [] {
      assert a + b == b;
    } else {
      assert (a + b)[1..] == a[1..] + b;
      CountSum(a[1..], b, l);
    }
  }

  function In(l: nat, lo: nat, n: nat): nat { if lo <= l < lo + n then 1 else 0 }

  function Is(a: Line, l: nat): nat { if a == Label(l) then 1 else 0 }

  lemma Count1(a: Line, l: nat)
    ensures Count([a], l) == Is(a, l)
  {
    assert [a][1..] == [];
  }

  lemma Count2(a: Line, b: Line, l: nat)
    ensures Count([a, b], l) == Is(a, l) + Is(b, l)
  {
    assert [a, b] == [a] + [b];
    CountSum([a], [b], l);
    Count1(a, l);
    Count1(b, l);
  }

  lemma Count3(a: Line, b: Line, c: Line, l: nat)
    ensures Count([a, b, c], l) == Is(a, l) + Is(b, l) + Is(c, l)
  {
    assert [a, b, c] == [a] + [b, c];
    CountSum([a], [b, c], l);
    Count1(a, l);
    Count2(b, c, l);
  }

  lemma CountSum3(a: seq<Line>, b: seq<Line>, c: seq<Line>, l: nat)
    ensures Count(a + b + c, l) == Count(a, l) + Count(b, l) + Count(c, l)
  {
    CountSum(a + b, c, l);
    CountSum(a, b, l);
  }

  lemma CountSum5(a: seq<Line>, b: seq<Line>, c: seq<Line>, d: seq<Line>, e: seq<Line>, l: nat)
    ensures Count(a + b + c + d + e, l) == Count(a, l) + Count(b, l) + Count(c, l) + Count(d, l) + Count(e, l)
  {
    CountSum(a + b + c + d, e, l);
    CountSum(a + b + c, d, l);
    CountSum3(a, b, c, l);
  }

  /** A body numbered from n defines each of its own labels once and no other. */
  lemma {:induction false} BodyLabels(prog: seq<Def>, num: Numbers, m: nat, c: Code, n: nat, l: nat)
    requires m <= |prog| && Closed(prog, num, m, c)
    ensures Count(Lines(prog, num, m, c, n), l) == In(l, n, Labels(c))
    decreases c, 1
  {
    hide *;
    match c
    case Skip => PlainLabels(prog, num, m, c, n, l);
    case Plain(_) => PlainLabels(prog, num, m, c, n, l);
    case Seq(_, _) => SeqBodyLabels(prog, num, m, c, n, l);
    case If(_) => IfBodyLabels(prog, num, m, c, n, l);
    case IfElse(_, _) => IfElseBodyLabels(prog, num, m, c, n, l);
    case Again(_) => LoopBodyLabels(prog, num, m, c, n, l);
    case Until(_) => LoopBodyLabels(prog, num, m, c, n, l);
    case While(_, _) => WhileBodyLabels(prog, num, m, c, n, l);
    case For(_) => ForBodyLabels(prog, num, m, c, n, l);
  }

  lemma {:induction false} SeqBodyLabels(prog: seq<Def>, num: Numbers, m: nat, c: Code, n: nat, l: nat)
    requires m <= |prog| && Closed(prog, num, m, c) && c.Seq?
    ensures Count(Lines(prog, num, m, c, n), l) == In(l, n, Labels(c))
    decreases c, 0
  {
    hide Lines, Closed, Labels, Newest, Runtime, Count;
    SeqParts(prog, num, m, c, n);
    BodyLabels(prog, num, m, c.first, n, l);
    BodyLabels(prog, num, m, c.second, n + Labels(c.first), l);
    CountSum(Lines(prog, num, m, c.first, n), Lines(prog, num, m, c.second, n + Labels(c.first)), l);
  }

  lemma {:induction false} IfBodyLabels(prog: seq<Def>, num: Numbers, m: nat, c: Code, n: nat, l: nat)
    requires m <= |prog| && Closed(prog, num, m, c) && c.If?
    ensures Count(Lines(prog, num, m, c, n), l) == In(l, n, Labels(c))
    decreases c, 0
  {
    hide Lines, Closed, Labels, Newest, Runtime, Count;
    IfParts(prog, num, m, c, n);
    BodyLabels(prog, num, m, c.thn, n + 1, l);
    IfLabels(Runtime(prog, m, "0bra"), Lines(prog, num, m, c.thn, n + 1), n, Labels(c.thn), l);
  }

  lemma {:induction false} LoopBodyLabels(prog: seq<Def>, num: Numbers, m: nat, c: Code, n: nat, l: nat)
    requires m <= |prog| && Closed(prog, num, m, c) && (c.Again? || c.Until?)
    ensures Count(Lines(prog, num, m, c, n), l) == In(l, n, Labels(c))
    decreases c, 0
  {
    hide Lines, Closed, Labels, Newest, Runtime, Count;
    LoopParts(prog, num, m, c, n);
    BodyLabels(prog, num, m, c.body, n + 1, l);
    LoopLabels(Runtime(prog, m, if c.Again? then "bra" else "0bra"), Lines(prog, num, m, c.body, n + 1), n,
      Labels(c.body), l);
  }

  lemma {:induction false} IfElseBodyLabels(prog: seq<Def>, num: Numbers, m: nat, c: Code, n: nat, l: nat)
    requires m <= |prog| && Closed(prog, num, m, c) && c.IfElse?
    ensures Count(Lines(prog, num, m, c, n), l) == In(l, n, Labels(c))
    decreases c, 0
  {
    hide Lines, Closed, Labels, Newest, Runtime, Count;
    IfElseParts(prog, num, m, c, n);
    var x := n + 1 + Labels(c.thn);
    BodyLabels(prog, num, m, c.thn, n + 1, l);
    BodyLabels(prog, num, m, c.els, x + 1, l);
    IfElseLabels(Runtime(prog, m, "0bra"), Runtime(prog, m, "bra"), Lines(prog, num, m, c.thn, n + 1),
                 Lines(prog, num, m, c.els, x + 1), n, Labels(c.thn), Labels(c.els), l);
  }

  lemma {:induction false} WhileBodyLabels(prog: seq<Def>, num: Numbers, m: nat, c: Code, n: nat, l: nat)
    requires m <= |prog| && Closed(prog, num, m, c) && c.While?
    ensures Count(Lines(prog, num, m, c, n), l) == In(l, n, Labels(c))
    decreases c, 0
  {
    hide Lines, Closed, Labels, Newest, Runtime, Count;
    WhileParts(prog, num, m, c, n);
    var x := n + 1 + Labels(c.cond);
    BodyLabels(prog, num, m, c.cond, n + 1, l);
    BodyLabels(prog, num, m, c.body, x + 1, l);
    WhileLabels(Runtime(prog, m, "0bra"), Runtime(prog, m, "bra"), Lines(prog, num, m, c.cond, n + 1),
                Lines(prog, num, m, c.body, x + 1), n, Labels(c.cond), Labels(c.body), l);
  }

  lemma {:induction false} ForBodyLabels(prog: seq<Def>, num: Numbers, m: nat, c: Code, n: nat, l: nat)
    requires m <= |prog| && Closed(prog, num, m, c) && c.For?
    ensures Count(Lines(prog, num, m, c, n), l) == In(l, n, Labels(c))
    decreases c, 0
  {
    hide Lines, Closed, Labels, Newest, Runtime, Count;
    ForParts(prog, num, m, c, n);
    BodyLabels(prog, num, m, c.body, n + 2, l);
    ForLabels(Runtime(prog, m, "push"), Runtime(prog, m, "dofor"), Runtime(prog, m, "bra"),
      Lines(prog, num, m, c.body, n + 2),
              n, Labels(c.body), l);
  }

  lemma PlainLabels(prog: seq<Def>, num: Numbers, m: nat, c: Code, n: nat, l: nat)
    requires m <= |prog| && Closed(prog, num, m, c) && (c.Skip? || c.Plain?)
    ensures Count(Lines(prog, num, m, c, n), l) == In(l, n, Labels(c))
  {
    if c.Plain? {
      if Newest(prog, m, c.word).None? {
        Count2(Jsr(Runtime(prog, m, "lit")), Cell(num(c.word).value), l);
      } else {
        Count1(Jsr(Runtime(prog, m, c.word)), l);
      }
    }
  }

  lemma IfLabels(z: nat, t: seq<Line>, n: nat, k: nat, l: nat)
    requires Count(t, l) == In(l, n + 1, k)
    ensures Count([Jsr(z), Addr(n)] + t + [Label(n)], l) == In(l, n, 1 + k)
  {
    hide Count;
    Count1(Label(n), l);
    CountSum3([Jsr(z), Addr(n)], t, [Label(n)], l);
    Count2(Jsr(z), Addr(n), l);
  }

  lemma IfElseLabels(z: nat, br: nat, t: seq<Line>, e: seq<Line>, n: nat, k: nat, k': nat, l: nat)
    requires Count(t, l) == In(l, n + 1, k) && Count(e, l) == In(l, n + 2 + k, k')
    ensures Count([Jsr(z), Addr(n)] + t + [Jsr(br), Addr(n + 1 + k), Label(n)] + e + [Label(n + 1 + k)], l)
      == In(l, n, 2 + k + k')
  {
    hide Count;
    Count1(Label(n + 1 + k), l);
    CountSum5([Jsr(z), Addr(n)], t, [Jsr(br), Addr(n + 1 + k), Label(n)], e, [Label(n + 1 + k)], l);
    Count2(Jsr(z), Addr(n), l);
    Count3(Jsr(br), Addr(n + 1 + k), Label(n), l);
  }

  lemma LoopLabels(j: nat, b: seq<Line>, n: nat, k: nat, l: nat)
    requires Count(b, l) == In(l, n + 1, k)
    ensures Count([Label(n)] + b + [Jsr(j), Addr(n)], l) == In(l, n, 1 + k)
  {
    hide Count;
    Count1(Label(n), l);
    CountSum3([Label(n)], b, [Jsr(j), Addr(n)], l);
    Count2(Jsr(j), Addr(n), l);
  }

  lemma WhileLabels(z: nat, br: nat, c: seq<Line>, b: seq<Line>, n: nat, k: nat, k': nat, l: nat)
    requires Count(c, l) == In(l, n + 1, k) && Count(b, l) == In(l, n + 2 + k, k')
    ensures Count([Label(n)] + c + [Jsr(z), Addr(n + 1 + k)] + b + [Jsr(br), Addr(n), Label(n + 1 + k)], l)
      == In(l, n, 2 + k + k')
  {
    hide Count;
    Count1(Label(n), l);
    CountSum5([Label(n)], c, [Jsr(z), Addr(n + 1 + k)], b, [Jsr(br), Addr(n), Label(n + 1 + k)], l);
    Count2(Jsr(z), Addr(n + 1 + k), l);
    Count3(Jsr(br), Addr(n), Label(n + 1 + k), l);
  }

  lemma ForLabels(p: nat, d: nat, br: nat, b: seq<Line>, n: nat, k: nat, l: nat)
    requires Count(b, l) == In(l, n + 2, k)
    ensures Count([Jsr(p), Label(n), Jsr(d), Addr(n + 1)] + b + [Jsr(br), Addr(n), Label(n + 1)], l) == In(l, n, 2 + k)
  {
    hide Count;
    var head := [Jsr(p), Label(n), Jsr(d), Addr(n + 1)];
    CountSum3(head, b, [Jsr(br), Addr(n), Label(n + 1)], l);
    assert head == [Jsr(p), Label(n)] + [Jsr(d), Addr(n + 1)];
    CountSum([Jsr(p), Label(n)], [Jsr(d), Addr(n + 1)], l);
    Count2(Jsr(p), Label(n), l);
    Count2(Jsr(d), Addr(n + 1), l);
    Count3(Jsr(br), Addr(n), Label(n + 1), l);
  }

  lemma {:induction false} LabelOfMonotone(prog: seq<Def>, j: nat, k: nat)
    requires j <= k <= |prog|
    ensures LabelOf(prog, j) + (k - j) <= LabelOf(prog, k)
    decreases k - j
  {
    if j < k { LabelOfMonotone(prog, j, k - 1); }
  }

  lemma LabelOfNext(prog: seq<Def>, k: nat)
    requires k < |prog|
    ensures LabelOf(prog, k + 1) == LabelOf(prog, k) + 1 + if prog[k].Colon? then Labels(prog[k].body) else 0
  {
  }

  lemma DefLabels(prog: seq<Def>, num: Numbers, k: nat, l: nat)
    requires k < |prog| && (prog[k].Colon? ==> Closed(prog, num, k + 1, prog[k].body))
    ensures Count(DefLines(prog, num, k), l) == In(l, LabelOf(prog, k), LabelOf(prog, k + 1) - LabelOf(prog, k))
  {
    hide Lines, Closed, LabelOf, Count;
    LabelOfNext(prog, k);
    Count1(Label(LabelOf(prog, k)), l);
    Count1(Rts, l);
    match prog[k]
    case Primitive(_, op) => Count2(Label(LabelOf(prog, k)), Body(op), l);
    case Colon(_, body) =>
      var q := Lines(prog, num, k + 1, body, LabelOf(prog, k) + 1);
      BodyLabels(prog, num, k + 1, body, LabelOf(prog, k) + 1, l);
      CountSum([Label(LabelOf(prog, k))] + q, [Rts], l);
      CountSum([Label(LabelOf(prog, k))], q, l);
  }

  /**
   In the whole output every label below the next free one, of words and of control structures, is defined exactly
   once.
   */
  lemma {:induction false} ProgLabels(prog: seq<Def>, num: Numbers, k: nat, l: nat)
    requires k <= |prog| && forall j :: 0 <= j < k && prog[j].Colon? ==> Closed(prog, num, j + 1, prog[j].body)
    ensures Count(ProgLines(prog, num, k), l) == In(l, 0, LabelOf(prog, k))
    decreases k
  {
    hide Lines, Closed, DefLines;
    if k > 0 {
      ProgLabels(prog, num, k - 1, l);
      DefLabels(prog, num, k - 1, l);
      LabelOfMonotone(prog, k - 1, k);
      CountSum(ProgLines(prog, num, k - 1), DefLines(prog, num, k - 1), l);
    }
  }

  // ----- every operand is a label of the program -----

  /** Calls go to labels below `calls`, and branches to labels from lo up to hi. */
  ghost predicate OperandsIn(ls: seq<Line>, calls: nat, lo: nat, hi: nat) {
    forall i :: 0 <= i < |ls| ==> OperandIn(ls[i], calls, lo, hi)
  }

  predicate OperandIn(a: Line, calls: nat, lo: nat, hi: nat) {
    (a.Jsr? ==> a.l < calls) && (a.Addr? ==> lo <= a.l < hi)
  }

  lemma OperandsSum(a: seq<Line>, b: seq<Line>, calls: nat, lo: nat, hi: nat)
    requires OperandsIn(a, calls, lo, hi) && OperandsIn(b, calls, lo, hi)
    ensures OperandsIn(a + b, calls, lo, hi)
  {
  }

  lemma OperandsSum3(a: seq<Line>, b: seq<Line>, c: seq<Line>, calls: nat, lo: nat, hi: nat)
    requires OperandsIn(a, calls, lo, hi) && OperandsIn(b, calls, lo, hi) && OperandsIn(c, calls, lo, hi)
    ensures OperandsIn(a + b + c, calls, lo, hi)
  {
    hide OperandsIn;
    OperandsSum(a, b, calls, lo, hi);
    OperandsSum(a + b, c, calls, lo, hi);
  }

  lemma OperandsSum5(a: seq<Line>, b: seq<Line>, c: seq<Line>, d: seq<Line>, e: seq<Line>, calls: nat, lo: nat, hi: nat)
    requires OperandsIn(a, calls, lo, hi) && OperandsIn(b, calls, lo, hi) && OperandsIn(c, calls, lo, hi)
    requires OperandsIn(d, calls, lo, hi) && OperandsIn(e, calls, lo, hi)
    ensures OperandsIn(a + b + c + d + e, calls, lo, hi)
  {
    hide OperandsIn;
    OperandsSum3(a, b, c, calls, lo, hi);
    OperandsSum3(a + b + c, d, e, calls, lo, hi);
  }

  lemma OperandsWiden(ls: seq<Line>, calls: nat, lo: nat, hi: nat, calls': nat, lo': nat, hi': nat)
    requires OperandsIn(ls, calls, lo, hi) && calls <= calls' && lo' <= lo && hi <= hi'
    ensures OperandsIn(ls, calls', lo', hi')
  {
  }

  /** A word's label is below the next free one after its definition. */
  lemma RuntimeBelow(prog: seq<Def>, m: nat, w: string)
    requires m <= |prog| && Newest(prog, m, w).Some?
    ensures Runtime(prog, m, w) < LabelOf(prog, m)
  {
    LabelOfMonotone(prog, Newest(prog, m, w).value, m);
  }

  lemma RuntimesBelow(prog: seq<Def>, m: nat)
    requires m <= |prog|
    ensures forall w :: Newest(prog, m, w).Some? ==> Runtime(prog, m, w) < LabelOf(prog, m)
  {
    hide Newest, Runtime, LabelOf;
    forall w | Newest(prog, m, w).Some? ensures Runtime(prog, m, w) < LabelOf(prog, m) { RuntimeBelow(prog, m, w); }
  }

  /** A body calls only words defined so far, and branches only to its own labels. */
  lemma {:induction false} BodyOperands(prog: seq<Def>, num: Numbers, m: nat, c: Code, n: nat)
    requires m <= |prog| && Closed(prog, num, m, c)
    ensures OperandsIn(Lines(prog, num, m, c, n), LabelOf(prog, m), n, n + Labels(c))
    decreases c, 1
  {
    hide *;
    match c
    case Skip => PlainOperands(prog, num, m, c, n);
    case Plain(_) => PlainOperands(prog, num, m, c, n);
    case Seq(_, _) => SeqOperands(prog, num, m, c, n);
    case If(_) => IfOperands(prog, num, m, c, n);
    case IfElse(_, _) => IfElseOperands(prog, num, m, c, n);
    case Again(_) => LoopOperands(prog, num, m, c, n);
    case Until(_) => LoopOperands(prog, num, m, c, n);
    case While(_, _) => WhileOperands(prog, num, m, c, n);
    case For(_) => ForOperands(prog, num, m, c, n);
  }

  lemma PlainOperands(prog: seq<Def>, num: Numbers, m: nat, c: Code, n: nat)
    requires m <= |prog| && Closed(prog, num, m, c) && (c.Skip? || c.Plain?)
    ensures OperandsIn(Lines(prog, num, m, c, n), LabelOf(prog, m), n, n + Labels(c))
  {
    hide Newest, Runtime, LabelOf;
    RuntimesBelow(prog, m);
  }

  lemma {:induction false} SeqOperands(prog: seq<Def>, num: Numbers, m: nat, c: Code, n: nat)
    requires m <= |prog| && Closed(prog, num, m, c) && c.Seq?
    ensures OperandsIn(Lines(prog, num, m, c, n), LabelOf(prog, m), n, n + Labels(c))
    decreases c, 0
  {
    hide Lines, Closed, Labels, Newest, Runtime, LabelOf, OperandsIn;
    SeqParts(prog, num, m, c, n);
    var calls, x, hi := LabelOf(prog, m), n + Labels(c.first), n + Labels(c);
    var a, b := Lines(prog, num, m, c.first, n), Lines(prog, num, m, c.second, x);
    BodyOperands(prog, num, m, c.first, n);
    OperandsWiden(a, calls, n, x, calls, n, hi);
    BodyOperands(prog, num, m, c.second, x);
    OperandsWiden(b, calls, x, hi, calls, n, hi);
    OperandsSum(a, b, calls, n, hi);
  }

  lemma {:induction false} IfOperands(prog: seq<Def>, num: Numbers, m: nat, c: Code, n: nat)
    requires m <= |prog| && Closed(prog, num, m, c) && c.If?
    ensures OperandsIn(Lines(prog, num, m, c, n), LabelOf(prog, m), n, n + Labels(c))
    decreases c, 0
  {
    hide Lines, Closed, Labels, Newest, Runtime, LabelOf;
    IfParts(prog, num, m, c, n);
    RuntimesBelow(prog, m);
    BodyOperands(prog, num, m, c.thn, n + 1);
    var calls, hi, t := LabelOf(prog, m), n + Labels(c), Lines(prog, num, m, c.thn, n + 1);
    OperandsWiden(t, calls, n + 1, hi, calls, n, hi);
    OperandsSum3([Jsr(Runtime(prog, m, "0bra")), Addr(n)], t, [Label(n)], calls, n, hi);
  }

  lemma {:induction false} LoopOperands(prog: seq<Def>, num: Numbers, m: nat, c: Code, n: nat)
    requires m <= |prog| && Closed(prog, num, m, c) && (c.Again? || c.Until?)
    ensures OperandsIn(Lines(prog, num, m, c, n), LabelOf(prog, m), n, n + Labels(c))
    decreases c, 0
  {
    hide Lines, Closed, Labels, Newest, Runtime, LabelOf;
    LoopParts(prog, num, m, c, n);
    RuntimesBelow(prog, m);
    BodyOperands(prog, num, m, c.body, n + 1);
    var calls, hi, b := LabelOf(prog, m), n + Labels(c), Lines(prog, num, m, c.body, n + 1);
    OperandsWiden(b, calls, n + 1, hi, calls, n, hi);
    var back := Runtime(prog, m, if c.Again? then "bra" else "0bra");
    OperandsSum3([Label(n)], b, [Jsr(back), Addr(n)], calls, n, hi);
  }

  lemma {:induction false} IfElseOperands(prog: seq<Def>, num: Numbers, m: nat, c: Code, n: nat)
    requires m <= |prog| && Closed(prog, num, m, c) && c.IfElse?
    ensures OperandsIn(Lines(prog, num, m, c, n), LabelOf(prog, m), n, n + Labels(c))
    decreases c, 0
  {
    hide Lines, Closed, Labels, Newest, Runtime, LabelOf;
    IfElseParts(prog, num, m, c, n);
    RuntimesBelow(prog, m);
    var calls, x, hi := LabelOf(prog, m), n + 1 + Labels(c.thn), n + Labels(c);
    var t, e := Lines(prog, num, m, c.thn, n + 1), Lines(prog, num, m, c.els, x + 1);
    BodyOperands(prog, num, m, c.thn, n + 1);
    OperandsWiden(t, calls, n + 1, x, calls, n, hi);
    BodyOperands(prog, num, m, c.els, x + 1);
    OperandsWiden(e, calls, x + 1, hi, calls, n, hi);
    OperandsSum5([Jsr(Runtime(prog, m, "0bra")), Addr(n)], t, [Jsr(Runtime(prog, m, "bra")), Addr(x), Label(n)], e,
      [Label(x)],
                 calls, n, hi);
  }

  lemma {:induction false} WhileOperands(prog: seq<Def>, num: Numbers, m: nat, c: Code, n: nat)
    requires m <= |prog| && Closed(prog, num, m, c) && c.While?
    ensures OperandsIn(Lines(prog, num, m, c, n), LabelOf(prog, m), n, n + Labels(c))
    decreases c, 0
  {
    hide Lines, Closed, Labels, Newest, Runtime, LabelOf;
    WhileParts(prog, num, m, c, n);
    RuntimesBelow(prog, m);
    var calls, x, hi := LabelOf(prog, m), n + 1 + Labels(c.cond), n + Labels(c);
    var t, b := Lines(prog, num, m, c.cond, n + 1), Lines(prog, num, m, c.body, x + 1);
    BodyOperands(prog, num, m, c.cond, n + 1);
    OperandsWiden(t, calls, n + 1, x, calls, n, hi);
    BodyOperands(prog, num, m, c.body, x + 1);
    OperandsWiden(b, calls, x + 1, hi, calls, n, hi);
    OperandsSum5([Label(n)], t, [Jsr(Runtime(prog, m, "0bra")), Addr(x)], b,
                 [Jsr(Runtime(prog, m, "bra")), Addr(n), Label(x)], calls, n, hi);
  }

  lemma {:induction false} ForOperands(prog: seq<Def>, num: Numbers, m: nat, c: Code, n: nat)
    requires m <= |prog| && Closed(prog, num, m, c) && c.For?
    ensures OperandsIn(Lines(prog, num, m, c, n), LabelOf(prog, m), n, n + Labels(c))
    decreases c, 0
  {
    hide Lines, Closed, Labels, Newest, Runtime, LabelOf;
    ForParts(prog, num, m, c, n);
    RuntimesBelow(prog, m);
    var calls, hi, b := LabelOf(prog, m), n + Labels(c), Lines(prog, num, m, c.body, n + 2);
    BodyOperands(prog, num, m, c.body, n + 2);
    OperandsWiden(b, calls, n + 2, hi, calls, n, hi);
    var head := [Jsr(Runtime(prog, m, "push")), Label(n), Jsr(Runtime(prog, m, "dofor")), Addr(n + 1)];
    OperandsSum3(head, b, [Jsr(Runtime(prog, m, "bra")), Addr(n), Label(n + 1)], calls, n, hi);
  }

  /** A definition branches only to labels between its own and the next definition's. */
  lemma DefOperands(prog: seq<Def>, num: Numbers, k: nat)
    requires k < |prog| && (prog[k].Colon? ==> Closed(prog, num, k + 1, prog[k].body))
    ensures OperandsIn(DefLines(prog, num, k), LabelOf(prog, k + 1), LabelOf(prog, k) + 1, LabelOf(prog, k + 1))
  {
    hide Lines, Closed, LabelOf, Labels;
    LabelOfNext(prog, k);
    var n, next := LabelOf(prog, k), LabelOf(prog, k + 1);
    match prog[k]
    case Primitive(_, _) =>
    case Colon(_, body) =>
      BodyOperands(prog, num, k + 1, body, n + 1);
      OperandsSum3([Label(n)], Lines(prog, num, k + 1, body, n + 1), [Rts], next, n + 1, next);
  }

  /** In the whole output every call and every branch names a label below the next free one. */
  lemma {:induction false} ProgOperands(prog: seq<Def>, num: Numbers, k: nat)
    requires k <= |prog| && forall j :: 0 <= j < k && prog[j].Colon? ==> Closed(prog, num, j + 1, prog[j].body)
    ensures OperandsIn(ProgLines(prog, num, k), LabelOf(prog, k), 0, LabelOf(prog, k))
    decreases k
  {
    hide Lines, Closed, DefLines, LabelOf;
    if k > 0 {
      var before, now := LabelOf(prog, k - 1), LabelOf(prog, k);
      LabelOfMonotone(prog, k - 1, k);
      ProgOperands(prog, num, k - 1);
      OperandsWiden(ProgLines(prog, num, k - 1), before, 0, before, now, 0, now);
      DefOperands(prog, num, k - 1);
      OperandsWiden(DefLines(prog, num, k - 1), now, before + 1, now, now, 0, now);
      OperandsSum(ProgLines(prog, num, k - 1), DefLines(prog, num, k - 1), now, 0, now);
    }
  }
}
