/** The one-pass compiler on its own state, and what it makes of structured source. */
module BfcCompile {
  import opened Bytes
  import opened BfcLang

  datatype Entry = Entry(name: string, ref: nat)

  /** labeli, dict (oldest first), cstack (bottom first), state, and what has been written. */
  datatype Comp = Comp(labeli: nat, dict: seq<Entry>, cstack: seq<nat>, state: bool, out: seq<Line>)

  const START := Comp(0, [], [], false, [])

  /** The newest entry of that name. */
  function Lookup(dict: seq<Entry>, w: string): (r: Option<nat>)
    decreases |dict|
  {
    if dict == [] then None
    else if dict[|dict| - 1].name == w then Some(dict[|dict| - 1].ref)
    else Lookup(dict[..|dict| - 1], w)
  }

  // Each function below is `None` where the C code has undefined behaviour (a full or empty control stack, a run-time
  // word that is not defined yet, a full dictionary) or quits.

  function Emit(st: Comp, ls: seq<Line>): Comp { st.(out := st.out + ls) }

  function PushCntl(st: Comp, i: nat): Option<Comp> {
    if |st.cstack| >= CSTACK then None else Some(st.(cstack := st.cstack + [i]))
  }

  function Top(st: Comp): Option<nat> {
    if st.cstack == [] then None else Some(st.cstack[|st.cstack| - 1])
  }

  function Pop(st: Comp): Comp
    requires st.cstack != []
  {
    st.(cstack := st.cstack[..|st.cstack| - 1])
  }

  /** A run-time word and its operand. */
  function Branch(st: Comp, name: string, target: nat): Option<Comp> {
    match Lookup(st.dict, name)
    case None => None
    case Some(r) => Some(Emit(st, [Jsr(r), Addr(target)]))
  }

  function DoIf(st: Comp): Option<Comp> {
    match Branch(st, "0bra", st.labeli)
    case None => None
    case Some(s) => PushCntl(s.(labeli := s.labeli + 1), st.labeli)
  }

  function DoThen(st: Comp): Option<Comp> {
    if st.cstack == [] then None else Some(Emit(Pop(st), [Label(Top(st).value)]))
  }

  function DoBegin(st: Comp): Option<Comp> {
    PushCntl(Emit(st, [Label(st.labeli)]).(labeli := st.labeli + 1), st.labeli)
  }

  function DoAgain(st: Comp): Option<Comp> {
    if st.cstack == [] then None else Branch(Pop(st), "bra", Top(st).value)
  }

  function DoUntil(st: Comp): Option<Comp> {
    if st.cstack == [] then None else Branch(Pop(st), "0bra", Top(st).value)
  }

  function DoWhile(st: Comp): Option<Comp> {
    if st.cstack == [] then None
    else
      match Branch(Pop(st), "0bra", st.labeli)
      case None => None
      case Some(s) =>
        match PushCntl(s.(labeli := s.labeli + 1), st.labeli)
        case None => None
        case Some(s') => PushCntl(s', Top(st).value)
  }

  function DoRepeat(st: Comp): Option<Comp> {
    match DoAgain(st)
    case None => None
    case Some(s) => DoThen(s)
  }

  function DoElse(st: Comp): Option<Comp> {
    if st.cstack == [] then None
    else
      match Branch(Pop(st), "bra", st.labeli)
      case None => None
      case Some(s) =>
        match PushCntl(s.(labeli := s.labeli + 1), st.labeli)
        case None => None
        case Some(s') => Some(Emit(s', [Label(Top(st).value)]))
  }

  function DoFor(st: Comp): Option<Comp> {
    match (Lookup(st.dict, "push"), Lookup(st.dict, "dofor"))
    case (Some(p), Some(d)) =>
      var head := [Jsr(p), Label(st.labeli), Jsr(d), Addr(st.labeli + 1)];
      (match PushCntl(Emit(st, head).(labeli := st.labeli + 2), st.labeli + 1)
       case None => None
       case Some(s) => PushCntl(s, st.labeli))
    case _ => None
  }

  /** A word that is none of the host's own: a call, or in compiling state a number. */
  function DoWord(st: Comp, num: Numbers, w: string): Option<Comp> {
    if st.labeli > MAXDICT || w == "" then None
    else
      match Lookup(st.dict, w)
      case Some(r) => Some(Emit(st, [Jsr(r)]))
      case None =>
        if num(w).None? || !st.state then None
        else
          match Lookup(st.dict, "lit")
          case None => None
          case Some(l) => Some(Emit(st, [Jsr(l), Cell(num(w).value)]))
  }

  /** One word of process_file, other than the two that read further words. */
  function DoText(st: Comp, num: Numbers, w: string): Option<Comp> {
    if w == ";" then Some(Emit(st, [Rts]).(state := false))
    else if w == "if" then DoIf(st)
    else if w == "then" then DoThen(st)
    else if w == "begin" then DoBegin(st)
    else if w == "again" then DoAgain(st)
    else if w == "until" then DoUntil(st)
    else if w == "while" then DoWhile(st)
    else if w == "repeat" then DoRepeat(st)
    else if w == "else" then DoElse(st)
    else if w == "]" then Some(st.(state := true))
    else if w == "for" then DoFor(st)
    else if w == "next" then DoRepeat(st)
    else if w in HOST_WORDS then None  // strings, variables, comments and raw assembler are not modelled
    else DoWord(st, num, w)
  }

  const STRUCTURE: seq<string> :=
    ["if", "then", "begin", "again", "until", "while", "repeat", "else", "for", "next"]

  lemma OtherWord(st: Comp, num: Numbers, w: string)
    requires w !in STRUCTURE
    ensures DoText(st, num, w) ==
      if w == ";" then Some(Emit(st, [Rts]).(state := false))
      else if w == "]" then Some(st.(state := true))
      else if w in HOST_WORDS then None
      else DoWord(st, num, w)
  {
    hide DoWord;
    assert forall i :: 0 <= i < |STRUCTURE| ==> STRUCTURE[i] != w;
  }

  function MkEntry(st: Comp, name: string): Option<Comp> {
    if |st.dict| >= MAXDICT || |name| >= MAXNAME then None
    else Some(Emit(st, [Label(st.labeli)]).(labeli := st.labeli + 1, dict := st.dict + [Entry(name, st.labeli)]))
  }

  /** process_file. */
  function Compile(st: Comp, num: Numbers, toks: seq<Token>): Option<Comp>
    decreases |toks|
  {
    if toks == [] then Some(st)
    else if toks[0].Asm? then None
    else if toks[0].word == "p:" then
      if |toks| < 3 || !toks[1].Text? || !toks[2].Asm? then None
      else
        match MkEntry(st, toks[1].word)
        case None => None
        case Some(s) => Compile(Emit(s, [Body(toks[2].op)]), num, toks[3..])
    else if toks[0].word == ":" then
      if |toks| < 2 || !toks[1].Text? then None
      else
        match MkEntry(st, toks[1].word)
        case None => None
        case Some(s) => Compile(s.(state := true), num, toks[2..])
    else
      match DoText(st, num, toks[0].word)
      case None => None
      case Some(s) => Compile(s, num, toks[1..])
  }

  // ----- structured source -----

  /** The dictionary after the first m definitions. */
  ghost function DictOf(prog: seq<Def>, m: nat): (d: seq<Entry>)
    requires m <= |prog|
    ensures |d| == m
  {
    if m == 0 then [] else DictOf(prog, m - 1) + [Entry(prog[m - 1].name, LabelOf(prog, m - 1))]
  }

  lemma {:induction false} DictOfAt(prog: seq<Def>, m: nat, k: nat)
    requires k < m <= |prog|
    ensures DictOf(prog, m)[k] == Entry(prog[k].name, LabelOf(prog, k))
    decreases m
  {
    hide LabelOf;
    if k < m - 1 { DictOfAt(prog, m - 1, k); }
  }

  /** The newest entry is the newest definition. */
  lemma {:induction false} LookupIsNewest(prog: seq<Def>, m: nat, w: string)
    requires m <= |prog|
    ensures Lookup(DictOf(prog, m), w) ==
      if Newest(prog, m, w).Some? then Some(LabelOf(prog, Newest(prog, m, w).value)) else None
    decreases m
  {
    if m > 0 {
      assert DictOf(prog, m)[..m - 1] == DictOf(prog, m - 1);
      LookupIsNewest(prog, m - 1, w);
    }
  }

  lemma OneWord(st: Comp, num: Numbers, w: string, rest: seq<Token>)
    requires w != "p:" && w != ":"
    ensures Compile(st, num, [Text(w)] + rest) ==
      if DoText(st, num, w).None? then None else Compile(DoText(st, num, w).value, num, rest)
  {
    hide DoText;
    assert ([Text(w)] + rest)[1..] == rest;
  }

  /** The state a body leaves behind: its labels used up, its lines written, the control stack as it was. */
  ghost function After(prog: seq<Def>, num: Numbers, m: nat, c: Code, st: Comp): Comp
    requires m <= |prog| && Closed(prog, num, m, c)
  {
    st.(labeli := st.labeli + Labels(c), out := st.out + Lines(prog, num, m, c, st.labeli))
  }

  /** There is room for compiling c, with definition m-1 the newest. */
  ghost predicate Ready(prog: seq<Def>, num: Numbers, m: nat, c: Code, st: Comp) {
    && m <= |prog| && Closed(prog, num, m, c) && st.dict == DictOf(prog, m) && st.state
    && |st.cstack| + Depth(c) <= CSTACK && st.labeli + Labels(c) <= MAXDICT
  }

  /** Compiling a body's words writes the body's lines and leaves the control stack as it found it. */
  lemma BodyCompiles(prog: seq<Def>, num: Numbers, m: nat, c: Code, st: Comp, rest: seq<Token>)
    requires Ready(prog, num, m, c, st)
    ensures Compile(st, num, Words(c) + rest) == Compile(After(prog, num, m, c, st), num, rest)
    decreases c, 1
  {
    hide Compile, DoText, Newest, Lookup, DictOf, Lines, Closed, Labels, Words, After, Ready;
    match c
    case Skip => SkipCompiles(prog, num, m, st, rest);
    case Plain(w) => PlainCompiles(prog, num, m, w, st, rest);
    case Seq(_, _) => SeqCompiles(prog, num, m, c, st, rest);
    case If(_) => IfCompiles(prog, num, m, c, st, rest);
    case IfElse(_, _) => IfElseCompiles(prog, num, m, c, st, rest);
    case Again(_) => AgainCompiles(prog, num, m, c, st, rest);
    case Until(_) => UntilCompiles(prog, num, m, c, st, rest);
    case While(_, _) => WhileCompiles(prog, num, m, c, st, rest);
    case For(_) => ForCompiles(prog, num, m, c, st, rest);
  }

  lemma SeqCompiles(prog: seq<Def>, num: Numbers, m: nat, c: Code, st: Comp, rest: seq<Token>)
    requires Ready(prog, num, m, c, st) && c.Seq?
    ensures Compile(st, num, Words(c) + rest) == Compile(After(prog, num, m, c, st), num, rest)
    decreases c, 0
  {
    hide Compile, DoText, Newest, Lookup, DictOf, Lines, Closed, Labels;
    SeqParts(prog, num, m, c, st.labeli);
    BodyCompiles(prog, num, m, c.first, st, Words(c.second) + rest);
    var s := After(prog, num, m, c.first, st);
    BodyCompiles(prog, num, m, c.second, s, rest);
    assert Words(c) + rest == Words(c.first) + (Words(c.second) + rest);
    var la, lb := Lines(prog, num, m, c.first, st.labeli), Lines(prog, num, m, c.second, s.labeli);
    assert st.out + la + lb == st.out + (la + lb);
  }

  lemma SkipCompiles(prog: seq<Def>, num: Numbers, m: nat, st: Comp, rest: seq<Token>)
    requires Ready(prog, num, m, Skip, st)
    ensures Compile(st, num, Words(Skip) + rest) == Compile(After(prog, num, m, Skip, st), num, rest)
  {
    hide Compile;
    assert Words(Skip) + rest == rest;
    assert st.out + [] == st.out;
  }

  lemma PlainCompiles(prog: seq<Def>, num: Numbers, m: nat, w: string, st: Comp, rest: seq<Token>)
    requires Ready(prog, num, m, Plain(w), st)
    ensures Compile(st, num, Words(Plain(w)) + rest) == Compile(After(prog, num, m, Plain(w), st), num, rest)
  {
    hide Compile, Newest, Lookup, DictOf;
    LookupIsNewest(prog, m, w);
    LookupIsNewest(prog, m, "lit");
    assert DoText(st, num, w) == DoWord(st, num, w);
    OneWord(st, num, w, rest);
  }

  /** The structure words on a control stack that ends in the cells they expect. */
  lemma IfWord(prog: seq<Def>, m: nat, st: Comp, num: Numbers)
    requires m <= |prog| && st.dict == DictOf(prog, m) && HasRuntime(prog, m, "0bra", Zbra) && |st.cstack| < CSTACK
    ensures DoText(st, num, "if") == Some(st.(labeli := st.labeli + 1, cstack := st.cstack + [st.labeli],
                                              out := st.out + [Jsr(Runtime(prog, m, "0bra")), Addr(st.labeli)]))
  {
    hide Newest, Lookup, DictOf;
    LookupIsNewest(prog, m, "0bra");
  }

  lemma ThenWord(st: Comp, num: Numbers, cs: seq<nat>, x: nat)
    requires st.cstack == cs + [x]
    ensures DoText(st, num, "then") == Some(st.(cstack := cs, out := st.out + [Label(x)]))
  {
    assert st.cstack[..|st.cstack| - 1] == cs;
  }

  lemma ElseWord(prog: seq<Def>, m: nat, st: Comp, num: Numbers, cs: seq<nat>, x: nat)
    requires m <= |prog| && st.dict == DictOf(prog, m) && HasRuntime(prog, m, "bra", Bra) && st.cstack == cs + [x]
    requires |st.cstack| <= CSTACK
    ensures DoText(st, num, "else")
      == Some(st.(labeli := st.labeli + 1, cstack := cs + [st.labeli],
                  out := st.out + [Jsr(Runtime(prog, m, "bra")), Addr(st.labeli), Label(x)]))
  {
    hide Newest, Lookup, DictOf;
    LookupIsNewest(prog, m, "bra");
    assert st.cstack[..|st.cstack| - 1] == cs;
    var r := Runtime(prog, m, "bra");
    assert st.out + [Jsr(r), Addr(st.labeli)] + [Label(x)] == st.out + [Jsr(r), Addr(st.labeli), Label(x)];
  }

  lemma BeginWord(st: Comp, num: Numbers)
    requires |st.cstack| < CSTACK
    ensures DoText(st, num, "begin")
      == Some(st.(labeli := st.labeli + 1, cstack := st.cstack + [st.labeli], out := st.out + [Label(st.labeli)]))
  {
  }

  lemma BackWord(prog: seq<Def>, m: nat, st: Comp, num: Numbers, cs: seq<nat>, x: nat, again: bool)
    requires m <= |prog| && st.dict == DictOf(prog, m) && st.cstack == cs + [x]
    requires if again then HasRuntime(prog, m, "bra", Bra) else HasRuntime(prog, m, "0bra", Zbra)
    ensures DoText(st, num, if again then "again" else "until") ==
      Some(st.(cstack := cs, out := st.out + [Jsr(Runtime(prog, m, if again then "bra" else "0bra")), Addr(x)]))
  {
    hide Newest, Lookup, DictOf;
    LookupIsNewest(prog, m, if again then "bra" else "0bra");
    assert st.cstack[..|st.cstack| - 1] == cs;
  }

  lemma WhileWord(prog: seq<Def>, m: nat, st: Comp, num: Numbers, cs: seq<nat>, x: nat)
    requires m <= |prog| && st.dict == DictOf(prog, m) && HasRuntime(prog, m, "0bra", Zbra)
    requires st.cstack == cs + [x] && |st.cstack| < CSTACK
    ensures DoText(st, num, "while") == Some(st.(labeli := st.labeli + 1, cstack := cs + [st.labeli, x],
                                                 out := st.out + [Jsr(Runtime(prog, m, "0bra")), Addr(st.labeli)]))
  {
    hide Newest, Lookup, DictOf;
    LookupIsNewest(prog, m, "0bra");
    assert st.cstack[..|st.cstack| - 1] == cs;
    assert cs + [st.labeli] + [x] == cs + [st.labeli, x];
  }

  /** `repeat` and `next` are the same: branch back to the newest cell, then define the one below. */
  lemma RepeatWord(prog: seq<Def>, m: nat, st: Comp, num: Numbers, cs: seq<nat>, x: nat, y: nat, w: string)
    requires m <= |prog| && st.dict == DictOf(prog, m) && HasRuntime(prog, m, "bra", Bra)
    requires st.cstack == cs + [x, y] && (w == "repeat" || w == "next")
    ensures DoText(st, num, w)
      == Some(st.(cstack := cs, out := st.out + [Jsr(Runtime(prog, m, "bra")), Addr(y), Label(x)]))
  {
    hide Newest, Lookup, DictOf;
    LookupIsNewest(prog, m, "bra");
    assert st.cstack[..|st.cstack| - 1] == cs + [x];
    assert (cs + [x])[..|cs|] == cs;
    var r := Runtime(prog, m, "bra");
    assert st.out + [Jsr(r), Addr(y)] + [Label(x)] == st.out + [Jsr(r), Addr(y), Label(x)];
  }

  lemma ForWord(prog: seq<Def>, m: nat, st: Comp, num: Numbers)
    requires m <= |prog| && st.dict == DictOf(prog, m) && HasRuntime(prog, m, "push", Push)
    requires HasRuntime(prog, m, "dofor", Op.DoFor)
    requires |st.cstack| + 2 <= CSTACK
    ensures DoText(st, num, "for")
      == Some(st.(labeli := st.labeli + 2, cstack := st.cstack + [st.labeli + 1, st.labeli],
                  out := st.out + [Jsr(Runtime(prog, m, "push")), Label(st.labeli),
                                   Jsr(Runtime(prog, m, "dofor")), Addr(st.labeli + 1)]))
  {
    hide Newest, Lookup, DictOf;
    LookupIsNewest(prog, m, "push");
    LookupIsNewest(prog, m, "dofor");
    assert st.cstack + [st.labeli + 1] + [st.labeli] == st.cstack + [st.labeli + 1, st.labeli];
  }

  lemma Assoc3(a: seq<Line>, b: seq<Line>, c: seq<Line>, d: seq<Line>)
    ensures a + b + c + d == a + (b + c + d)
  {
  }

  lemma Assoc5(a: seq<Line>, b: seq<Line>, c: seq<Line>, d: seq<Line>, e: seq<Line>, f: seq<Line>)
    ensures a + b + c + d + e + f == a + (b + c + d + e + f)
  {
  }

  lemma IfCompiles(prog: seq<Def>, num: Numbers, m: nat, c: Code, st: Comp, rest: seq<Token>)
    requires Ready(prog, num, m, c, st) && c.If?
    ensures Compile(st, num, Words(c) + rest) == Compile(After(prog, num, m, c, st), num, rest)
    decreases c, 0
  {
    hide Compile, DoText, Newest, Lookup, DictOf, Runtime, Lines, Closed, Labels;
    IfParts(prog, num, m, c, st.labeli);
    var after := [Text("then")] + rest;
    assert Words(c) + rest == [Text("if")] + (Words(c.thn) + after);
    OneWord(st, num, "if", Words(c.thn) + after);
    IfWord(prog, m, st, num);
    var s1 := DoText(st, num, "if").value;
    BodyCompiles(prog, num, m, c.thn, s1, after);
    var s2 := After(prog, num, m, c.thn, s1);
    OneWord(s2, num, "then", rest);
    ThenWord(s2, num, st.cstack, st.labeli);
    var head, lt := [Jsr(Runtime(prog, m, "0bra")), Addr(st.labeli)], Lines(prog, num, m, c.thn, st.labeli + 1);
    Assoc3(st.out, head, lt, [Label(st.labeli)]);
  }

  /** From `else` on, with the label of the first branch on top of the control stack. */
  lemma ElseCompiles(prog: seq<Def>, num: Numbers, m: nat, e: Code, st: Comp, cs: seq<nat>, n: nat, rest: seq<Token>)
    requires m <= |prog| && Closed(prog, num, m, e) && HasRuntime(prog, m, "bra", Bra)
    requires st.dict == DictOf(prog, m) && st.state && st.cstack == cs + [n]
    requires |cs| + 1 + Depth(e) <= CSTACK && st.labeli + 1 + Labels(e) <= MAXDICT
    ensures var x := st.labeli;
      Compile(st, num, [Text("else")] + (Words(e) + ([Text("then")] + rest)))
      == Compile(st.(labeli := x + 1 + Labels(e), cstack := cs,
                     out := st.out + [Jsr(Runtime(prog, m, "bra")), Addr(x), Label(n)]
                            + Lines(prog, num, m, e, x + 1) + [Label(x)]), num, rest)
    decreases e, 2
  {
    hide Compile, DoText, Newest, Lookup, DictOf, Runtime, Lines, Closed, Labels, Words, Depth;
    var x, after := st.labeli, [Text("then")] + rest;
    OneWord(st, num, "else", Words(e) + after);
    ElseWord(prog, m, st, num, cs, n);
    var s1 := DoText(st, num, "else").value;
    BodyCompiles(prog, num, m, e, s1, after);
    var s2 := After(prog, num, m, e, s1);
    OneWord(s2, num, "then", rest);
    ThenWord(s2, num, cs, x);
  }

  lemma IfElseCompiles(prog: seq<Def>, num: Numbers, m: nat, c: Code, st: Comp, rest: seq<Token>)
    requires Ready(prog, num, m, c, st) && c.IfElse?
    ensures Compile(st, num, Words(c) + rest) == Compile(After(prog, num, m, c, st), num, rest)
    decreases c, 0
  {
    hide Compile, DoText, Newest, Lookup, DictOf, Runtime, Lines, Closed, Labels;
    IfElseParts(prog, num, m, c, st.labeli);
    var after := [Text("then")] + rest;
    var mid := [Text("else")] + (Words(c.els) + after);
    assert Words(c) + rest == [Text("if")] + (Words(c.thn) + mid);
    OneWord(st, num, "if", Words(c.thn) + mid);
    IfWord(prog, m, st, num);
    var s1 := DoText(st, num, "if").value;
    BodyCompiles(prog, num, m, c.thn, s1, mid);
    var s2 := After(prog, num, m, c.thn, s1);
    ElseCompiles(prog, num, m, c.els, s2, st.cstack, st.labeli, rest);
    var n, x := st.labeli, s2.labeli;
    var head, lt := [Jsr(Runtime(prog, m, "0bra")), Addr(n)], Lines(prog, num, m, c.thn, n + 1);
    var br, le := [Jsr(Runtime(prog, m, "bra")), Addr(x), Label(n)], Lines(prog, num, m, c.els, x + 1);
    Assoc5(st.out, head, lt, br, le, [Label(x)]);
  }

  lemma AgainCompiles(prog: seq<Def>, num: Numbers, m: nat, c: Code, st: Comp, rest: seq<Token>)
    requires Ready(prog, num, m, c, st) && c.Again?
    ensures Compile(st, num, Words(c) + rest) == Compile(After(prog, num, m, c, st), num, rest)
    decreases c, 0
  {
    hide Compile, DoText, Newest, Lookup, DictOf, Runtime, Lines, Closed, Labels;
    LoopParts(prog, num, m, c, st.labeli);
    var after := [Text("again")] + rest;
    assert Words(c) + rest == [Text("begin")] + (Words(c.body) + after);
    OneWord(st, num, "begin", Words(c.body) + after);
    BeginWord(st, num);
    var s1 := DoText(st, num, "begin").value;
    BodyCompiles(prog, num, m, c.body, s1, after);
    var s2 := After(prog, num, m, c.body, s1);
    OneWord(s2, num, "again", rest);
    BackWord(prog, m, s2, num, st.cstack, st.labeli, true);
    var lb, tail := Lines(prog, num, m, c.body, st.labeli + 1), [Jsr(Runtime(prog, m, "bra")), Addr(st.labeli)];
    Assoc3(st.out, [Label(st.labeli)], lb, tail);
  }

  lemma UntilCompiles(prog: seq<Def>, num: Numbers, m: nat, c: Code, st: Comp, rest: seq<Token>)
    requires Ready(prog, num, m, c, st) && c.Until?
    ensures Compile(st, num, Words(c) + rest) == Compile(After(prog, num, m, c, st), num, rest)
    decreases c, 0
  {
    hide Compile, DoText, Newest, Lookup, DictOf, Runtime, Lines, Closed, Labels;
    LoopParts(prog, num, m, c, st.labeli);
    var after := [Text("until")] + rest;
    assert Words(c) + rest == [Text("begin")] + (Words(c.body) + after);
    OneWord(st, num, "begin", Words(c.body) + after);
    BeginWord(st, num);
    var s1 := DoText(st, num, "begin").value;
    BodyCompiles(prog, num, m, c.body, s1, after);
    var s2 := After(prog, num, m, c.body, s1);
    OneWord(s2, num, "until", rest);
    BackWord(prog, m, s2, num, st.cstack, st.labeli, false);
    var lb, tail := Lines(prog, num, m, c.body, st.labeli + 1), [Jsr(Runtime(prog, m, "0bra")), Addr(st.labeli)];
    Assoc3(st.out, [Label(st.labeli)], lb, tail);
  }

  lemma WhileCompiles(prog: seq<Def>, num: Numbers, m: nat, c: Code, st: Comp, rest: seq<Token>)
    requires Ready(prog, num, m, c, st) && c.While?
    ensures Compile(st, num, Words(c) + rest) == Compile(After(prog, num, m, c, st), num, rest)
    decreases c, 0
  {
    hide Compile, DoText, Newest, Lookup, DictOf, Runtime, Lines, Closed, Labels;
    WhileParts(prog, num, m, c, st.labeli);
    var after := [Text("repeat")] + rest;
    var mid := [Text("while")] + (Words(c.body) + after);
    assert Words(c) + rest == [Text("begin")] + (Words(c.cond) + mid);
    OneWord(st, num, "begin", Words(c.cond) + mid);
    BeginWord(st, num);
    var s1 := DoText(st, num, "begin").value;
    BodyCompiles(prog, num, m, c.cond, s1, mid);
    var s2 := After(prog, num, m, c.cond, s1);
    OneWord(s2, num, "while", Words(c.body) + after);
    WhileWord(prog, m, s2, num, st.cstack, st.labeli);
    var s3 := DoText(s2, num, "while").value;
    BodyCompiles(prog, num, m, c.body, s3, after);
    var s4 := After(prog, num, m, c.body, s3);
    OneWord(s4, num, "repeat", rest);
    RepeatWord(prog, m, s4, num, st.cstack, s2.labeli, st.labeli, "repeat");
    var n, x := st.labeli, s2.labeli;
    var lc, z := Lines(prog, num, m, c.cond, n + 1), [Jsr(Runtime(prog, m, "0bra")), Addr(x)];
    var lb, tail := Lines(prog, num, m, c.body, x + 1), [Jsr(Runtime(prog, m, "bra")), Addr(n), Label(x)];
    Assoc5(st.out, [Label(n)], lc, z, lb, tail);
  }

  lemma ForCompiles(prog: seq<Def>, num: Numbers, m: nat, c: Code, st: Comp, rest: seq<Token>)
    requires Ready(prog, num, m, c, st) && c.For?
    ensures Compile(st, num, Words(c) + rest) == Compile(After(prog, num, m, c, st), num, rest)
    decreases c, 0
  {
    hide Compile, DoText, Newest, Lookup, DictOf, Runtime, Lines, Closed, Labels;
    ForParts(prog, num, m, c, st.labeli);
    var after := [Text("next")] + rest;
    assert Words(c) + rest == [Text("for")] + (Words(c.body) + after);
    OneWord(st, num, "for", Words(c.body) + after);
    ForWord(prog, m, st, num);
    var s1 := DoText(st, num, "for").value;
    BodyCompiles(prog, num, m, c.body, s1, after);
    var s2 := After(prog, num, m, c.body, s1);
    OneWord(s2, num, "next", rest);
    RepeatWord(prog, m, s2, num, st.cstack, st.labeli + 1, st.labeli, "next");
    var n := st.labeli;
    var head := [Jsr(Runtime(prog, m, "push")), Label(n), Jsr(Runtime(prog, m, "dofor")), Addr(n + 1)];
    var lb, tail := Lines(prog, num, m, c.body, n + 2), [Jsr(Runtime(prog, m, "bra")), Addr(n), Label(n + 1)];
    Assoc3(st.out, head, lb, tail);
  }

  // ----- whole programs -----

  /** The state between definitions k-1 and k. */
  ghost function Reached(prog: seq<Def>, num: Numbers, k: nat): Comp
    requires ProgClosed(prog, num) && k <= |prog|
  {
    Comp(LabelOf(prog, k), DictOf(prog, k), [], false, ProgLines(prog, num, k))
  }

  lemma PrimitiveCompiles(prog: seq<Def>, num: Numbers, k: nat, rest: seq<Token>)
    requires ProgClosed(prog, num) && k < |prog| && prog[k].Primitive?
    ensures Compile(Reached(prog, num, k), num, DefWords(prog[k]) + rest)
      == Compile(Reached(prog, num, k + 1), num, rest)
  {
    hide Closed, Lines, Labels;
    var toks := DefWords(prog[k]) + rest;
    assert toks[3..] == rest;
    var st := Reached(prog, num, k);
    assert st.out + [Label(st.labeli)] + [Body(prog[k].op)] == st.out + [Label(st.labeli), Body(prog[k].op)];
  }

  lemma ColonCompiles(prog: seq<Def>, num: Numbers, k: nat, rest: seq<Token>)
    requires ProgClosed(prog, num) && k < |prog| && prog[k].Colon?
    ensures Compile(Reached(prog, num, k), num, DefWords(prog[k]) + rest)
      == Compile(Reached(prog, num, k + 1), num, rest)
  {
    hide Closed, Lines, Labels, Words, DoText;
    var d, st := prog[k], Reached(prog, num, k);
    var tail := Words(d.body) + ([Text(";")] + rest);
    var toks := DefWords(d) + rest;
    assert toks == [Text(":"), Text(d.name)] + tail && toks[2..] == tail;
    var s1 := MkEntry(st, d.name).value.(state := true);
    LabelOfMonotone(prog, k + 1, |prog|);
    assert Compile(st, num, toks) == Compile(s1, num, tail);
    ColonBody(prog, num, k, s1, rest);
  }

  lemma ProgLinesNext(prog: seq<Def>, num: Numbers, k: nat)
    requires ProgClosed(prog, num) && k < |prog| && prog[k].Colon?
    ensures ProgLines(prog, num, k + 1)
      == ProgLines(prog, num, k) + [Label(LabelOf(prog, k))]
        + Lines(prog, num, k + 1, prog[k].body, LabelOf(prog, k) + 1) + [Rts]
  {
    hide Closed, Lines, Labels, LabelOf;
    var before, body := ProgLines(prog, num, k), Lines(prog, num, k + 1, prog[k].body, LabelOf(prog, k) + 1);
    Assoc3(before, [Label(LabelOf(prog, k))], body, [Rts]);
  }

  lemma ColonBody(prog: seq<Def>, num: Numbers, k: nat, st: Comp, rest: seq<Token>)
    requires ProgClosed(prog, num) && k < |prog| && prog[k].Colon?
    requires st == Comp(LabelOf(prog, k) + 1, DictOf(prog, k + 1), [], true,
      ProgLines(prog, num, k) + [Label(LabelOf(prog, k))])
    ensures Compile(st, num, Words(prog[k].body) + ([Text(";")] + rest))
      == Compile(Reached(prog, num, k + 1), num, rest)
  {
    hide Closed, Lines, Labels, Words, Compile, DictOf, ProgLines, LabelOf;
    LabelOfMonotone(prog, k + 1, |prog|);
    LabelOfNext(prog, k);
    BodyCompiles(prog, num, k + 1, prog[k].body, st, [Text(";")] + rest);
    var s := After(prog, num, k + 1, prog[k].body, st);
    OneWord(s, num, ";", rest);
    ProgLinesNext(prog, num, k);
  }

  lemma {:induction false} RestCompiles(prog: seq<Def>, num: Numbers, k: nat)
    requires ProgClosed(prog, num) && k <= |prog|
    ensures Compile(Reached(prog, num, k), num, ProgWords(prog[k..])) == Some(Reached(prog, num, |prog|))
    decreases |prog| - k
  {
    hide Reached, ProgClosed, DefWords;
    if k < |prog| {
      assert prog[k..][0] == prog[k] && prog[k..][1..] == prog[k + 1..];
      RestCompiles(prog, num, k + 1);
      if prog[k].Colon? {
        ColonCompiles(prog, num, k, ProgWords(prog[k + 1..]));
      } else {
        PrimitiveCompiles(prog, num, k, ProgWords(prog[k + 1..]));
      }
    }
  }

  /** A closed program compiles to its lines, with the control stack empty again. */
  lemma ProgCompiles(prog: seq<Def>, num: Numbers)
    requires ProgClosed(prog, num)
    ensures Compile(START, num, ProgWords(prog)) == Some(Reached(prog, num, |prog|))
  {
    hide Compile;
    assert prog[0..] == prog;
    RestCompiles(prog, num, 0);
  }
}
