/** The emitted lines do on the machine what the structured source means. */
module BfcCorrect {
  import opened Bytes
  import opened BfcLang
  import opened BfcMachine

  /** A program, how its numbers are read, what its data primitives do, and the lines it was compiled to. */
  datatype World = World(prog: seq<Def>, num: Numbers, prims: Prims, code: seq<Line>)

  /** The lines `ls` stand at address pc. */
  ghost predicate At(code: seq<Line>, pc: nat, ls: seq<Line>) {
    pc + |ls| <= |code| && code[pc..pc + |ls|] == ls
  }

  lemma AtSplit(code: seq<Line>, pc: nat, a: seq<Line>, b: seq<Line>)
    requires At(code, pc, a + b)
    ensures At(code, pc, a) && At(code, pc + |a|, b)
  {
    assert code[pc..pc + |a|] == code[pc..pc + |a + b|][..|a|];
    assert code[pc + |a|..pc + |a| + |b|] == code[pc..pc + |a + b|][|a|..];
  }

  lemma AtLine(code: seq<Line>, pc: nat, ls: seq<Line>, i: nat)
    requires At(code, pc, ls) && i < |ls|
    ensures pc + i < |code| && code[pc + i] == ls[i]
  {
    assert code[pc..pc + |ls|][i] == ls[i];
  }

  ghost predicate AllClosed(prog: seq<Def>, num: Numbers) {
    forall k :: 0 <= k < |prog| && prog[k].Colon? ==> Closed(prog, num, k + 1, prog[k].body)
  }

  /** The address of definition k. */
  ghost function Start(w: World, k: nat): nat {
    if k <= |w.prog| && AllClosed(w.prog, w.num) then |ProgLines(w.prog, w.num, k)| else 0
  }

  ghost predicate Loaded(w: World) {
    && AllClosed(w.prog, w.num) && UniqueLabels(w.code) && |w.code| < 0x10000
    && forall k :: 0 <= k < |w.prog| ==> At(w.code, Start(w, k), DefLines(w.prog, w.num, k))
  }

  // ----- single steps -----

  lemma RetIs(w: World, pc: nat)
    requires Loaded(w) && pc <= |w.code|
    ensures Ret(pc) == pc
  {
  }

  lemma LabelTarget(w: World, t: nat)
    requires Loaded(w) && t < |w.code| && w.code[t].Label?
    ensures Target(w.code, w.code[t].l) == Some(t)
  {
    TargetIs(w.code, t);
  }

  lemma RunLabel(w: World, pc: nat, ds: Stack, rs: Stack, fuel: nat)
    requires pc < |w.code| && w.code[pc].Label?
    ensures Run(w.code, w.prims, State(pc, ds, rs), fuel) ==
      if fuel == 0 then Timeout else Run(w.code, w.prims, State(pc + 1, ds, rs), fuel - 1)
  {
  }

  lemma RunRts(w: World, pc: nat, ds: Stack, rs: Stack, fuel: nat)
    requires pc < |w.code| && w.code[pc] == Rts && rs != []
    ensures Run(w.code, w.prims, State(pc, ds, rs), fuel) ==
      if fuel == 0 then Timeout else Run(w.code, w.prims, State(rs[0], ds, rs[1..]), fuel - 1)
  {
  }

  lemma RunJsrTo(w: World, l: nat, t: nat, pc: nat, ds: Stack, rs: Stack, fuel: nat)
    requires pc < |w.code| && w.code[pc] == Jsr(l) && Target(w.code, l) == Some(t)
    ensures Run(w.code, w.prims, State(pc, ds, rs), fuel) ==
      if fuel == 0 then Timeout else Run(w.code, w.prims, State(t, ds, [Ret(pc + 1)] + rs), fuel - 1)
  {
    hide Target;
  }

  lemma RunBody(w: World, pc: nat, op: Op, ds: Stack, rs: Stack, fuel: nat)
    requires pc < |w.code| && w.code[pc] == Body(op)
    ensures Run(w.code, w.prims, State(pc, ds, rs), fuel) ==
      if fuel == 0 then Timeout
      else if Perform(w.code, w.prims, op, ds, rs).None? then Stuck
      else Run(w.code, w.prims, Perform(w.code, w.prims, op, ds, rs).value, fuel - 1)
  {
    hide Perform;
  }

  /** The body of colon definition j and its return stand at pc. */
  ghost predicate ColonAt(w: World, j: nat, pc: nat)
    requires j < |w.prog| && w.prog[j].Colon?
  {
    && Closed(w.prog, w.num, j + 1, w.prog[j].body)
    && var ls := Lines(w.prog, w.num, j + 1, w.prog[j].body, LabelOf(w.prog, j) + 1);
       At(w.code, pc, ls) && pc + |ls| < |w.code| && w.code[pc + |ls|] == Rts
  }

  lemma EntryLabel(w: World, j: nat)
    requires Loaded(w) && j < |w.prog|
    ensures var t := Start(w, j);
      t < |w.code| && w.code[t] == Label(LabelOf(w.prog, j)) && Target(w.code, LabelOf(w.prog, j)) == Some(t)
    ensures var t := Start(w, j); w.prog[j].Primitive? ==> t + 1 < |w.code| && w.code[t + 1] == Body(w.prog[j].op)
    ensures w.prog[j].Colon? ==> ColonAt(w, j, Start(w, j) + 1)
  {
    hide Lines, Closed, Start, UniqueLabels, Target, LabelOf, At;
    assert At(w.code, Start(w, j), DefLines(w.prog, w.num, j));
    AtLine(w.code, Start(w, j), DefLines(w.prog, w.num, j), 0);
    LabelTarget(w, Start(w, j));
    match w.prog[j]
    case Primitive(_, _) => AtLine(w.code, Start(w, j), DefLines(w.prog, w.num, j), 1);
    case Colon(_, body) =>
      var ls := Lines(w.prog, w.num, j + 1, body, LabelOf(w.prog, j) + 1);
      AtSplit(w.code, Start(w, j), [Label(LabelOf(w.prog, j))] + ls, [Rts]);
      AtSplit(w.code, Start(w, j), [Label(LabelOf(w.prog, j))], ls);
      AtLine(w.code, Start(w, j) + 1 + |ls|, [Rts], 0);
  }

  lemma RunPrimitive(w: World, j: nat, ds: Stack, rs: Stack, fuel: nat)
    requires Loaded(w) && j < |w.prog| && w.prog[j].Primitive?
    ensures Run(w.code, w.prims, State(Start(w, j), ds, rs), fuel) ==
      if fuel < 2 then Timeout
      else if Perform(w.code, w.prims, w.prog[j].op, ds, rs).None? then Stuck
      else Run(w.code, w.prims, Perform(w.code, w.prims, w.prog[j].op, ds, rs).value, fuel - 2)
  {
    hide Loaded, Run, Perform, Target, Start, Lines, Closed;
    EntryLabel(w, j);
    RunLabel(w, Start(w, j), ds, rs, fuel);
    if fuel > 0 { RunBody(w, Start(w, j) + 1, w.prog[j].op, ds, rs, fuel - 1); }
  }

  /** A call of a run-time primitive, followed by whatever its operand is. */
  lemma RunRuntime(w: World, m: nat, name: string, op: Op, pc: nat, ds: Stack, rs: Stack, fuel: nat)
    requires Loaded(w) && m <= |w.prog| && HasRuntime(w.prog, m, name, op)
    requires pc < |w.code| && w.code[pc] == Jsr(Runtime(w.prog, m, name))
    ensures Run(w.code, w.prims, State(pc, ds, rs), fuel) ==
      if fuel < 3 then Timeout
      else if Perform(w.code, w.prims, op, ds, [Ret(pc + 1)] + rs).None? then Stuck
      else Run(w.code, w.prims, Perform(w.code, w.prims, op, ds, [Ret(pc + 1)] + rs).value, fuel - 3)
  {
    hide Loaded, Run, Perform, Target, Start, Newest, Ret, Lines, Closed, LabelOf;
    var j := Newest(w.prog, m, name).value;
    EntryLabel(w, j);
    RunJsrTo(w, LabelOf(w.prog, j), Start(w, j), pc, ds, rs, fuel);
    if fuel > 0 { RunPrimitive(w, j, ds, [Ret(pc + 1)] + rs, fuel - 1); }
  }

  lemma RunBra(w: World, m: nat, pc: nat, t: nat, ds: Stack, rs: Stack, fuel: nat)
    requires Loaded(w) && m <= |w.prog| && HasRuntime(w.prog, m, "bra", Bra)
    requires pc + 1 < |w.code| && t < |w.code| && w.code[pc] == Jsr(Runtime(w.prog, m, "bra"))
    requires w.code[t].Label? && w.code[pc + 1] == Addr(w.code[t].l)
    ensures Run(w.code, w.prims, State(pc, ds, rs), fuel) ==
      if fuel < 3 then Timeout else Run(w.code, w.prims, State(t, ds, rs), fuel - 3)
  {
    hide Loaded, Run, Target, Start, Newest, HasRuntime;
    RetIs(w, pc + 1);
    LabelTarget(w, t);
    assert ([Ret(pc + 1)] + rs)[1..] == rs;
    RunRuntime(w, m, "bra", Bra, pc, ds, rs, fuel);
  }

  lemma RunZbra(w: World, m: nat, pc: nat, t: nat, ds: Stack, rs: Stack, fuel: nat)
    requires Loaded(w) && m <= |w.prog| && HasRuntime(w.prog, m, "0bra", Zbra)
    requires pc + 1 < |w.code| && t < |w.code| && w.code[pc] == Jsr(Runtime(w.prog, m, "0bra"))
    requires w.code[t].Label? && w.code[pc + 1] == Addr(w.code[t].l)
    ensures fuel < 3 ==> Run(w.code, w.prims, State(pc, ds, rs), fuel) == Timeout
    ensures fuel >= 3 && ds != [] ==>
      Run(w.code, w.prims, State(pc, ds, rs), fuel)
        == Run(w.code, w.prims, State(if ds[0] == 0 then t else pc + 2, ds[1..], rs), fuel - 3)
  {
    hide Loaded, Run, Target, Start, Newest, HasRuntime;
    RetIs(w, pc + 1);
    LabelTarget(w, t);
    assert ([Ret(pc + 1)] + rs)[1..] == rs;
    RunRuntime(w, m, "0bra", Zbra, pc, ds, rs, fuel);
  }

  lemma RunPush(w: World, m: nat, pc: nat, ds: Stack, rs: Stack, fuel: nat)
    requires Loaded(w) && m <= |w.prog| && HasRuntime(w.prog, m, "push", Push)
    requires pc < |w.code| && w.code[pc] == Jsr(Runtime(w.prog, m, "push"))
    ensures fuel < 3 ==> Run(w.code, w.prims, State(pc, ds, rs), fuel) == Timeout
    ensures fuel >= 3 && ds != [] ==>
      Run(w.code, w.prims, State(pc, ds, rs), fuel)
        == Run(w.code, w.prims, State(pc + 1, ds[1..], [ds[0]] + rs), fuel - 3)
  {
    hide Loaded, Run, Target, Start, Newest, HasRuntime;
    RetIs(w, pc + 1);
    assert ([Ret(pc + 1)] + rs)[1..] == rs;
    RunRuntime(w, m, "push", Push, pc, ds, rs, fuel);
  }

  lemma RunLit(w: World, m: nat, pc: nat, v: int, ds: Stack, rs: Stack, fuel: nat)
    requires Loaded(w) && m <= |w.prog| && HasRuntime(w.prog, m, "lit", Lit)
    requires pc + 1 < |w.code| && w.code[pc] == Jsr(Runtime(w.prog, m, "lit")) && w.code[pc + 1] == Cell(v)
    ensures Run(w.code, w.prims, State(pc, ds, rs), fuel) ==
      if fuel < 3 then Timeout else Run(w.code, w.prims, State(pc + 2, [v % 0x10000] + ds, rs), fuel - 3)
  {
    hide Loaded, Run, Target, Start, Newest, HasRuntime;
    RetIs(w, pc + 1);
    assert ([Ret(pc + 1)] + rs)[1..] == rs;
    RunRuntime(w, m, "lit", Lit, pc, ds, rs, fuel);
  }

  lemma RunDoFor(w: World, m: nat, pc: nat, t: nat, ds: Stack, rs: Stack, fuel: nat)
    requires Loaded(w) && m <= |w.prog| && HasRuntime(w.prog, m, "dofor", DoFor) && rs != []
    requires pc + 1 < |w.code| && t < |w.code| && w.code[pc] == Jsr(Runtime(w.prog, m, "dofor"))
    requires w.code[t].Label? && w.code[pc + 1] == Addr(w.code[t].l)
    ensures Run(w.code, w.prims, State(pc, ds, rs), fuel) ==
      if fuel < 3 then Timeout
      else if rs[0] == 0 then Run(w.code, w.prims, State(t, ds, rs[1..]), fuel - 3)
      else Run(w.code, w.prims, State(pc + 2, ds, [rs[0] - 1] + rs[1..]), fuel - 3)
  {
    hide Loaded, Run, Target, Start, Newest, HasRuntime;
    RetIs(w, pc + 1);
    LabelTarget(w, t);
    assert ([Ret(pc + 1)] + rs)[1..] == rs;
    RunRuntime(w, m, "dofor", DoFor, pc, ds, rs, fuel);
  }

  // ----- where the parts of a structure stand -----

  lemma IfShape(w: World, m: nat, c: Code, n: nat, pc: nat)
    requires m <= |w.prog| && Closed(w.prog, w.num, m, c) && c.If? && At(w.code, pc, Lines(w.prog, w.num, m, c, n))
    ensures Closed(w.prog, w.num, m, c.thn) && HasRuntime(w.prog, m, "0bra", Zbra)
    ensures var lt := Lines(w.prog, w.num, m, c.thn, n + 1); var t := pc + 2 + |lt|;
      && pc + |Lines(w.prog, w.num, m, c, n)| == t + 1 && t < |w.code|
      && w.code[pc] == Jsr(Runtime(w.prog, m, "0bra")) && w.code[pc + 1] == Addr(n)
      && At(w.code, pc + 2, lt) && w.code[t] == Label(n)
  {
    hide At, Lines, Closed, Labels, Newest, Runtime;
    IfParts(w.prog, w.num, m, c, n);
    var head, lt := [Jsr(Runtime(w.prog, m, "0bra")), Addr(n)], Lines(w.prog, w.num, m, c.thn, n + 1);
    AtSplit(w.code, pc, head + lt, [Label(n)]);
    AtSplit(w.code, pc, head, lt);
    AtLine(w.code, pc, head, 0); AtLine(w.code, pc, head, 1);
    AtLine(w.code, pc + 2 + |lt|, [Label(n)], 0);
  }

  /** `if … else … then` at pc: branches over the two parts lt and le. */
  ghost predicate IfElseAt(code: seq<Line>, pc: nat, z: nat, br: nat, n: nat, x: nat, lt: seq<Line>, le: seq<Line>) {
    var p := pc + 2 + |lt|;
    var q := p + 3 + |le|;
    && q < |code| && code[pc] == Jsr(z) && code[pc + 1] == Addr(n) && At(code, pc + 2, lt)
    && code[p] == Jsr(br) && code[p + 1] == Addr(x) && code[p + 2] == Label(n) && At(code, p + 3, le)
      && code[q] == Label(x)
  }

  lemma SplitIfElse(code: seq<Line>, pc: nat, z: nat, br: nat, n: nat, x: nat, lt: seq<Line>, le: seq<Line>)
    requires At(code, pc, [Jsr(z), Addr(n)] + lt + [Jsr(br), Addr(x), Label(n)] + le + [Label(x)])
    ensures IfElseAt(code, pc, z, br, n, x, lt, le)
  {
    hide At;
    var head, mid := [Jsr(z), Addr(n)], [Jsr(br), Addr(x), Label(n)];
    AtSplit(code, pc, head + lt + mid + le, [Label(x)]);
    AtSplit(code, pc, head + lt + mid, le);
    AtSplit(code, pc, head + lt, mid);
    AtSplit(code, pc, head, lt);
    AtLine(code, pc, head, 0); AtLine(code, pc, head, 1);
    var p := pc + 2 + |lt|;
    AtLine(code, p, mid, 0); AtLine(code, p, mid, 1); AtLine(code, p, mid, 2);
    AtLine(code, p + 3 + |le|, [Label(x)], 0);
  }

  lemma IfElseShape(w: World, m: nat, c: Code, n: nat, pc: nat)
    requires m <= |w.prog| && Closed(w.prog, w.num, m, c) && c.IfElse? && At(w.code, pc, Lines(w.prog, w.num, m, c, n))
    ensures Closed(w.prog, w.num, m, c.thn) && Closed(w.prog, w.num, m, c.els)
    ensures HasRuntime(w.prog, m, "0bra", Zbra) && HasRuntime(w.prog, m, "bra", Bra)
    ensures var x := n + 1 + Labels(c.thn);
      var lt, le := Lines(w.prog, w.num, m, c.thn, n + 1), Lines(w.prog, w.num, m, c.els, x + 1);
      && |Lines(w.prog, w.num, m, c, n)| == |lt| + |le| + 6
      && IfElseAt(w.code, pc, Runtime(w.prog, m, "0bra"), Runtime(w.prog, m, "bra"), n, x, lt, le)
  {
    hide At, IfElseAt, Lines, Closed, Labels, Newest, Runtime;
    IfElseParts(w.prog, w.num, m, c, n);
    var x := n + 1 + Labels(c.thn);
    SplitIfElse(w.code, pc, Runtime(w.prog, m, "0bra"), Runtime(w.prog, m, "bra"), n, x,
                Lines(w.prog, w.num, m, c.thn, n + 1), Lines(w.prog, w.num, m, c.els, x + 1));
  }

  /** A loop that is a label, a body and a branch back to the label. */
  lemma LoopShape(w: World, m: nat, c: Code, n: nat, pc: nat)
    requires m <= |w.prog| && Closed(w.prog, w.num, m, c) && (c.Again? || c.Until?)
    requires At(w.code, pc, Lines(w.prog, w.num, m, c, n))
    ensures Closed(w.prog, w.num, m, c.body)
    ensures c.Again? ==> HasRuntime(w.prog, m, "bra", Bra)
    ensures c.Until? ==> HasRuntime(w.prog, m, "0bra", Zbra)
    ensures var lb := Lines(w.prog, w.num, m, c.body, n + 1); var p := pc + 1 + |lb|;
      && pc + |Lines(w.prog, w.num, m, c, n)| == p + 2 && p + 1 < |w.code|
      && w.code[pc] == Label(n) && At(w.code, pc + 1, lb)
      && w.code[p] == Jsr(Runtime(w.prog, m, if c.Again? then "bra" else "0bra")) && w.code[p + 1] == Addr(n)
  {
    hide At, Lines, Closed, Labels, Newest, Runtime;
    LoopParts(w.prog, w.num, m, c, n);
    var lb, tail := Lines(w.prog, w.num, m, c.body, n + 1),
      [Jsr(Runtime(w.prog, m, if c.Again? then "bra" else "0bra")), Addr(n)];
    AtSplit(w.code, pc, [Label(n)] + lb, tail);
    AtSplit(w.code, pc, [Label(n)], lb);
    AtLine(w.code, pc, [Label(n)], 0);
    AtLine(w.code, pc + 1 + |lb|, tail, 0); AtLine(w.code, pc + 1 + |lb|, tail, 1);
  }

  ghost predicate WhileAt(code: seq<Line>, pc: nat, z: nat, br: nat, n: nat, x: nat, lc: seq<Line>, lb: seq<Line>) {
    var p := pc + 1 + |lc|;
    var q := p + 2 + |lb|;
    && q + 2 < |code| && code[pc] == Label(n) && At(code, pc + 1, lc)
    && code[p] == Jsr(z) && code[p + 1] == Addr(x) && At(code, p + 2, lb)
    && code[q] == Jsr(br) && code[q + 1] == Addr(n) && code[q + 2] == Label(x)
  }

  lemma SplitWhile(code: seq<Line>, pc: nat, z: nat, br: nat, n: nat, x: nat, lc: seq<Line>, lb: seq<Line>)
    requires At(code, pc, [Label(n)] + lc + [Jsr(z), Addr(x)] + lb + [Jsr(br), Addr(n), Label(x)])
    ensures WhileAt(code, pc, z, br, n, x, lc, lb)
  {
    hide At;
    var mid, tail := [Jsr(z), Addr(x)], [Jsr(br), Addr(n), Label(x)];
    AtSplit(code, pc, [Label(n)] + lc + mid + lb, tail);
    AtSplit(code, pc, [Label(n)] + lc + mid, lb);
    AtSplit(code, pc, [Label(n)] + lc, mid);
    AtSplit(code, pc, [Label(n)], lc);
    AtLine(code, pc, [Label(n)], 0);
    var p := pc + 1 + |lc|;
    AtLine(code, p, mid, 0); AtLine(code, p, mid, 1);
    var q := p + 2 + |lb|;
    AtLine(code, q, tail, 0); AtLine(code, q, tail, 1); AtLine(code, q, tail, 2);
  }

  lemma WhileShape(w: World, m: nat, c: Code, n: nat, pc: nat)
    requires m <= |w.prog| && Closed(w.prog, w.num, m, c) && c.While? && At(w.code, pc, Lines(w.prog, w.num, m, c, n))
    ensures Closed(w.prog, w.num, m, c.cond) && Closed(w.prog, w.num, m, c.body)
    ensures HasRuntime(w.prog, m, "0bra", Zbra) && HasRuntime(w.prog, m, "bra", Bra)
    ensures var x := n + 1 + Labels(c.cond);
      var lc, lb := Lines(w.prog, w.num, m, c.cond, n + 1), Lines(w.prog, w.num, m, c.body, x + 1);
      && |Lines(w.prog, w.num, m, c, n)| == |lc| + |lb| + 6
      && WhileAt(w.code, pc, Runtime(w.prog, m, "0bra"), Runtime(w.prog, m, "bra"), n, x, lc, lb)
  {
    hide At, WhileAt, Lines, Closed, Labels, Newest, Runtime;
    WhileParts(w.prog, w.num, m, c, n);
    var x := n + 1 + Labels(c.cond);
    SplitWhile(w.code, pc, Runtime(w.prog, m, "0bra"), Runtime(w.prog, m, "bra"), n, x,
               Lines(w.prog, w.num, m, c.cond, n + 1), Lines(w.prog, w.num, m, c.body, x + 1));
  }

  lemma ForShape(w: World, m: nat, c: Code, n: nat, pc: nat)
    requires m <= |w.prog| && Closed(w.prog, w.num, m, c) && c.For? && At(w.code, pc, Lines(w.prog, w.num, m, c, n))
    ensures Closed(w.prog, w.num, m, c.body)
    ensures HasRuntime(w.prog, m, "push", Push) && HasRuntime(w.prog, m, "dofor", DoFor)
    ensures HasRuntime(w.prog, m, "bra", Bra)
    ensures var lb := Lines(w.prog, w.num, m, c.body, n + 2); var p := pc + 4 + |lb|;
      && pc + |Lines(w.prog, w.num, m, c, n)| == p + 3 && p + 2 < |w.code|
      && w.code[pc] == Jsr(Runtime(w.prog, m, "push")) && w.code[pc + 1] == Label(n)
      && w.code[pc + 2] == Jsr(Runtime(w.prog, m, "dofor")) && w.code[pc + 3] == Addr(n + 1) && At(w.code, pc + 4, lb)
      && w.code[p] == Jsr(Runtime(w.prog, m, "bra")) && w.code[p + 1] == Addr(n) && w.code[p + 2] == Label(n + 1)
  {
    hide At, Lines, Closed, Labels, Newest, Runtime;
    ForParts(w.prog, w.num, m, c, n);
    var head := [Jsr(Runtime(w.prog, m, "push")), Label(n), Jsr(Runtime(w.prog, m, "dofor")), Addr(n + 1)];
    var lb, tail := Lines(w.prog, w.num, m, c.body, n + 2), [Jsr(Runtime(w.prog, m, "bra")), Addr(n), Label(n + 1)];
    AtSplit(w.code, pc, head + lb, tail);
    AtSplit(w.code, pc, head, lb);
    AtLine(w.code, pc, head, 0); AtLine(w.code, pc, head, 1); AtLine(w.code, pc, head, 2); AtLine(w.code, pc, head, 3);
    var p := pc + 4 + |lb|;
    AtLine(w.code, p, tail, 0); AtLine(w.code, p, tail, 1); AtLine(w.code, p, tail, 2);
  }

  // ----- simulation -----

  /**
   Running from `s` goes the way of `r`: on to pc', back to the caller, out of fuel; nothing is said when r is Broken.
   */
  ghost predicate Follows(w: World, s: State, fuel: nat, r: Result, pc': nat, rest: Stack) {
    match r
    case Done(ds, loc, f) => Run(w.code, w.prims, s, fuel) == Run(w.code, w.prims, State(pc', ds, loc + rest), f)
    case Left(ds, f) => rest != []
      && Run(w.code, w.prims, s, fuel) == Run(w.code, w.prims, State(rest[0], ds, rest[1..]), f)
    case Out => Run(w.code, w.prims, s, fuel) == Timeout
    case Broken => true
  }

  lemma TickLabel(w: World, s: State, fuel: nat, r: Result, pc: nat, rest: Stack)
    requires pc < |w.code| && w.code[pc].Label? && Follows(w, s, fuel, r, pc, rest)
    ensures Follows(w, s, fuel, Tick(r), pc + 1, rest)
  {
    hide Run;
    if r.Done? { RunLabel(w, pc, r.ds, r.loc + rest, r.fuel); }
  }

  /** A run that has taken some steps and then goes the way of r. */
  lemma FollowsFrom(w: World, s: State, fuel: nat, s': State, fuel': nat, r: Result, pc': nat, rest: Stack)
    requires Run(w.code, w.prims, s, fuel) == Run(w.code, w.prims, s', fuel') && Follows(w, s', fuel', r, pc', rest)
    ensures Follows(w, s, fuel, r, pc', rest)
  {
    hide Run;
  }

  /** The branch back at the end of a loop. */
  lemma BackBranch(w: World, m: nat, s: State, fuel: nat, r: Result, pc: nat, t: nat, rest: Stack)
    requires Loaded(w) && m <= |w.prog| && HasRuntime(w.prog, m, "bra", Bra) && r.Done?
    requires Follows(w, s, fuel, r, pc, rest)
    requires pc + 1 < |w.code| && t < |w.code| && w.code[pc] == Jsr(Runtime(w.prog, m, "bra"))
    requires w.code[t].Label? && w.code[pc + 1] == Addr(w.code[t].l)
    ensures Run(w.code, w.prims, s, fuel) ==
      if r.fuel < 3 then Timeout else Run(w.code, w.prims, State(t, r.ds, r.loc + rest), r.fuel - 3)
  {
    hide Loaded, Run, HasRuntime, Runtime, Newest;
    RunBra(w, m, pc, t, r.ds, r.loc + rest, r.fuel);
  }

  lemma PrimitiveFollows(w: World, j: nat, ra: nat, ds: Stack, loc: Stack, rest: Stack, fuel: nat)
    requires Loaded(w) && j < |w.prog| && w.prog[j].Primitive? && ra <= |w.code| && rest != []
    ensures Follows(w, State(Start(w, j), ds, [Ret(ra)] + (loc + rest)), fuel,
      Primitively(w.prims, w.prog[j].op, ds, loc, fuel), ra, rest)
  {
    hide Loaded, Run, Start, Target;
    RetIs(w, ra);
    var rs: Stack := [Ret(ra)] + (loc + rest);
    assert rs[1..] == loc + rest;
    RunPrimitive(w, j, ds, rs, fuel);
    if fuel >= 2 {
      match w.prog[j].op {
        case Push => if ds != [] { assert [ds[0]] + (loc + rest) == [ds[0]] + loc + rest; }
        case Pull => if loc != [] { assert (loc + rest)[1..] == loc[1..] + rest; }
        case Exit => if loc == [] { assert loc + rest == rest; }
        case _ =>
      }
    }
  }

  lemma CallFollows(w: World, j: nat, ra: nat, ds: Stack, loc: Stack, rest: Stack, fuel: nat)
    requires Loaded(w) && j < |w.prog| && ra <= |w.code| && rest != []
    ensures Follows(w, State(Start(w, j), ds, [Ret(ra)] + (loc + rest)), fuel,
      Call(w.prog, w.num, w.prims, j, ds, loc, fuel), ra, rest)
    decreases fuel
  {
    hide Loaded, Run, Start, Lines, Closed, At, Primitively, Eval, LabelOf;
    match w.prog[j]
    case Primitive(_, op) => PrimitiveFollows(w, j, ra, ds, loc, rest, fuel);
    case Colon(_, body) =>
      EntryLabel(w, j);
      RunLabel(w, Start(w, j), ds, [Ret(ra)] + (loc + rest), fuel);
      if fuel > 0 { ColonFollows(w, j, body, ra, ds, loc, rest, fuel - 1); }
  }

  lemma ColonFollows(w: World, j: nat, body: Code, ra: nat, ds: Stack, loc: Stack, rest: Stack, fuel: nat)
    requires Loaded(w) && j < |w.prog| && ra <= |w.code| && rest != [] && w.prog[j].Colon? && w.prog[j].body == body
    ensures Follows(w, State(Start(w, j) + 1, ds, [Ret(ra)] + (loc + rest)), fuel,
                    (match Eval(w.prog, w.num, w.prims, j + 1, body, ds, [], fuel)
                     case Done(ds', loc', f) => if loc' != [] then Broken else Tick(Done(ds', loc, f))
                     case Left(ds', f) => Done(ds', loc, f)
                     case r => r), ra, rest)
    decreases fuel, body, 3
  {
    hide Loaded, Run, Start, Lines, Closed, At, Eval, LabelOf, Ret;
    RetIs(w, ra);
    var rs: Stack := [Ret(ra)] + (loc + rest);
    assert rs[1..] == loc + rest && rs[0] == ra && [] + rs == rs;
    EntryLabel(w, j);
    var n := LabelOf(w.prog, j) + 1;
    var ls := Lines(w.prog, w.num, j + 1, body, n);
    BodyFollows(w, j + 1, body, n, Start(w, j) + 1, ds, [], rs, fuel);
    var r := Eval(w.prog, w.num, w.prims, j + 1, body, ds, [], fuel);
    if r.Done? && r.loc == [] {
      assert r.loc + rs == rs;
      RunRts(w, Start(w, j) + 1 + |ls|, r.ds, rs, r.fuel);
    }
  }

  lemma BodyFollows(w: World, m: nat, c: Code, n: nat, pc: nat, ds: Stack, loc: Stack, rest: Stack, fuel: nat)
    requires Loaded(w) && m <= |w.prog| && Closed(w.prog, w.num, m, c) && rest != []
    requires At(w.code, pc, Lines(w.prog, w.num, m, c, n))
    ensures Follows(w, State(pc, ds, loc + rest), fuel, Eval(w.prog, w.num, w.prims, m, c, ds, loc, fuel),
                    pc + |Lines(w.prog, w.num, m, c, n)|, rest)
    decreases fuel, c, 2
  {
    hide Loaded, Run, Start, Newest, At, Runtime, HasRuntime, Follows;
    match c
    case Skip => SkipFollows(w, m, n, pc, ds, loc, rest, fuel);
    case Plain(_) => PlainFollows(w, m, c, n, pc, ds, loc, rest, fuel);
    case Seq(_, _) => SeqFollows(w, m, c, n, pc, ds, loc, rest, fuel);
    case If(_) => IfFollows(w, m, c, n, pc, ds, loc, rest, fuel);
    case IfElse(_, _) => IfElseFollows(w, m, c, n, pc, ds, loc, rest, fuel);
    case Again(_) => AgainFollows(w, m, c, n, pc, ds, loc, rest, fuel);
    case Until(_) => UntilFollows(w, m, c, n, pc, ds, loc, rest, fuel);
    case While(_, _) => WhileFollows(w, m, c, n, pc, ds, loc, rest, fuel);
    case For(_) => ForFollows(w, m, c, n, pc, ds, loc, rest, fuel);
  }

  lemma SkipFollows(w: World, m: nat, n: nat, pc: nat, ds: Stack, loc: Stack, rest: Stack, fuel: nat)
    requires m <= |w.prog|
    ensures Follows(w, State(pc, ds, loc + rest), fuel, Eval(w.prog, w.num, w.prims, m, Skip, ds, loc, fuel),
                    pc + |Lines(w.prog, w.num, m, Skip, n)|, rest)
  {
    hide Run;
  }

  lemma PlainFollows(w: World, m: nat, c: Code, n: nat, pc: nat, ds: Stack, loc: Stack, rest: Stack, fuel: nat)
    requires Loaded(w) && m <= |w.prog| && Closed(w.prog, w.num, m, c) && rest != [] && c.Plain?
    requires At(w.code, pc, Lines(w.prog, w.num, m, c, n))
    ensures Follows(w, State(pc, ds, loc + rest), fuel, Eval(w.prog, w.num, w.prims, m, c, ds, loc, fuel),
                    pc + |Lines(w.prog, w.num, m, c, n)|, rest)
    decreases fuel, c, 1
  {
    hide Loaded, Run, Start, Newest, Labels, At, Runtime, HasRuntime, Call;
    var ls := Lines(w.prog, w.num, m, c, n);
    AtLine(w.code, pc, ls, 0);
    match Newest(w.prog, m, c.word)
    case Some(j) =>
      DefinitionCall(w, m, j, c.word, pc, ds, loc + rest, fuel);
      if fuel > 0 { CallFollows(w, j, pc + 1, ds, loc, rest, fuel - 1); }
    case None =>
      AtLine(w.code, pc, ls, 1);
      RunLit(w, m, pc, w.num(c.word).value, ds, loc + rest, fuel);
  }

  lemma DefinitionCall(w: World, m: nat, j: nat, word: string, pc: nat, ds: Stack, rs: Stack, fuel: nat)
    requires Loaded(w) && m <= |w.prog| && Newest(w.prog, m, word) == Some(j)
    requires pc < |w.code| && w.code[pc] == Jsr(Runtime(w.prog, m, word))
    ensures pc + 1 <= |w.code| && Run(w.code, w.prims, State(pc, ds, rs), fuel) ==
      if fuel == 0 then Timeout else Run(w.code, w.prims, State(Start(w, j), ds, [Ret(pc + 1)] + rs), fuel - 1)
  {
    hide Loaded, Run, Start, Newest, Lines, Closed, Target, Ret;
    EntryLabel(w, j);
    RunJsrTo(w, LabelOf(w.prog, j), Start(w, j), pc, ds, rs, fuel);
  }

  lemma SeqFollows(w: World, m: nat, c: Code, n: nat, pc: nat, ds: Stack, loc: Stack, rest: Stack, fuel: nat)
    requires Loaded(w) && m <= |w.prog| && Closed(w.prog, w.num, m, c) && rest != [] && c.Seq?
    requires At(w.code, pc, Lines(w.prog, w.num, m, c, n))
    ensures Follows(w, State(pc, ds, loc + rest), fuel, Eval(w.prog, w.num, w.prims, m, c, ds, loc, fuel),
                    pc + |Lines(w.prog, w.num, m, c, n)|, rest)
    decreases fuel, c, 1
  {
    hide Loaded, Run, Start, Newest, Lines, Closed, Labels, At, Runtime, HasRuntime;
    SeqParts(w.prog, w.num, m, c, n);
    var la, lb := Lines(w.prog, w.num, m, c.first, n), Lines(w.prog, w.num, m, c.second, n + Labels(c.first));
    AtSplit(w.code, pc, la, lb);
    BodyFollows(w, m, c.first, n, pc, ds, loc, rest, fuel);
    var r := Eval(w.prog, w.num, w.prims, m, c.first, ds, loc, fuel);
    if r.Done? { BodyFollows(w, m, c.second, n + Labels(c.first), pc + |la|, r.ds, r.loc, rest, r.fuel); }
  }

  lemma IfFollows(w: World, m: nat, c: Code, n: nat, pc: nat, ds: Stack, loc: Stack, rest: Stack, fuel: nat)
    requires Loaded(w) && m <= |w.prog| && Closed(w.prog, w.num, m, c) && rest != [] && c.If?
    requires At(w.code, pc, Lines(w.prog, w.num, m, c, n))
    ensures Follows(w, State(pc, ds, loc + rest), fuel, Eval(w.prog, w.num, w.prims, m, c, ds, loc, fuel),
                    pc + |Lines(w.prog, w.num, m, c, n)|, rest)
    decreases fuel, c, 1
  {
    hide Loaded, Run, Start, Newest, Lines, Closed, Labels, At, Runtime, HasRuntime;
    IfShape(w, m, c, n, pc);
    var t := pc + 2 + |Lines(w.prog, w.num, m, c.thn, n + 1)|;
    RunZbra(w, m, pc, t, ds, loc + rest, fuel);
    if fuel >= 3 && ds != [] {
      if ds[0] == 0 {
        RunLabel(w, t, ds[1..], loc + rest, fuel - 3);
      } else {
        var r := Eval(w.prog, w.num, w.prims, m, c.thn, ds[1..], loc, fuel - 3);
        BodyFollows(w, m, c.thn, n + 1, pc + 2, ds[1..], loc, rest, fuel - 3);
        TickLabel(w, State(pc + 2, ds[1..], loc + rest), fuel - 3, r, t, rest);
        FollowsFrom(w, State(pc, ds, loc + rest), fuel, State(pc + 2, ds[1..], loc + rest), fuel - 3, Tick(r), t + 1,
          rest);
      }
    }
  }

  lemma IfElseFollows(w: World, m: nat, c: Code, n: nat, pc: nat, ds: Stack, loc: Stack, rest: Stack, fuel: nat)
    requires Loaded(w) && m <= |w.prog| && Closed(w.prog, w.num, m, c) && rest != [] && c.IfElse?
    requires At(w.code, pc, Lines(w.prog, w.num, m, c, n))
    ensures Follows(w, State(pc, ds, loc + rest), fuel, Eval(w.prog, w.num, w.prims, m, c, ds, loc, fuel),
                    pc + |Lines(w.prog, w.num, m, c, n)|, rest)
    decreases fuel, c, 1
  {
    hide Loaded, Run, Start, Newest, Lines, Closed, Labels, At, Runtime, HasRuntime;
    IfElseShape(w, m, c, n, pc);
    var x := n + 1 + Labels(c.thn);
    var lt, le := Lines(w.prog, w.num, m, c.thn, n + 1), Lines(w.prog, w.num, m, c.els, x + 1);
    var p := pc + 2 + |lt|;
    var q := p + 3 + |le|;
    RunZbra(w, m, pc, p + 2, ds, loc + rest, fuel);
    if fuel >= 3 && ds != [] {
      if ds[0] == 0 {
        ElseFollows(w, m, c.els, x + 1, p + 2, ds[1..], loc, rest, fuel - 3);
      } else {
        var r := Eval(w.prog, w.num, w.prims, m, c.thn, ds[1..], loc, fuel - 3);
        BodyFollows(w, m, c.thn, n + 1, pc + 2, ds[1..], loc, rest, fuel - 3);
        if r.Done? {
          BackBranch(w, m, State(pc + 2, ds[1..], loc + rest), fuel - 3, r, p, q, rest);
          if r.fuel >= 3 { RunLabel(w, q, r.ds, r.loc + rest, r.fuel - 3); }
        }
      }
    }
  }

  /** A label, a body and another label: the else part. */
  lemma ElseFollows(w: World, m: nat, e: Code, n: nat, pc: nat, ds: Stack, loc: Stack, rest: Stack, fuel: nat)
    requires Loaded(w) && m <= |w.prog| && Closed(w.prog, w.num, m, e) && rest != []
    requires pc < |w.code| && w.code[pc].Label? && At(w.code, pc + 1, Lines(w.prog, w.num, m, e, n))
    requires var q := pc + 1 + |Lines(w.prog, w.num, m, e, n)|; q < |w.code| && w.code[q].Label?
    ensures Follows(w, State(pc, ds, loc + rest), fuel,
                    if fuel == 0 then Out else Tick(Eval(w.prog, w.num, w.prims, m, e, ds, loc, fuel - 1)),
                    pc + 2 + |Lines(w.prog, w.num, m, e, n)|, rest)
    decreases fuel
  {
    hide Loaded, Run, Start, Newest, Lines, Closed, Labels, At, Runtime, HasRuntime, Eval;
    RunLabel(w, pc, ds, loc + rest, fuel);
    if fuel > 0 {
      var r, q := Eval(w.prog, w.num, w.prims, m, e, ds, loc, fuel - 1), pc + 1 + |Lines(w.prog, w.num, m, e, n)|;
      BodyFollows(w, m, e, n, pc + 1, ds, loc, rest, fuel - 1);
      TickLabel(w, State(pc + 1, ds, loc + rest), fuel - 1, r, q, rest);
      FollowsFrom(w, State(pc, ds, loc + rest), fuel, State(pc + 1, ds, loc + rest), fuel - 1, Tick(r), q + 1, rest);
    }
  }

  lemma AgainFollows(w: World, m: nat, c: Code, n: nat, pc: nat, ds: Stack, loc: Stack, rest: Stack, fuel: nat)
    requires Loaded(w) && m <= |w.prog| && Closed(w.prog, w.num, m, c) && rest != [] && c.Again?
    requires At(w.code, pc, Lines(w.prog, w.num, m, c, n))
    ensures Follows(w, State(pc, ds, loc + rest), fuel, Eval(w.prog, w.num, w.prims, m, c, ds, loc, fuel),
                    pc + |Lines(w.prog, w.num, m, c, n)|, rest)
    decreases fuel, c, 1
  {
    hide Loaded, Run, Start, Newest, Lines, Closed, Labels, At, Runtime, HasRuntime, Eval;
    LoopShape(w, m, c, n, pc);
    var p := pc + 1 + |Lines(w.prog, w.num, m, c.body, n + 1)|;
    RunLabel(w, pc, ds, loc + rest, fuel);
    if fuel > 0 {
      AgainRound(w.prog, w.num, w.prims, m, c, ds, loc, fuel);
      BodyFollows(w, m, c.body, n + 1, pc + 1, ds, loc, rest, fuel - 1);
      var r := Eval(w.prog, w.num, w.prims, m, c.body, ds, loc, fuel - 1);
      if r.Done? {
        BackBranch(w, m, State(pc + 1, ds, loc + rest), fuel - 1, r, p, pc, rest);
        if r.fuel >= 3 { AgainFollows(w, m, c, n, pc, r.ds, r.loc, rest, r.fuel - 3); }
      }
    }
    SomeFuel(w.prog, w.num, w.prims, m, c, ds, loc, fuel);
  }

  lemma UntilFollows(w: World, m: nat, c: Code, n: nat, pc: nat, ds: Stack, loc: Stack, rest: Stack, fuel: nat)
    requires Loaded(w) && m <= |w.prog| && Closed(w.prog, w.num, m, c) && rest != [] && c.Until?
    requires At(w.code, pc, Lines(w.prog, w.num, m, c, n))
    ensures Follows(w, State(pc, ds, loc + rest), fuel, Eval(w.prog, w.num, w.prims, m, c, ds, loc, fuel),
                    pc + |Lines(w.prog, w.num, m, c, n)|, rest)
    decreases fuel, c, 1
  {
    hide Loaded, Run, Start, Newest, Lines, Closed, Labels, At, Runtime, HasRuntime, Eval;
    LoopShape(w, m, c, n, pc);
    var p := pc + 1 + |Lines(w.prog, w.num, m, c.body, n + 1)|;
    RunLabel(w, pc, ds, loc + rest, fuel);
    if fuel > 0 {
      UntilRound(w.prog, w.num, w.prims, m, c, ds, loc, fuel);
      BodyFollows(w, m, c.body, n + 1, pc + 1, ds, loc, rest, fuel - 1);
      var r := Eval(w.prog, w.num, w.prims, m, c.body, ds, loc, fuel - 1);
      if r.Done? {
        RunZbra(w, m, p, pc, r.ds, r.loc + rest, r.fuel);
        if r.fuel >= 3 && r.ds != [] && r.ds[0] == 0 {
          UntilFollows(w, m, c, n, pc, r.ds[1..], r.loc, rest, r.fuel - 3);
        }
      }
    }
    SomeFuel(w.prog, w.num, w.prims, m, c, ds, loc, fuel);
  }

  lemma WhileFollows(w: World, m: nat, c: Code, n: nat, pc: nat, ds: Stack, loc: Stack, rest: Stack, fuel: nat)
    requires Loaded(w) && m <= |w.prog| && Closed(w.prog, w.num, m, c) && rest != [] && c.While?
    requires At(w.code, pc, Lines(w.prog, w.num, m, c, n))
    ensures Follows(w, State(pc, ds, loc + rest), fuel, Eval(w.prog, w.num, w.prims, m, c, ds, loc, fuel),
                    pc + |Lines(w.prog, w.num, m, c, n)|, rest)
    decreases fuel, c, 1
  {
    hide Loaded, Run, Start, Newest, Lines, Closed, Labels, At, Runtime, HasRuntime, Eval;
    WhileShape(w, m, c, n, pc);
    var x := n + 1 + Labels(c.cond);
    var p := pc + 1 + |Lines(w.prog, w.num, m, c.cond, n + 1)|;
    var q := p + 2 + |Lines(w.prog, w.num, m, c.body, x + 1)|;
    RunLabel(w, pc, ds, loc + rest, fuel);
    if fuel > 0 {
      WhileRound(w.prog, w.num, w.prims, m, c, ds, loc, fuel);
      BodyFollows(w, m, c.cond, n + 1, pc + 1, ds, loc, rest, fuel - 1);
      var r := Eval(w.prog, w.num, w.prims, m, c.cond, ds, loc, fuel - 1);
      if r.Done? {
        RunZbra(w, m, p, q + 2, r.ds, r.loc + rest, r.fuel);
        if r.fuel >= 3 && r.ds != [] {
          if r.ds[0] == 0 {
            RunLabel(w, q + 2, r.ds[1..], r.loc + rest, r.fuel - 3);
          } else {
            WhileBodyFollows(w, m, c, n, pc, r.ds[1..], r.loc, rest, r.fuel - 3);
          }
        }
      }
    }
    SomeFuel(w.prog, w.num, w.prims, m, c, ds, loc, fuel);
  }

  /** The body of a while-loop and everything after it. */
  lemma WhileBodyFollows(w: World, m: nat, c: Code, n: nat, pc: nat, ds: Stack, loc: Stack, rest: Stack, fuel: nat)
    requires Loaded(w) && m <= |w.prog| && Closed(w.prog, w.num, m, c) && rest != [] && c.While?
    requires At(w.code, pc, Lines(w.prog, w.num, m, c, n)) && Closed(w.prog, w.num, m, c.cond)
    ensures Follows(w, State(pc + 3 + |Lines(w.prog, w.num, m, c.cond, n + 1)|, ds, loc + rest), fuel,
                    (var r := Eval(w.prog, w.num, w.prims, m, c.body, ds, loc, fuel);
                     if !r.Done? then r else if r.fuel < 3 then Out
                       else Eval(w.prog, w.num, w.prims, m, c, r.ds, r.loc, r.fuel - 3)),
                    pc + |Lines(w.prog, w.num, m, c, n)|, rest)
    decreases fuel, c, 1
  {
    hide Loaded, Run, Start, Newest, Lines, Closed, Labels, At, Runtime, HasRuntime, Eval;
    WhileShape(w, m, c, n, pc);
    var x := n + 1 + Labels(c.cond);
    var p := pc + 3 + |Lines(w.prog, w.num, m, c.cond, n + 1)|;
    var q := p + |Lines(w.prog, w.num, m, c.body, x + 1)|;
    BodyFollows(w, m, c.body, x + 1, p, ds, loc, rest, fuel);
    var r := Eval(w.prog, w.num, w.prims, m, c.body, ds, loc, fuel);
    if r.Done? {
      BackBranch(w, m, State(p, ds, loc + rest), fuel, r, q, pc, rest);
      if r.fuel >= 3 { WhileFollows(w, m, c, n, pc, r.ds, r.loc, rest, r.fuel - 3); }
    }
  }

  lemma ForFollows(w: World, m: nat, c: Code, n: nat, pc: nat, ds: Stack, loc: Stack, rest: Stack, fuel: nat)
    requires Loaded(w) && m <= |w.prog| && Closed(w.prog, w.num, m, c) && rest != [] && c.For?
    requires At(w.code, pc, Lines(w.prog, w.num, m, c, n))
    ensures Follows(w, State(pc, ds, loc + rest), fuel, Eval(w.prog, w.num, w.prims, m, c, ds, loc, fuel),
                    pc + |Lines(w.prog, w.num, m, c, n)|, rest)
    decreases fuel, c, 1
  {
    hide Loaded, Run, Start, Newest, Lines, Closed, Labels, At, Runtime, HasRuntime, Rounds;
    ForShape(w, m, c, n, pc);
    RunPush(w, m, pc, ds, loc + rest, fuel);
    if fuel >= 3 && ds != [] {
      assert [ds[0]] + (loc + rest) == [ds[0]] + loc + rest;
      RoundsFollow(w, m, c, n, pc, ds[1..], [ds[0]] + loc, rest, fuel - 3);
    }
  }

  /** The rounds of a for-loop, from the label before its test. */
  lemma RoundsFollow(w: World, m: nat, c: Code, n: nat, pc: nat, ds: Stack, loc: Stack, rest: Stack, fuel: nat)
    requires Loaded(w) && m <= |w.prog| && Closed(w.prog, w.num, m, c) && rest != [] && c.For?
    requires At(w.code, pc, Lines(w.prog, w.num, m, c, n))
    ensures Follows(w, State(pc + 1, ds, loc + rest), fuel, Rounds(w.prog, w.num, w.prims, m, c.body, ds, loc, fuel),
                    pc + |Lines(w.prog, w.num, m, c, n)|, rest)
    decreases fuel, c, 1
  {
    hide Loaded, Run, Start, Newest, Lines, Closed, Labels, At, Runtime, HasRuntime, Eval;
    ForShape(w, m, c, n, pc);
    var p := pc + 4 + |Lines(w.prog, w.num, m, c.body, n + 2)|;
    RunLabel(w, pc + 1, ds, loc + rest, fuel);
    if fuel > 0 && loc != [] {
      assert (loc + rest)[1..] == loc[1..] + rest && (loc + rest)[0] == loc[0];
      RunDoFor(w, m, pc + 2, p + 2, ds, loc + rest, fuel - 1);
      if fuel >= 4 {
        if loc[0] == 0 {
          RunLabel(w, p + 2, ds, loc[1..] + rest, fuel - 4);
        } else {
          var loc' := [loc[0] - 1] + loc[1..];
          assert [loc[0] - 1] + (loc[1..] + rest) == loc' + rest;
          RoundBodyFollows(w, m, c, n, pc, ds, loc', rest, fuel - 4);
        }
      }
    } else if fuel > 0 {
      OutAtDoFor(w, m, pc + 2, ds, loc + rest, fuel - 1);
    }
  }

  lemma OutAtDoFor(w: World, m: nat, pc: nat, ds: Stack, rs: Stack, fuel: nat)
    requires Loaded(w) && m <= |w.prog| && HasRuntime(w.prog, m, "dofor", DoFor)
    requires pc < |w.code| && w.code[pc] == Jsr(Runtime(w.prog, m, "dofor"))
    ensures fuel < 3 ==> Run(w.code, w.prims, State(pc, ds, rs), fuel) == Timeout
  {
    hide Loaded, Run, HasRuntime, Runtime, Newest;
    RunRuntime(w, m, "dofor", DoFor, pc, ds, rs, fuel);
  }

  lemma RoundBodyFollows(w: World, m: nat, c: Code, n: nat, pc: nat, ds: Stack, loc: Stack, rest: Stack, fuel: nat)
    requires Loaded(w) && m <= |w.prog| && Closed(w.prog, w.num, m, c) && rest != [] && c.For?
    requires At(w.code, pc, Lines(w.prog, w.num, m, c, n))
    ensures Follows(w, State(pc + 4, ds, loc + rest), fuel,
                    (var r := Eval(w.prog, w.num, w.prims, m, c.body, ds, loc, fuel);
                     if !r.Done? then r else if r.fuel < 3 then Out
                       else Rounds(w.prog, w.num, w.prims, m, c.body, r.ds, r.loc, r.fuel - 3)),
                    pc + |Lines(w.prog, w.num, m, c, n)|, rest)
    decreases fuel, c, 1
  {
    hide Loaded, Run, Start, Newest, Lines, Closed, Labels, At, Runtime, HasRuntime, Eval, Rounds;
    ForShape(w, m, c, n, pc);
    var p := pc + 4 + |Lines(w.prog, w.num, m, c.body, n + 2)|;
    BodyFollows(w, m, c.body, n + 2, pc + 4, ds, loc, rest, fuel);
    var r := Eval(w.prog, w.num, w.prims, m, c.body, ds, loc, fuel);
    if r.Done? {
      BackBranch(w, m, State(pc + 4, ds, loc + rest), fuel, r, p, pc + 1, rest);
      if r.fuel >= 3 { RoundsFollow(w, m, c, n, pc, r.ds, r.loc, rest, r.fuel - 3); }
    }
  }
}
