/** Whole programs: what bfc writes for them runs as the structured source says. */
module BfcProgram {
  import opened Bytes
  import opened BfcLang
  import opened BfcMachine
  import opened BfcCorrect
  import BfcCompile

  lemma {:induction false} CountTwice(ls: seq<Line>, i: nat, j: nat, l: nat)
    requires i < j < |ls| && ls[i] == Label(l) && ls[j] == Label(l)
    ensures Count(ls, l) >= 2
  {
    var a, b := ls[..j], ls[j..];
    assert ls == a + b;
    CountSum(a, b, l);
    CountOnce(a, i, l);
    CountOnce(b, 0, l);
  }

  lemma {:induction false} CountOnce(ls: seq<Line>, i: nat, l: nat)
    requires i < |ls| && ls[i] == Label(l)
    ensures Count(ls, l) >= 1
    decreases |ls|
  {
    if i > 0 { CountOnce(ls[1..], i - 1, l); }
  }

  /** In a compiled program no label is defined twice. */
  lemma LabelsUnique(prog: seq<Def>, num: Numbers)
    requires AllClosed(prog, num)
    ensures UniqueLabels(ProgLines(prog, num, |prog|))
  {
    var code := ProgLines(prog, num, |prog|);
    forall i, j | 0 <= i < j < |code| && code[i].Label? && code[j].Label? ensures code[i] != code[j] {
      ProgLabels(prog, num, |prog|, code[i].l);
      if code[i] == code[j] { CountTwice(code, i, j, code[i].l); }
    }
  }

  lemma {:induction false} CountFinds(ls: seq<Line>, l: nat)
    requires Count(ls, l) >= 1
    ensures Label(l) in ls
    decreases |ls|
  {
    if ls[0] != Label(l) { CountFinds(ls[1..], l); }
  }

  /** What makes a code closed under its labels: none is defined twice, and every call and branch has its target. */
  ghost predicate LabelsClosed(code: seq<Line>) {
    && UniqueLabels(code)
    && forall i :: 0 <= i < |code| && (code[i].Jsr? || code[i].Addr?) ==>
      Count(code, code[i].l) == 1 && Target(code, code[i].l).Some?
  }

  lemma LinesLabelsClosed(prog: seq<Def>, num: Numbers)
    requires AllClosed(prog, num)
    ensures LabelsClosed(ProgLines(prog, num, |prog|))
  {
    hide ProgLines, LabelOf, UniqueLabels, Target;
    LabelsUnique(prog, num);
    ProgOperands(prog, num, |prog|);
    var code := ProgLines(prog, num, |prog|);
    forall i | 0 <= i < |code| && (code[i].Jsr? || code[i].Addr?)
      ensures Count(code, code[i].l) == 1 && Target(code, code[i].l).Some?
    {
      assert OperandIn(code[i], LabelOf(prog, |prog|), 0, LabelOf(prog, |prog|));
      ProgLabels(prog, num, |prog|, code[i].l);
      CountFinds(code, code[i].l);
      var j :| 0 <= j < |code| && code[j] == Label(code[i].l);
      TargetIs(code, j);
    }
  }

  /**
   Label closure of what bfc writes. In the output for a closed program no label is defined twice; every call and
   every branch, whether it is ever run or not, names a label that is defined exactly once; so does every dictionary
   entry; and the control stack is empty again.
   */
  lemma LabelClosure(prog: seq<Def>, num: Numbers)
    requires ProgClosed(prog, num)
    ensures var r := BfcCompile.Compile(BfcCompile.START, num, ProgWords(prog));
      && r.Some? && r.value.cstack == [] && LabelsClosed(r.value.out)
      && |r.value.dict| == |prog|
      && forall k :: 0 <= k < |prog| ==>
        r.value.dict[k].name == prog[k].name && Count(r.value.out, r.value.dict[k].ref) == 1
  {
    hide BfcCompile.Compile, LabelsClosed, ProgLines, Lines, Closed, LabelOf;
    BfcCompile.ProgCompiles(prog, num);
    LinesLabelsClosed(prog, num);
    forall k | 0 <= k < |prog|
      ensures Count(ProgLines(prog, num, |prog|), LabelOf(prog, k)) == 1
      ensures BfcCompile.DictOf(prog, |prog|)[k] == BfcCompile.Entry(prog[k].name, LabelOf(prog, k))
    {
      BfcCompile.DictOfAt(prog, |prog|, k);
      LabelOfMonotone(prog, k, |prog|);
      ProgLabels(prog, num, |prog|, LabelOf(prog, k));
    }
  }

  lemma {:induction false} DefStands(prog: seq<Def>, num: Numbers, k: nat, m: nat)
    requires AllClosed(prog, num) && k < m <= |prog|
    ensures At(ProgLines(prog, num, m), |ProgLines(prog, num, k)|, DefLines(prog, num, k))
    decreases m
  {
    hide DefLines;
    var code := ProgLines(prog, num, m);
    var before := ProgLines(prog, num, m - 1);
    if k < m - 1 {
      DefStands(prog, num, k, m - 1);
      var p, q := |ProgLines(prog, num, k)|, |ProgLines(prog, num, k)| + |DefLines(prog, num, k)|;
      assert code[p..q] == before[p..q];
    }
  }

  ghost function WorldOf(prog: seq<Def>, num: Numbers, prims: Prims): World
    requires AllClosed(prog, num)
  {
    World(prog, num, prims, ProgLines(prog, num, |prog|))
  }

  lemma ProgLoaded(prog: seq<Def>, num: Numbers, prims: Prims)
    requires AllClosed(prog, num) && |ProgLines(prog, num, |prog|)| < 0x10000
    ensures Loaded(WorldOf(prog, num, prims))
  {
    hide DefLines, ProgLines, UniqueLabels;
    LabelsUnique(prog, num);
    var w := WorldOf(prog, num, prims);
    forall k | 0 <= k < |prog| ensures At(w.code, BfcCorrect.Start(w, k), DefLines(prog, num, k)) {
      DefStands(prog, num, k, |prog|);
    }
  }

  /**
   The compiler is correct. For every closed program that fits into memory, bfc writes a code in which calling any
   definition, on any data stack and above any return stack, runs in step with the structured meaning of that
   definition: it halts with the same data stack and the return stack as it was, and it runs for ever exactly as long.
   */
  lemma CompilerCorrect(prog: seq<Def>, num: Numbers, prims: Prims, k: nat, ds: Stack, rest: Stack, fuel: nat)
    requires ProgClosed(prog, num) && k < |prog| && |ProgLines(prog, num, |prog|)| < 0x10000 && rest != []
    ensures BfcCompile.Compile(BfcCompile.START, num, ProgWords(prog)).Some?
    ensures var code := BfcCompile.Compile(BfcCompile.START, num, ProgWords(prog)).value.out;
      var entry := |ProgLines(prog, num, k)|;
      var end := Run(code, prims, State(entry, ds, [Ret(|code|)] + rest), fuel);
      match Call(prog, num, prims, k, ds, [], fuel)
      case Done(ds', loc', _) => end == Halted(ds', loc' + rest)
      case Left(_, _) => prog[k] == Primitive(prog[k].name, Exit)
      case Out => end == Timeout
      case Broken => true
    ensures prog[k].Colon? && Call(prog, num, prims, k, ds, [], fuel).Done? ==>
      Call(prog, num, prims, k, ds, [], fuel).loc == []
  {
    hide Run, Eval, BfcCompile.Compile, ProgLines, Loaded;
    BfcCompile.ProgCompiles(prog, num);
    ProgLoaded(prog, num, prims);
    var w := WorldOf(prog, num, prims);
    assert [] + rest == rest;
    CallFollows(w, k, |w.code|, ds, [], rest, fuel);
    var r := Call(prog, num, prims, k, ds, [], fuel);
    if r.Done? { HaltHere(w, r.ds, r.loc + rest, r.fuel); }
  }

  lemma HaltHere(w: World, ds: Stack, rs: Stack, fuel: nat)
    ensures Run(w.code, w.prims, State(|w.code|, ds, rs), fuel) == Halted(ds, rs)
  {
  }

  // ----- for-loops -----

  /** r with x more fuel left over. */
  function More(r: Result, x: nat): Result {
    match r
    case Done(ds, loc, f) => Done(ds, loc, f + x)
    case Left(ds, f) => Left(ds, f + x)
    case _ => r
  }

  /** Fuel that is left over does not matter. */
  lemma EvalMore(prog: seq<Def>, num: Numbers, prims: Prims, m: nat, c: Code, ds: Stack, loc: Stack, fuel: nat, x: nat)
    requires m <= |prog| && !Eval(prog, num, prims, m, c, ds, loc, fuel).Out?
    ensures Eval(prog, num, prims, m, c, ds, loc, fuel + x) == More(Eval(prog, num, prims, m, c, ds, loc, fuel), x)
    decreases fuel, c, 1
  {
    match c
    case Skip =>
    case Plain(w) =>
      if Newest(prog, m, w).Some? { CallMore(prog, num, prims, Newest(prog, m, w).value, ds, loc, fuel - 1, x); }
    case Seq(_, _) => SeqMore(prog, num, prims, m, c, ds, loc, fuel, x);
    case If(t) => if ds != [] && ds[0] != 0 { EvalMore(prog, num, prims, m, t, ds[1..], loc, fuel - 3, x); }
    case IfElse(_, _) => IfElseMore(prog, num, prims, m, c, ds, loc, fuel, x);
    case Again(_) => AgainMore(prog, num, prims, m, c, ds, loc, fuel, x);
    case Until(_) => UntilMore(prog, num, prims, m, c, ds, loc, fuel, x);
    case While(_, _) => WhileMore(prog, num, prims, m, c, ds, loc, fuel, x);
    case For(b) => if ds != [] { RoundsMore(prog, num, prims, m, b, ds[1..], [ds[0]] + loc, fuel - 3, x); }
  }

  lemma CallMore(prog: seq<Def>, num: Numbers, prims: Prims, j: nat, ds: Stack, loc: Stack, fuel: nat, x: nat)
    requires j < |prog| && !Call(prog, num, prims, j, ds, loc, fuel).Out?
    ensures Call(prog, num, prims, j, ds, loc, fuel + x) == More(Call(prog, num, prims, j, ds, loc, fuel), x)
    decreases fuel
  {
    hide Eval;
    if prog[j].Colon? && fuel > 0 { EvalMore(prog, num, prims, j + 1, prog[j].body, ds, [], fuel - 1, x); }
  }

  lemma SeqMore(prog: seq<Def>, num: Numbers, prims: Prims, m: nat, c: Code, ds: Stack, loc: Stack, fuel: nat, x: nat)
    requires m <= |prog| && !Eval(prog, num, prims, m, c, ds, loc, fuel).Out? && c.Seq?
    ensures Eval(prog, num, prims, m, c, ds, loc, fuel + x) == More(Eval(prog, num, prims, m, c, ds, loc, fuel), x)
    decreases fuel, c, 0
  {
    EvalMore(prog, num, prims, m, c.first, ds, loc, fuel, x);
    var r := Eval(prog, num, prims, m, c.first, ds, loc, fuel);
    if r.Done? { EvalMore(prog, num, prims, m, c.second, r.ds, r.loc, r.fuel, x); }
  }

  lemma IfElseMore(prog: seq<Def>, num: Numbers, prims: Prims, m: nat, c: Code, ds: Stack, loc: Stack, fuel: nat,
        x: nat)
    requires m <= |prog| && !Eval(prog, num, prims, m, c, ds, loc, fuel).Out? && c.IfElse?
    ensures Eval(prog, num, prims, m, c, ds, loc, fuel + x) == More(Eval(prog, num, prims, m, c, ds, loc, fuel), x)
    decreases fuel, c, 0
  {
    if ds != [] {
      if ds[0] == 0 {
        EvalMore(prog, num, prims, m, c.els, ds[1..], loc, fuel - 4, x);
      } else {
        EvalMore(prog, num, prims, m, c.thn, ds[1..], loc, fuel - 3, x);
      }
    }
  }

  lemma AgainMore(prog: seq<Def>, num: Numbers, prims: Prims, m: nat, c: Code, ds: Stack, loc: Stack, fuel: nat, x: nat)
    requires m <= |prog| && !Eval(prog, num, prims, m, c, ds, loc, fuel).Out? && c.Again? && fuel > 0
    ensures Eval(prog, num, prims, m, c, ds, loc, fuel + x) == More(Eval(prog, num, prims, m, c, ds, loc, fuel), x)
    decreases fuel, c, 0
  {
    hide Eval;
    AgainRound(prog, num, prims, m, c, ds, loc, fuel);
    AgainRound(prog, num, prims, m, c, ds, loc, fuel + x);
    EvalMore(prog, num, prims, m, c.body, ds, loc, fuel - 1, x);
    var r := Eval(prog, num, prims, m, c.body, ds, loc, fuel - 1);
    if r.Done? {
      SomeFuel(prog, num, prims, m, c, r.ds, r.loc, r.fuel - 3);
      AgainMore(prog, num, prims, m, c, r.ds, r.loc, r.fuel - 3, x);
    }
  }

  lemma UntilMore(prog: seq<Def>, num: Numbers, prims: Prims, m: nat, c: Code, ds: Stack, loc: Stack, fuel: nat, x: nat)
    requires m <= |prog| && !Eval(prog, num, prims, m, c, ds, loc, fuel).Out? && c.Until? && fuel > 0
    ensures Eval(prog, num, prims, m, c, ds, loc, fuel + x) == More(Eval(prog, num, prims, m, c, ds, loc, fuel), x)
    decreases fuel, c, 0
  {
    hide Eval;
    UntilRound(prog, num, prims, m, c, ds, loc, fuel);
    UntilRound(prog, num, prims, m, c, ds, loc, fuel + x);
    EvalMore(prog, num, prims, m, c.body, ds, loc, fuel - 1, x);
    var r := Eval(prog, num, prims, m, c.body, ds, loc, fuel - 1);
    if r.Done? && r.ds != [] && r.ds[0] == 0 {
      SomeFuel(prog, num, prims, m, c, r.ds[1..], r.loc, r.fuel - 3);
      UntilMore(prog, num, prims, m, c, r.ds[1..], r.loc, r.fuel - 3, x);
    }
  }

  lemma WhileMore(prog: seq<Def>, num: Numbers, prims: Prims, m: nat, c: Code, ds: Stack, loc: Stack, fuel: nat, x: nat)
    requires m <= |prog| && !Eval(prog, num, prims, m, c, ds, loc, fuel).Out? && c.While? && fuel > 0
    ensures Eval(prog, num, prims, m, c, ds, loc, fuel + x) == More(Eval(prog, num, prims, m, c, ds, loc, fuel), x)
    decreases fuel, c, 0
  {
    hide Eval;
    WhileRound(prog, num, prims, m, c, ds, loc, fuel);
    WhileRound(prog, num, prims, m, c, ds, loc, fuel + x);
    var r := Eval(prog, num, prims, m, c.cond, ds, loc, fuel - 1);
    EvalMore(prog, num, prims, m, c.cond, ds, loc, fuel - 1, x);
    if r.Done? && r.ds != [] && r.ds[0] != 0 {
      EvalMore(prog, num, prims, m, c.body, r.ds[1..], r.loc, r.fuel - 3, x);
      var r' := Eval(prog, num, prims, m, c.body, r.ds[1..], r.loc, r.fuel - 3);
      if r'.Done? {
        SomeFuel(prog, num, prims, m, c, r'.ds, r'.loc, r'.fuel - 3);
        WhileMore(prog, num, prims, m, c, r'.ds, r'.loc, r'.fuel - 3, x);
      }
    }
  }

  lemma RoundsMore(prog: seq<Def>, num: Numbers, prims: Prims, m: nat, b: Code, ds: Stack, loc: Stack, fuel: nat,
        x: nat)
    requires m <= |prog| && !Rounds(prog, num, prims, m, b, ds, loc, fuel).Out?
    ensures Rounds(prog, num, prims, m, b, ds, loc, fuel + x) == More(Rounds(prog, num, prims, m, b, ds, loc, fuel), x)
    decreases fuel, b, 2
  {
    hide Eval;
    if loc != [] && loc[0] != 0 {
      EvalMore(prog, num, prims, m, b, ds, [loc[0] - 1] + loc[1..], fuel - 4, x);
      var r := Eval(prog, num, prims, m, b, ds, [loc[0] - 1] + loc[1..], fuel - 4);
      if r.Done? { RoundsMore(prog, num, prims, m, b, r.ds, r.loc, r.fuel - 3, x); }
    }
  }

  /** The lines passed by a for-loop whose rounds pass `costs`. */
  function Cost(costs: seq<nat>): nat
    decreases |costs|
  {
    if costs == [] then 0 else costs[0] + 7 + Cost(costs[1..])
  }

  /**
   The body, run with counter i on top of the return stack, takes ds to ds', leaves the return stack alone and passes
   `cost` lines.
   */
  ghost predicate Round(prog: seq<Def>, num: Numbers, prims: Prims, m: nat, b: Code, ds: Stack, ds': Stack, i: cell,
        loc: Stack, cost: nat)
    requires m <= |prog|
  {
    Eval(prog, num, prims, m, b, ds, [i] + loc, cost) == Done(ds', [i] + loc, 0)
  }

  lemma OneRound(prog: seq<Def>, num: Numbers, prims: Prims, m: nat, b: Code, n: cell, ds: Stack, ds': Stack,
        loc: Stack, cost: nat, left: nat)
    requires m <= |prog| && n > 0 && Round(prog, num, prims, m, b, ds, ds', n - 1, loc, cost)
    ensures Rounds(prog, num, prims, m, b, ds, [n] + loc, cost + 7 + left)
      == Rounds(prog, num, prims, m, b, ds', [n - 1] + loc, left)
  {
    hide Eval;
    var all := [n] + loc;
    assert all[0] == n && all[1..] == loc;
    EvalMore(prog, num, prims, m, b, ds, [n - 1] + loc, cost, left + 3);
  }

  lemma LastRound(prog: seq<Def>, num: Numbers, prims: Prims, m: nat, b: Code, ds: Stack, loc: Stack)
    requires m <= |prog|
    ensures Rounds(prog, num, prims, m, b, ds, [0] + loc, 5) == Done(ds, loc, 0)
  {
    assert ([0 as cell] + loc)[1..] == loc;
  }

  lemma {:induction false} RoundsRepeat(prog: seq<Def>, num: Numbers, prims: Prims, m: nat, b: Code, n: cell,
        dss: seq<Stack>, loc: Stack, costs: seq<nat>)
    requires m <= |prog| && |dss| == n + 1 && |costs| == n
    requires forall i :: 0 <= i < n ==> Round(prog, num, prims, m, b, dss[i], dss[i + 1], n - 1 - i, loc, costs[i])
    ensures Rounds(prog, num, prims, m, b, dss[0], [n] + loc, Cost(costs) + 5) == Done(dss[n], loc, 0)
    decreases n
  {
    hide Rounds, Round;
    if n == 0 {
      LastRound(prog, num, prims, m, b, dss[0], loc);
    } else {
      var next: cell := n - 1;
      assert Round(prog, num, prims, m, b, dss[0], dss[0 + 1], n - 1 - 0, loc, costs[0]);
      OneRound(prog, num, prims, m, b, n, dss[0], dss[1], loc, costs[0], Cost(costs[1..]) + 5);
      forall i | 0 <= i < next
        ensures Round(prog, num, prims, m, b, dss[1..][i], dss[1..][i + 1], next - 1 - i, loc, costs[1..][i])
      {
        assert Round(prog, num, prims, m, b, dss[i + 1], dss[i + 1 + 1], n - 1 - (i + 1), loc, costs[i + 1]);
      }
      RoundsRepeat(prog, num, prims, m, b, next, dss[1..], loc, costs[1..]);
    }
  }

  /**
   `n for … next` runs its body exactly n times, with n-1 down to 0 as the counter, and leaves the counter nowhere.
   */
  lemma ForRepeats(prog: seq<Def>, num: Numbers, prims: Prims, m: nat, b: Code, n: cell, dss: seq<Stack>, loc: Stack,
        costs: seq<nat>)
    requires m <= |prog| && |dss| == n + 1 && |costs| == n
    requires forall i :: 0 <= i < n ==> Round(prog, num, prims, m, b, dss[i], dss[i + 1], n - 1 - i, loc, costs[i])
    ensures Eval(prog, num, prims, m, For(b), [n] + dss[0], loc, Cost(costs) + 8) == Done(dss[n], loc, 0)
  {
    hide Rounds, Round;
    RoundsRepeat(prog, num, prims, m, b, n, dss, loc, costs);
    assert ([n] + dss[0])[1..] == dss[0];
  }
}
