/**
 The machine the emitted lines run on, and the structured meaning of the source they came from.

 The machine has a data stack, and one return stack that holds return addresses, cells moved there by `push` and the
 counters of for-loops. An address is the index of a line. Every line passed costs one unit of fuel, so that divergence
 can be compared as well as results.
 */
module BfcMachine {
  import opened Bytes
  import opened BfcLang

  type cell = x: int | 0 <= x < 0x10000
  type Stack = seq<cell>  // top first

  /** What the data-stack primitives do; `None` for one that cannot work on this stack. */
  type Prims = (nat, Stack) -> Option<Stack>

  datatype Outcome = Halted(ds: Stack, rs: Stack) | Stuck | Timeout

  /** Where a label is defined. */
  ghost function Target(code: seq<Line>, l: nat): (t: Option<nat>)
    ensures t.Some? ==> t.value < |code| && code[t.value] == Label(l)
  {
    if exists i :: 0 <= i < |code| && code[i] == Label(l) then
      var i :| 0 <= i < |code| && code[i] == Label(l);
      Some(i)
    else None
  }

  ghost predicate UniqueLabels(code: seq<Line>) {
    forall i, j :: 0 <= i < j < |code| && code[i].Label? && code[j].Label? ==> code[i] != code[j]
  }

  lemma TargetIs(code: seq<Line>, i: nat)
    requires UniqueLabels(code) && i < |code| && code[i].Label?
    ensures Target(code, code[i].l) == Some(i)
  {
    var t := Target(code, code[i].l);
    assert code[t.value] == code[i];
  }

  datatype State = State(pc: nat, ds: Stack, rs: Stack)

  /** A return address as a cell. */
  function Ret(pc: nat): cell { pc % 0x10000 }

  /** Where control goes if line x holds the address of a label that is defined. */
  ghost function Branch(code: seq<Line>, x: nat): Option<nat> {
    if x < |code| && code[x].Addr? then Target(code, code[x].l) else None
  }

  /** One primitive, entered with its return address on top of the return stack. `None`: stuck. */
  ghost function Perform(code: seq<Line>, prims: Prims, op: Op, ds: Stack, rs: Stack): Option<State> {
    if rs == [] then None
    else
      var x, r := rs[0], rs[1..];
      match op
      case Lit => if x < |code| && code[x].Cell? then Some(State(x + 1, [code[x].v % 0x10000] + ds, r)) else None
      case Bra => var t := Branch(code, x); if t.Some? then Some(State(t.value, ds, r)) else None
      case Zbra =>
        if ds == [] then None
        else if ds[0] != 0 then Some(State(x + 1, ds[1..], r))
        else var t := Branch(code, x); if t.Some? then Some(State(t.value, ds[1..], r)) else None
      case Push => if ds == [] then None else Some(State(x, ds[1..], [ds[0]] + r))
      case Pull => if r == [] then None else Some(State(x, [r[0]] + ds, r[1..]))
      case DoFor =>
        if r == [] then None
        else if r[0] != 0 then Some(State(x + 1, ds, [r[0] - 1] + r[1..]))
        else var t := Branch(code, x); if t.Some? then Some(State(t.value, ds, r[1..])) else None
      case Exit => if r == [] then None else Some(State(r[0], ds, r[1..]))
      case Data(f) => var d := prims(f, ds); if d.Some? then Some(State(x, d.value, r)) else None
  }

  ghost function Step(code: seq<Line>, prims: Prims, s: State): Option<State>
    requires s.pc < |code|
  {
    match code[s.pc]
    case Label(_) => Some(s.(pc := s.pc + 1))
    case Jsr(l) => if Target(code, l).Some? then Some(State(Target(code, l).value, s.ds, [Ret(s.pc + 1)] + s.rs))
      else None
    case Rts => if s.rs == [] then None else Some(State(s.rs[0], s.ds, s.rs[1..]))
    case Body(op) => Perform(code, prims, op, s.ds, s.rs)
    case Addr(_) => None
    case Cell(_) => None
  }

  /** Runs until the address just past the code is reached. */
  ghost function Run(code: seq<Line>, prims: Prims, s: State, fuel: nat): Outcome
    decreases fuel
  {
    if s.pc == |code| then Halted(s.ds, s.rs)
    else if fuel == 0 then Timeout
    else if s.pc > |code| then Stuck
    else
      var n := Step(code, prims, s);
      if n.None? then Stuck else Run(code, prims, n.value, fuel - 1)
  }

  // ----- structured meaning -----

  /**
   `Done`: ran off the end, with what is left of the cells this definition put on the return stack. `Left`: the
   definition returned early, with `exit`. `Broken`: the source does something a structured reading cannot explain, such
   as taking its own return address. `Out`: fuel ran out.
   */
  datatype Result = Done(ds: Stack, loc: Stack, fuel: nat) | Left(ds: Stack, fuel: nat) | Broken | Out

  /** Passing one more line. */
  function Tick(r: Result): Result {
    match r
    case Done(ds, loc, f) => if f == 0 then Out else Done(ds, loc, f - 1)
    case _ => r
  }

  /** A primitive that has been called: its label and its body. */
  function Primitively(prims: Prims, op: Op, ds: Stack, loc: Stack, fuel: nat): Result {
    if fuel < 2 then Out
    else
      match op
      case Data(f) => var d := prims(f, ds); if d.Some? then Done(d.value, loc, fuel - 2) else Broken
      case Push => if ds == [] then Broken else Done(ds[1..], [ds[0]] + loc, fuel - 2)
      case Pull => if loc == [] then Broken else Done([loc[0]] + ds, loc[1..], fuel - 2)
      case Exit => if loc == [] then Left(ds, fuel - 2) else Broken
      case _ => Broken
  }

  /** What definition m-1's body `c` does to the data stack and to its own part of the return stack. */
  function Eval(prog: seq<Def>, num: Numbers, prims: Prims, m: nat, c: Code, ds: Stack, loc: Stack,
        fuel: nat): (r: Result)
    requires m <= |prog|
    ensures r.Done? || r.Left? ==> r.fuel <= fuel
    decreases fuel, c, 0
  {
    match c
    case Skip => Done(ds, loc, fuel)
    case Plain(w) =>
      (match Newest(prog, m, w)
       case Some(j) => if fuel == 0 then Out else Call(prog, num, prims, j, ds, loc, fuel - 1)
       case None =>
         if fuel < 3 then Out else if num(w).None? then Broken else Done([num(w).value % 0x10000] + ds, loc, fuel - 3))
    case Seq(a, b) =>
      var r := Eval(prog, num, prims, m, a, ds, loc, fuel);
      if r.Done? then Eval(prog, num, prims, m, b, r.ds, r.loc, r.fuel) else r
    case If(t) =>
      if fuel < 3 then Out else if ds == [] then Broken
      else if ds[0] == 0 then Tick(Done(ds[1..], loc, fuel - 3))
      else Tick(Eval(prog, num, prims, m, t, ds[1..], loc, fuel - 3))
    case IfElse(t, e) =>
      if fuel < 3 then Out else if ds == [] then Broken
      else if ds[0] == 0 then
        if fuel < 4 then Out else Tick(Eval(prog, num, prims, m, e, ds[1..], loc, fuel - 4))
      else
        var r := Eval(prog, num, prims, m, t, ds[1..], loc, fuel - 3);
        if !r.Done? then r else if r.fuel < 3 then Out else Tick(Done(r.ds, r.loc, r.fuel - 3))
    case Again(b) =>
      if fuel == 0 then Out
      else
        var r := Eval(prog, num, prims, m, b, ds, loc, fuel - 1);
        if !r.Done? then r else if r.fuel < 3 then Out
        else Eval(prog, num, prims, m, c, r.ds, r.loc, r.fuel - 3)
    case Until(b) =>
      if fuel == 0 then Out
      else
        var r := Eval(prog, num, prims, m, b, ds, loc, fuel - 1);
        if !r.Done? then r else if r.fuel < 3 then Out else if r.ds == [] then Broken
        else if r.ds[0] == 0 then Eval(prog, num, prims, m, c, r.ds[1..], r.loc, r.fuel - 3)
        else Done(r.ds[1..], r.loc, r.fuel - 3)
    case While(x, b) =>
      if fuel == 0 then Out
      else
        var r := Eval(prog, num, prims, m, x, ds, loc, fuel - 1);
        if !r.Done? then r else if r.fuel < 3 then Out else if r.ds == [] then Broken
        else if r.ds[0] == 0 then Tick(Done(r.ds[1..], r.loc, r.fuel - 3))
        else
          var r' := Eval(prog, num, prims, m, b, r.ds[1..], r.loc, r.fuel - 3);
          if !r'.Done? then r' else if r'.fuel < 3 then Out
          else Eval(prog, num, prims, m, c, r'.ds, r'.loc, r'.fuel - 3)
    case For(b) =>
      if fuel < 3 then Out else if ds == [] then Broken
      else Rounds(prog, num, prims, m, b, ds[1..], [ds[0]] + loc, fuel - 3)
  }

  /** A for-loop from its test on; its counter is the top of the return stack. */
  function Rounds(prog: seq<Def>, num: Numbers, prims: Prims, m: nat, b: Code, ds: Stack, loc: Stack,
        fuel: nat): (r: Result)
    requires m <= |prog|
    ensures r.Done? || r.Left? ==> r.fuel <= fuel
    decreases fuel, b, 1
  {
    if fuel < 4 then Out
    else if loc == [] then Broken
    else if loc[0] == 0 then Tick(Done(ds, loc[1..], fuel - 4))
    else
      var r := Eval(prog, num, prims, m, b, ds, [loc[0] - 1] + loc[1..], fuel - 4);
      if !r.Done? then r else if r.fuel < 3 then Out
      else Rounds(prog, num, prims, m, b, r.ds, r.loc, r.fuel - 3)
  }

  /** Calling definition j. A colon definition gets a return-stack part of its own and must leave it empty. */
  function Call(prog: seq<Def>, num: Numbers, prims: Prims, j: nat, ds: Stack, loc: Stack, fuel: nat): (r: Result)
    requires j < |prog|
    ensures r.Done? || r.Left? ==> r.fuel <= fuel
    decreases fuel, Skip, 0
  {
    match prog[j]
    case Primitive(_, op) => Primitively(prims, op, ds, loc, fuel)
    case Colon(_, body) =>
      if fuel == 0 then Out
      else
        match Eval(prog, num, prims, j + 1, body, ds, [], fuel - 1)
        case Done(ds', loc', f) => if loc' != [] then Broken else Tick(Done(ds', loc, f))
        case Left(ds', f) => Done(ds', loc, f)
        case r => r
  }

  // ----- one turn of each loop -----

  /** An endless loop once its body has run. */
  function AgainTail(prog: seq<Def>, num: Numbers, prims: Prims, m: nat, c: Code, r: Result): Result
    requires m <= |prog| && c.Again?
  {
    if !r.Done? then r else if r.fuel < 3 then Out else Eval(prog, num, prims, m, c, r.ds, r.loc, r.fuel - 3)
  }

  lemma AgainRound(prog: seq<Def>, num: Numbers, prims: Prims, m: nat, c: Code, ds: Stack, loc: Stack, fuel: nat)
    requires m <= |prog| && c.Again? && fuel > 0
    ensures Eval(prog, num, prims, m, c, ds, loc, fuel)
      == AgainTail(prog, num, prims, m, c, Eval(prog, num, prims, m, c.body, ds, loc, fuel - 1))
  {
  }

  /** An until-loop once its body has run. */
  function UntilTail(prog: seq<Def>, num: Numbers, prims: Prims, m: nat, c: Code, r: Result): Result
    requires m <= |prog| && c.Until?
  {
    if !r.Done? then r else if r.fuel < 3 then Out else if r.ds == [] then Broken
    else if r.ds[0] == 0 then Eval(prog, num, prims, m, c, r.ds[1..], r.loc, r.fuel - 3)
    else Done(r.ds[1..], r.loc, r.fuel - 3)
  }

  lemma UntilRound(prog: seq<Def>, num: Numbers, prims: Prims, m: nat, c: Code, ds: Stack, loc: Stack, fuel: nat)
    requires m <= |prog| && c.Until? && fuel > 0
    ensures Eval(prog, num, prims, m, c, ds, loc, fuel)
      == UntilTail(prog, num, prims, m, c, Eval(prog, num, prims, m, c.body, ds, loc, fuel - 1))
  {
  }

  lemma WhileRound(prog: seq<Def>, num: Numbers, prims: Prims, m: nat, c: Code, ds: Stack, loc: Stack, fuel: nat)
    requires m <= |prog| && c.While? && fuel > 0
    ensures Eval(prog, num, prims, m, c, ds, loc, fuel)
      == WhileTail(prog, num, prims, m, c, Eval(prog, num, prims, m, c.cond, ds, loc, fuel - 1))
  {
  }

  /** A while-loop once its condition has been computed. */
  function WhileTail(prog: seq<Def>, num: Numbers, prims: Prims, m: nat, c: Code, r: Result): Result
    requires m <= |prog| && c.While?
  {
    if !r.Done? then r else if r.fuel < 3 then Out else if r.ds == [] then Broken
    else if r.ds[0] == 0 then Tick(Done(r.ds[1..], r.loc, r.fuel - 3))
    else
      var r' := Eval(prog, num, prims, m, c.body, r.ds[1..], r.loc, r.fuel - 3);
      if !r'.Done? then r' else if r'.fuel < 3 then Out
      else Eval(prog, num, prims, m, c, r'.ds, r'.loc, r'.fuel - 3)
  }

  lemma SomeFuel(prog: seq<Def>, num: Numbers, prims: Prims, m: nat, c: Code, ds: Stack, loc: Stack, fuel: nat)
    requires m <= |prog| && (c.While? || c.Until? || c.Again?)
    ensures fuel == 0 ==> Eval(prog, num, prims, m, c, ds, loc, fuel).Out?
  {
  }
}
