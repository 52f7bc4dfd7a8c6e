/** Evaluation never runs past the end of a text it was not already broken in, and its depth bound is only a bound. */
module PicolSafety {
  import opened Bytes
  import opened PicolToken
  import opened PicolEval
  import opened PicolLaws

  // ----- more depth changes nothing -----

  /** An evaluation that ends within some depth ends the same way with more. */
  lemma {:induction false} EvalDeeper(s: Interp, t: string, fuel: nat)
    requires Eval(s, t, fuel).1 != EXHAUSTED
    ensures Eval(s, t, fuel + 1) == Eval(s, t, fuel)
    decreases fuel, 3, 0, 0
  {
    hide Tokens;
    TokensDeeper(s.(result := ""), t, FRESH, [], fuel);
  }

  lemma {:induction false} TokensDeeper(s: Interp, text: string, p: P, argv: seq<string>, fuel: nat)
    requires p.pos <= |text| && (argv == [] ==> p.kind == SEP || p.kind == EOL)
    requires Tokens(s, text, p, argv, fuel).1 != EXHAUSTED
    ensures Tokens(s, text, p, argv, fuel + 1) == Tokens(s, text, p, argv, fuel)
    decreases fuel, 2, |text| - p.pos, Rank(p.kind)
  {
    hide Next, Call, Value, Append;
    var next := Next(text, p);
    if next.Some? {
      var q := next.value;
      NextProgress(text, p);
      if q.kind == SEP || (q.kind == EOL && argv == []) {
        TokensDeeper(s, text, q, argv, fuel);
      } else if q.kind == EOL {
        var (u, code) := Call(s, argv, fuel);
        CallDeeper(s, argv, fuel);
        if code == OK { TokensDeeper(u, text, q, [], fuel); }
      } else if q.kind != EOF {
        WordSpan(text, p);
        ValueDeeper(s, q.kind, text[q.start..q.stop], fuel);
        var (u, code, val) := Value(s, q.kind, text[q.start..q.stop], fuel);
        if code == OK { TokensDeeper(u, text, q, Append(argv, p.kind, val), fuel); }
      }
    }
  }

  lemma {:induction false} ValueDeeper(s: Interp, kind: Kind, t: string, fuel: nat)
    requires Value(s, kind, t, fuel).1 != EXHAUSTED
    ensures Value(s, kind, t, fuel + 1) == Value(s, kind, t, fuel)
    decreases fuel, 1, 0, 0
  {
    hide Eval;
    if kind == CMD && fuel > 0 { EvalDeeper(s, t, fuel - 1); }
  }

  lemma {:induction false} CallDeeper(s: Interp, argv: seq<string>, fuel: nat)
    requires argv != [] && Call(s, argv, fuel).1 != EXHAUSTED
    ensures Call(s, argv, fuel + 1) == Call(s, argv, fuel)
    decreases fuel, 1, 0, 0
  {
    hide Apply;
    var f := Find(s.commands, argv[0]);
    if f.Some? { ApplyDeeper(s, f.value, argv, fuel); }
  }

  lemma {:induction false} ApplyDeeper(s: Interp, f: Func, argv: seq<string>, fuel: nat)
    requires argv != [] && Apply(s, f, argv, fuel).1 != EXHAUSTED
    ensures Apply(s, f, argv, fuel + 1) == Apply(s, f, argv, fuel)
    decreases fuel, 0, 1, 0
  {
    hide Loop, Conditional, CallProc;
    match f
    case If => ConditionalDeeper(s, argv, fuel);
    case While => if |argv| == 3 { LoopDeeper(s, argv[1], argv[2], fuel); }
    case User(alist, body) => CallProcDeeper(s, alist, body, argv, fuel);
    case _ =>
  }

  lemma {:induction false} CallProcDeeper(s: Interp, alist: string, body: string, argv: seq<string>, fuel: nat)
    requires argv != [] && CallProc(s, alist, body, argv, fuel).1 != EXHAUSTED
    ensures CallProc(s, alist, body, argv, fuel + 1) == CallProc(s, alist, body, argv, fuel)
    decreases fuel, 0, 0, 0
  {
    hide Eval;
    if |Words(alist)| == |argv| - 1 && fuel > 0 {
      EvalDeeper(s.(vars := Bind([], Words(alist), argv[1..]), below := [s.vars] + s.below), body, fuel - 1);
    }
  }

  lemma {:induction false} ConditionalDeeper(s: Interp, argv: seq<string>, fuel: nat)
    requires argv != [] && Conditional(s, argv, fuel).1 != EXHAUSTED
    ensures Conditional(s, argv, fuel + 1) == Conditional(s, argv, fuel)
    decreases fuel, 0, 0, 0
  {
    hide Eval;
    if fuel > 0 && (|argv| == 3 || |argv| == 5) {
      EvalDeeper(s, argv[1], fuel - 1);
      var (u, code) := Eval(s, argv[1], fuel - 1);
      if code == OK {
        if Atol(u.result) != 0 {
          EvalDeeper(u, argv[2], fuel - 1);
        } else if |argv| == 5 {
          EvalDeeper(u, argv[4], fuel - 1);
        }
      }
    }
  }

  lemma {:induction false} LoopDeeper(s: Interp, cond: string, body: string, fuel: nat)
    requires Loop(s, cond, body, fuel).1 != EXHAUSTED
    ensures Loop(s, cond, body, fuel + 1) == Loop(s, cond, body, fuel)
    decreases fuel, 0, 0, 0
  {
    hide Eval;
    EvalDeeper(s, cond, fuel - 1);
    var (u, code) := Eval(s, cond, fuel - 1);
    if code == OK && Atol(u.result) != 0 {
      EvalDeeper(u, body, fuel - 1);
      var (v, code') := Eval(u, body, fuel - 1);
      if code' == OK || code' == CONTINUE { LoopDeeper(v, cond, body, fuel - 1); }
    }
  }

  // ----- no text is ever overrun -----

  ghost predicate AllPaired(words: seq<string>) {
    forall k :: 0 <= k < |words| ==> Paired(words[k])
  }

  ghost predicate PairedVars(vars: seq<Var>) {
    forall k :: 0 <= k < |vars| ==> Paired(vars[k].val)
  }

  ghost predicate PairedBodies(commands: seq<Cmd>) {
    forall k :: 0 <= k < |commands| ==> commands[k].func.User? ==> Paired(commands[k].func.body)
  }

  /** Everything the interpreter may come to evaluate is paired. */
  ghost predicate Safe(s: Interp) {
    PairedVars(s.vars) && PairedBodies(s.commands)
  }

  /** How an evaluation from a safe state may end: the text was not overrun, and a result that may be used is paired. */
  ghost predicate SafeEnd(u: Interp, code: Code) {
    && code != OVERRUN && Safe(u)
    && (code != ERR && code != EXHAUSTED ==> Paired(u.result))
  }

  lemma {:induction false} EvalSafe(s: Interp, t: string, fuel: nat)
    requires Safe(s) && Paired(t)
    ensures SafeEnd(Eval(s, t, fuel).0, Eval(s, t, fuel).1)
    decreases fuel, 3, 0, 0
  {
    hide Tokens, Paired;
    PlainPaired("");
    assert t[0..] == t;
    assert Safe(s.(result := ""));
    TokensSafe(s.(result := ""), t, FRESH, [], fuel);
  }

  lemma {:induction false} TokensSafe(s: Interp, text: string, p: P, argv: seq<string>, fuel: nat)
    requires p.pos <= |text| && (argv == [] ==> p.kind == SEP || p.kind == EOL)
    requires Safe(s) && Paired(s.result) && Paired(text[p.pos..]) && AllPaired(argv)
    ensures var (u, code) := Tokens(s, text, p, argv, fuel); SafeEnd(u, code)
    decreases fuel, 2, |text| - p.pos, Rank(p.kind)
  {
    hide Next, Call, Value, Append, Paired, Safe, AllPaired;
    NextPaired(text, p);
    var q := Next(text, p).value;
    NextProgress(text, p);
    if q.kind == SEP {
      TokensSafe(s, text, q, argv, fuel);
    } else if q.kind == EOL {
      NonePaired();
      if argv == [] {
        TokensSafe(s, text, q, [], fuel);
      } else {
        CallSafe(s, argv, fuel);
        var (u, code) := Call(s, argv, fuel);
        if code == OK { TokensSafe(u, text, q, [], fuel); }
      }
    } else if q.kind != EOF {
      WordSpan(text, p);
      ValueSafe(s, q.kind, text[q.start..q.stop], fuel);
      var (u, code, val) := Value(s, q.kind, text[q.start..q.stop], fuel);
      if code == OK {
        AppendPaired(argv, p.kind, val);
        TokensSafe(u, text, q, Append(argv, p.kind, val), fuel);
      }
    }
  }

  lemma NonePaired()
    ensures AllPaired([])
  {
  }

  lemma AppendPaired(argv: seq<string>, prev: Kind, val: string)
    requires (argv == [] ==> prev == SEP || prev == EOL) && AllPaired(argv) && Paired(val)
    ensures AllPaired(Append(argv, prev, val))
  {
    hide Paired;
    if argv != [] { PairedConcat(argv[|argv| - 1], val); }
  }

  lemma {:induction false} ValueSafe(s: Interp, kind: Kind, t: string, fuel: nat)
    requires Safe(s) && Paired(s.result) && Paired(t)
    ensures var (u, code, val) := Value(s, kind, t, fuel);
      && SafeEnd(u, code) && (code == OK ==> Paired(val) && Paired(u.result))
    decreases fuel, 1, 0, 0
  {
    hide Eval, Paired, PairedVars, PairedBodies;
    if kind == VAR { GotPaired(s.vars, t); }
    if kind == CMD && fuel > 0 { EvalSafe(s, t, fuel - 1); }
  }

  lemma {:induction false} GotPaired(vars: seq<Var>, name: string)
    requires PairedVars(vars)
    ensures GetVar(vars, name).Some? ==> Paired(GetVar(vars, name).value)
    decreases |vars|
  {
    hide Paired;
    if vars != [] { GotPaired(vars[1..], name); }
  }

  lemma {:induction false} SetPaired(vars: seq<Var>, name: string, val: string)
    requires PairedVars(vars) && Paired(val)
    ensures PairedVars(SetVar(vars, name, val)) && PairedVars(Changed(vars, name, val))
    decreases |vars|
  {
    hide Paired;
    if vars != [] { SetPaired(vars[1..], name, val); }
  }

  lemma {:induction false} BindPaired(vars: seq<Var>, names: seq<string>, vals: seq<string>)
    requires |names| == |vals| && PairedVars(vars) && AllPaired(vals)
    ensures PairedVars(Bind(vars, names, vals))
    decreases |names|
  {
    hide Paired, PairedVars;
    if names != [] {
      SetPaired(vars, names[0], vals[0]);
      BindPaired(SetVar(vars, names[0], vals[0]), names[1..], vals[1..]);
    }
  }

  lemma ShowPaired(n: int)
    ensures Paired(Show(n))
  {
    PlainPaired(Show(n));
  }

  lemma {:induction false} CallSafe(s: Interp, argv: seq<string>, fuel: nat)
    requires argv != [] && Safe(s) && Paired(s.result) && AllPaired(argv)
    ensures var (u, code) := Call(s, argv, fuel); SafeEnd(u, code)
    decreases fuel, 1, 0, 0
  {
    hide Apply, Paired, PairedVars, AllPaired;
    var f := Find(s.commands, argv[0]);
    FoundPaired(s.commands, argv[0]);
    if f.Some? { ApplySafe(s, f.value, argv, fuel); }
  }

  lemma {:induction false} FoundPaired(commands: seq<Cmd>, name: string)
    requires PairedBodies(commands)
    ensures Find(commands, name).Some? && Find(commands, name).value.User? ==> Paired(Find(commands, name).value.body)
    decreases |commands|
  {
    hide Paired;
    if commands != [] { FoundPaired(commands[1..], name); }
  }

  lemma {:induction false} ApplySafe(s: Interp, f: Func, argv: seq<string>, fuel: nat)
    requires argv != [] && Safe(s) && Paired(s.result) && AllPaired(argv) && (f.User? ==> Paired(f.body))
    ensures var (u, code) := Apply(s, f, argv, fuel); SafeEnd(u, code)
    decreases fuel, 0, 1, 0
  {
    hide Eval, Loop, Conditional, CallProc, Paired, PairedVars, PairedBodies, MathCmd, Register;
    match f
    case Math => MathSafe(s, argv);
    case Set => if |argv| == 3 { SetPaired(s.vars, argv[1], argv[2]); }
    case If => ConditionalSafe(s, argv, fuel);
    case While => if |argv| == 3 { LoopSafe(s, argv[1], argv[2], fuel); }
    case DefProc => if |argv| == 4 { RegisterSafe(s, argv[1], User(argv[2], argv[3])); }
    case Ret => PlainPaired("");
    case User(alist, body) => CallProcSafe(s, alist, body, argv, fuel);
    case _ =>
  }

  lemma MathSafe(s: Interp, argv: seq<string>)
    requires argv != [] && Safe(s)
    ensures var (u, code) := MathCmd(s, argv); SafeEnd(u, code)
  {
    hide Paired, PairedVars, PairedBodies, Atol, Show, Quotient;
    forall n: int ensures Paired(Show(n)) { ShowPaired(n); }
  }

  lemma RegisterSafe(s: Interp, name: string, f: Func)
    requires Safe(s) && Paired(s.result) && (f.User? ==> Paired(f.body))
    ensures var (u, code) := Register(s, name, f); SafeEnd(u, code)
  {
    hide Paired;
  }

  lemma {:induction false} ConditionalSafe(s: Interp, argv: seq<string>, fuel: nat)
    requires argv != [] && Safe(s) && AllPaired(argv)
    ensures var (u, code) := Conditional(s, argv, fuel); SafeEnd(u, code)
    decreases fuel, 0, 0, 0
  {
    hide Eval, Paired, Safe;
    if fuel > 0 && (|argv| == 3 || |argv| == 5) {
      EvalSafe(s, argv[1], fuel - 1);
      var (u, code) := Eval(s, argv[1], fuel - 1);
      if code == OK {
        EvalSafe(u, argv[2], fuel - 1);
        if |argv| == 5 { EvalSafe(u, argv[4], fuel - 1); }
      }
    }
    SafeFails(s, "Wrong number of args for " + argv[0]);
  }

  lemma SafeFails(s: Interp, message: string)
    requires Safe(s)
    ensures SafeEnd(s.(result := Clip(message)), ERR) && SafeEnd(s, EXHAUSTED)
  {
  }

  lemma {:induction false} LoopSafe(s: Interp, cond: string, body: string, fuel: nat)
    requires Safe(s) && Paired(cond) && Paired(body)
    ensures var (u, code) := Loop(s, cond, body, fuel); SafeEnd(u, code)
    decreases fuel, 0, 0, 0
  {
    hide Eval, Paired, Safe;
    if fuel > 0 {
      EvalSafe(s, cond, fuel - 1);
      var (u, code) := Eval(s, cond, fuel - 1);
      if code == OK {
        EvalSafe(u, body, fuel - 1);
        var (v, code') := Eval(u, body, fuel - 1);
        if code' == OK || code' == CONTINUE { LoopSafe(v, cond, body, fuel - 1); }
      }
    }
  }

  lemma NoVars()
    ensures PairedVars([])
  {
  }

  lemma {:induction false} CallProcSafe(s: Interp, alist: string, body: string, argv: seq<string>, fuel: nat)
    requires argv != [] && Safe(s) && Paired(body) && AllPaired(argv)
    ensures var (u, code) := CallProc(s, alist, body, argv, fuel); SafeEnd(u, code)
    decreases fuel, 0, 0, 0
  {
    hide Eval, Paired, PairedVars, PairedBodies;
    var names := Words(alist);
    if |names| == |argv| - 1 && fuel > 0 {
      NoVars();
      BindPaired([], names, argv[1..]);
      EvalSafe(s.(vars := Bind([], names, argv[1..]), below := [s.vars] + s.below), body, fuel - 1);
    }
  }

  // ----- sessions -----

  /** The commands every interpreter starts with, newest first. */
  function Core(): seq<Cmd> {
    [Cmd("return", Ret), Cmd("proc", DefProc), Cmd("continue", RetCodes), Cmd("break", RetCodes), Cmd("while", While),
     Cmd("if", If), Cmd("puts", Puts), Cmd("set", Set),
     Cmd("!=", Math), Cmd("==", Math), Cmd("<=", Math), Cmd("<", Math),
     Cmd(">=", Math), Cmd(">", Math), Cmd("/", Math), Cmd("*", Math), Cmd("-", Math), Cmd("+", Math)]
  }

  function Start(): Interp { Interp([], [], Core(), "", []) }

  /** The interpreter after each script of a session, and how each ended. */
  function Session(s: Interp, scripts: seq<string>, fuel: nat): (r: (Interp, seq<Code>))
    ensures |r.1| == |scripts|
    decreases |scripts|
  {
    if scripts == [] then (s, [])
    else
      var n := |scripts| - 1;
      var (t, codes) := Session(s, scripts[..n], fuel);
      var (u, code) := Eval(t, scripts[n], fuel);
      (u, codes + [code])
  }

  lemma {:induction false} SessionKeeps(s: Interp, scripts: seq<string>, fuel: nat, name: string)
    requires Distinct(s.commands) && Find(s.commands, name).Some?
    ensures var u := Session(s, scripts, fuel).0;
      u.below == s.below && Distinct(u.commands) && Find(u.commands, name) == Find(s.commands, name)
    decreases |scripts|
  {
    hide Eval, Distinct, Find;
    if scripts != [] {
      var n := |scripts| - 1;
      SessionKeeps(s, scripts[..n], fuel, name);
      CommandsStay(Session(s, scripts[..n], fuel).0, scripts[n], fuel, name);
    }
  }

  lemma {:induction false} SessionSafe(s: Interp, scripts: seq<string>, fuel: nat)
    requires Safe(s) && AllPaired(scripts)
    ensures var (u, codes) := Session(s, scripts, fuel);
      Safe(u) && forall k :: 0 <= k < |codes| ==> codes[k] != OVERRUN
    decreases |scripts|
  {
    hide Eval, Safe, Paired;
    if scripts != [] {
      var n := |scripts| - 1;
      SessionSafe(s, scripts[..n], fuel);
      EvalSafe(Session(s, scripts[..n], fuel).0, scripts[n], fuel);
    }
  }

  /** From the start: core commands keep their meaning for ever, and paired scripts never overrun their text. */
  lemma EverySession(scripts: seq<string>, fuel: nat, k: nat)
    requires k < |Core()|
    ensures var (u, codes) := Session(Start(), scripts, fuel);
      && u.below == [] && Find(u.commands, Core()[k].name) == Some(Core()[k].func)
      && (AllPaired(scripts) ==> forall j :: 0 <= j < |codes| ==> codes[j] != OVERRUN)
  {
    hide Session, Paired, Core, Distinct, Find, Safe;
    CoreDistinct();
    CoreSafe();
    FoundAt(Core(), k);
    SessionKeeps(Start(), scripts, fuel, Core()[k].name);
    if AllPaired(scripts) { SessionSafe(Start(), scripts, fuel); }
  }

  lemma CoreSafe()
    ensures Safe(Start())
  {
  }

  lemma CoreOrdinal(k: nat)
    requires k < |Core()|
    ensures Ordinal(Core()[k].name) == k
  {
  }

  lemma CoreDistinct()
    ensures Distinct(Core())
  {
    hide Core, Ordinal;
    var c := Core();
    forall i, j | 0 <= i < j < |c| ensures c[i].name != c[j].name {
      CoreOrdinal(i);
      CoreOrdinal(j);
    }
  }

  /** Tells the core commands apart by length and letters. */
  function Ordinal(name: string): int {
    if |name| == 1 then
      match name[0] case '<' => 11 case '>' => 13 case '/' => 14 case '*' => 15 case '-' => 16 case _ => 17
    else if |name| == 2 then match name[0] case '!' => 8 case '=' => 9 case '<' => 10 case '>' => 12 case _ => 5
    else if |name| == 3 then 7
    else if |name| == 4 then if name[1] == 'r' then 1 else 6
    else if |name| == 5 then if name[0] == 'b' then 3 else 4
    else if |name| == 6 then 0 else 2
  }

  lemma {:induction false} FoundAt(commands: seq<Cmd>, k: nat)
    requires Distinct(commands) && k < |commands|
    ensures Find(commands, commands[k].name) == Some(commands[k].func)
    decreases k
  {
    if k > 0 {
      assert commands[0].name != commands[k].name;
      assert commands[k] == commands[1..][k - 1];
      FoundAt(commands[1..], k - 1);
    }
  }

  /** Without pairing it does happen: one open bracket and a backslash. */
  lemma OverrunHappens(s: Interp, fuel: nat)
    ensures !Paired("[\\") && Eval(s, "[\\", fuel).1 == OVERRUN
  {
    var text := "[\\";
    PairedAt(text, 1);
    assert text[1..][0] == '\\';
    assert text[0..] == text && text[1..] == "\\";
    PairedAt(text, 0);
    assert CommandEnd(text, 1, 1, 0) == None;
    assert Next(text, FRESH) == None;
  }
}
