/**
 What holds of every evaluation: frames are local, commands stay, more depth changes nothing, text is never overrun.
 */
module PicolLaws {
  import opened Bytes
  import opened PicolToken
  import opened PicolEval

  // ----- the frames below are neither changed nor looked at -----

  function Over(r: (Interp, Code), b: seq<seq<Var>>): (Interp, Code) {
    (r.0.(below := b), r.1)
  }

  /** Evaluation over other frames below is the same evaluation, with those frames below it. */
  lemma {:induction false} FrameRule(s: Interp, b: seq<seq<Var>>, t: string, fuel: nat)
    ensures Eval(s.(below := b), t, fuel) == Over(Eval(s, t, fuel), b)
    decreases fuel, 3, 0, 0
  {
    hide Tokens;
    TokensFrame(s.(result := ""), b, t, FRESH, [], fuel);
    assert s.(below := b).(result := "") == s.(result := "").(below := b);
  }

  lemma {:induction false} TokensFrame(s: Interp, b: seq<seq<Var>>, text: string, p: P, argv: seq<string>, fuel: nat)
    requires p.pos <= |text| && (argv == [] ==> p.kind == SEP || p.kind == EOL)
    ensures Tokens(s.(below := b), text, p, argv, fuel) == Over(Tokens(s, text, p, argv, fuel), b)
    decreases fuel, 2, |text| - p.pos, Rank(p.kind)
  {
    hide Next, Call, Value, Append;
    var next := Next(text, p);
    if next.Some? {
      var q := next.value;
      NextProgress(text, p);
      if q.kind == SEP || (q.kind == EOL && argv == []) {
        TokensFrame(s, b, text, q, argv, fuel);
      } else if q.kind == EOL {
        CallFrame(s, b, argv, fuel);
        var (u, code) := Call(s, argv, fuel);
        if code == OK { TokensFrame(u, b, text, q, [], fuel); }
      } else if q.kind != EOF {
        WordSpan(text, p);
        ValueFrame(s, b, q.kind, text[q.start..q.stop], fuel);
        var (u, code, val) := Value(s, q.kind, text[q.start..q.stop], fuel);
        if code == OK { TokensFrame(u, b, text, q, Append(argv, p.kind, val), fuel); }
      }
    }
  }

  lemma {:induction false} ValueFrame(s: Interp, b: seq<seq<Var>>, kind: Kind, t: string, fuel: nat)
    ensures var (u, code, val) := Value(s, kind, t, fuel);
      Value(s.(below := b), kind, t, fuel) == (u.(below := b), code, val)
    decreases fuel, 1, 0, 0
  {
    hide Eval;
    if kind == CMD && fuel > 0 { FrameRule(s, b, t, fuel - 1); }
  }

  lemma {:induction false} CallFrame(s: Interp, b: seq<seq<Var>>, argv: seq<string>, fuel: nat)
    requires argv != []
    ensures Call(s.(below := b), argv, fuel) == Over(Call(s, argv, fuel), b)
    decreases fuel, 1, 0, 0
  {
    hide Apply;
    var f := Find(s.commands, argv[0]);
    if f.Some? { ApplyFrame(s, b, f.value, argv, fuel); }
  }

  lemma {:induction false} ApplyFrame(s: Interp, b: seq<seq<Var>>, f: Func, argv: seq<string>, fuel: nat)
    requires argv != []
    ensures Apply(s.(below := b), f, argv, fuel) == Over(Apply(s, f, argv, fuel), b)
    decreases fuel, 0, 1, 0
  {
    hide Eval, Loop, Conditional, CallProc;
    match f
    case If => ConditionalFrame(s, b, argv, fuel);
    case While => if |argv| == 3 { LoopFrame(s, b, argv[1], argv[2], fuel); }
    case User(alist, body) => CallIsLocal(s, s.vars, b, alist, body, argv, fuel);
    case _ =>
  }

  lemma {:induction false} ConditionalFrame(s: Interp, b: seq<seq<Var>>, argv: seq<string>, fuel: nat)
    requires argv != []
    ensures Conditional(s.(below := b), argv, fuel) == Over(Conditional(s, argv, fuel), b)
    decreases fuel, 0, 0, 0
  {
    hide Eval;
    if fuel > 0 && (|argv| == 3 || |argv| == 5) {
      FrameRule(s, b, argv[1], fuel - 1);
      var u := Eval(s, argv[1], fuel - 1).0;
      FrameRule(u, b, argv[2], fuel - 1);
      if |argv| == 5 { FrameRule(u, b, argv[4], fuel - 1); }
    }
  }

  lemma {:induction false} LoopFrame(s: Interp, b: seq<seq<Var>>, cond: string, body: string, fuel: nat)
    ensures Loop(s.(below := b), cond, body, fuel) == Over(Loop(s, cond, body, fuel), b)
    decreases fuel, 0, 0, 0
  {
    hide Eval;
    if fuel > 0 {
      FrameRule(s, b, cond, fuel - 1);
      var u := Eval(s, cond, fuel - 1).0;
      FrameRule(u, b, body, fuel - 1);
      LoopFrame(Eval(u, body, fuel - 1).0, b, cond, body, fuel - 1);
    }
  }

  /** A procedure call neither sees nor changes its caller's variables. */
  lemma {:induction false} CallIsLocal(s: Interp, vars: seq<Var>, b: seq<seq<Var>>, alist: string, body: string,
                                       argv: seq<string>, fuel: nat)
    requires argv != []
    ensures var (u, code) := CallProc(s, alist, body, argv, fuel);
      CallProc(s.(vars := vars, below := b), alist, body, argv, fuel) == (u.(vars := vars, below := b), code)
    decreases fuel, 0, 0, 0
  {
    hide Eval;
    var names := Words(alist);
    if |names| == |argv| - 1 && fuel > 0 {
      var inner := s.(vars := Bind([], names, argv[1..]), below := [s.vars] + s.below);
      FrameRule(inner, [vars] + b, body, fuel - 1);
      assert s.(vars := vars, below := b).(vars := Bind([], names, argv[1..]), below := [vars] + b)
          == inner.(below := [vars] + b);
    }
  }

  // ----- commands are never rebound -----

  /** Commands are only added, in front, and under new names. */
  ghost predicate Grown(before: seq<Cmd>, after: seq<Cmd>) {
    && |before| <= |after| && after[|after| - |before|..] == before
    && (Distinct(before) ==> Distinct(after))
  }

  ghost predicate Distinct(commands: seq<Cmd>) {
    forall i, j :: 0 <= i < j < |commands| ==> commands[i].name != commands[j].name
  }

  lemma GrownTwice(a: seq<Cmd>, b: seq<Cmd>, c: seq<Cmd>)
    requires Grown(a, b) && Grown(b, c)
    ensures Grown(a, c)
  {
    hide Distinct;
    assert c[|c| - |a|..] == c[|c| - |b|..][|b| - |a|..];
  }

  /** A name that has a definition keeps it. */
  lemma {:induction false} GrownKeeps(before: seq<Cmd>, after: seq<Cmd>, name: string)
    requires Grown(before, after) && Distinct(before) && Find(before, name).Some?
    ensures Find(after, name) == Find(before, name)
    decreases |after|
  {
    hide Distinct;
    if |after| == |before| {
      assert after == before;
    } else {
      Shorter(before, after);
      FoundIsThere(before, name);
      assert after[0].name != name by {
        var k :| 0 <= k < |before| && before[k].name == name;
        LaterName(before, after, k);
      }
      GrownKeeps(before, after[1..], name);
    }
  }

  lemma Shorter(before: seq<Cmd>, after: seq<Cmd>)
    requires Grown(before, after) && Distinct(before) && |before| < |after|
    ensures Grown(before, after[1..])
  {
    assert after[1..][|after| - 1 - |before|..] == after[|after| - |before|..];
  }

  lemma LaterName(before: seq<Cmd>, after: seq<Cmd>, k: nat)
    requires Grown(before, after) && Distinct(before) && |before| < |after| && k < |before|
    ensures after[0].name != before[k].name
  {
    assert before[k] == after[|after| - |before|..][k] == after[|after| - |before| + k];
  }

  lemma {:induction false} FoundIsThere(commands: seq<Cmd>, name: string)
    ensures Find(commands, name).Some? <==> exists k :: 0 <= k < |commands| && commands[k].name == name
    decreases |commands|
  {
    if commands != [] {
      FoundIsThere(commands[1..], name);
      if Find(commands[1..], name).Some? {
        var k :| 0 <= k < |commands| - 1 && commands[1..][k].name == name;
        assert commands[k + 1].name == name;
      }
      forall k | 0 <= k < |commands| && commands[k].name == name ensures Find(commands, name).Some? {
        if k > 0 { assert commands[1..][k - 1].name == name; }
      }
    }
  }

  lemma RegisterGrows(s: Interp, name: string, f: Func)
    ensures Grown(s.commands, Register(s, name, f).0.commands)
    ensures Register(s, name, f).1 == ERR <==> exists k :: 0 <= k < |s.commands| && s.commands[k].name == name
  {
    FoundIsThere(s.commands, name);
    var more := [Cmd(name, f)] + s.commands;
    assert more[1..] == s.commands;
    assert s.commands[0..] == s.commands;
  }

  lemma {:induction false} EvalGrows(s: Interp, t: string, fuel: nat)
    ensures Grown(s.commands, Eval(s, t, fuel).0.commands)
    decreases fuel, 3, 0, 0
  {
    hide Tokens, Grown;
    TokensGrow(s.(result := ""), t, FRESH, [], fuel);
  }

  lemma Same(c: seq<Cmd>)
    ensures Grown(c, c)
  {
    assert c[0..] == c;
  }

  lemma {:induction false} TokensGrow(s: Interp, text: string, p: P, argv: seq<string>, fuel: nat)
    requires p.pos <= |text| && (argv == [] ==> p.kind == SEP || p.kind == EOL)
    ensures Grown(s.commands, Tokens(s, text, p, argv, fuel).0.commands)
    decreases fuel, 2, |text| - p.pos, Rank(p.kind)
  {
    hide Next, Call, Value, Append, Grown;
    Same(s.commands);
    var next, r := Next(text, p), Tokens(s, text, p, argv, fuel).0;
    if next.Some? {
      var q := next.value;
      NextProgress(text, p);
      if q.kind == SEP || (q.kind == EOL && argv == []) {
        TokensGrow(s, text, q, argv, fuel);
      } else if q.kind == EOL {
        var (u, code) := Call(s, argv, fuel);
        CallGrows(s, argv, fuel);
        if code == OK {
          TokensGrow(u, text, q, [], fuel);
          GrownTwice(s.commands, u.commands, r.commands);
        }
      } else if q.kind != EOF {
        WordSpan(text, p);
        var (u, code, val) := Value(s, q.kind, text[q.start..q.stop], fuel);
        if q.kind == CMD && fuel > 0 { EvalGrows(s, text[q.start..q.stop], fuel - 1); }
        ValueCommands(s, q.kind, text[q.start..q.stop], fuel);
        if code == OK {
          TokensGrow(u, text, q, Append(argv, p.kind, val), fuel);
          GrownTwice(s.commands, u.commands, r.commands);
        }
      }
    }
  }

  lemma ValueCommands(s: Interp, kind: Kind, t: string, fuel: nat)
    ensures var u := Value(s, kind, t, fuel).0;
      u.commands == if kind == CMD && fuel > 0 then Eval(s, t, fuel - 1).0.commands else s.commands
  {
    hide Eval;
  }

  lemma {:induction false} CallGrows(s: Interp, argv: seq<string>, fuel: nat)
    requires argv != []
    ensures Grown(s.commands, Call(s, argv, fuel).0.commands)
    decreases fuel, 1, 0, 0
  {
    hide Apply, Grown;
    Same(s.commands);
    var f := Find(s.commands, argv[0]);
    if f.Some? { ApplyGrows(s, f.value, argv, fuel); }
  }

  lemma {:induction false} ApplyGrows(s: Interp, f: Func, argv: seq<string>, fuel: nat)
    requires argv != []
    ensures Grown(s.commands, Apply(s, f, argv, fuel).0.commands)
    decreases fuel, 0, 1, 0
  {
    hide Eval, Grown;
    Same(s.commands);
    match f
    case If =>
      if fuel > 0 && (|argv| == 3 || |argv| == 5) {
        EvalGrows(s, argv[1], fuel - 1);
        var u := Eval(s, argv[1], fuel - 1).0;
        var other := if |argv| == 5 then argv[4] else argv[2];
        EvalGrows(u, argv[2], fuel - 1);
        EvalGrows(u, other, fuel - 1);
        GrownTwice(s.commands, u.commands, Eval(u, argv[2], fuel - 1).0.commands);
        GrownTwice(s.commands, u.commands, Eval(u, other, fuel - 1).0.commands);
      }
    case While => if |argv| == 3 { LoopGrows(s, argv[1], argv[2], fuel); }
    case DefProc => if |argv| == 4 { RegisterGrows(s, argv[1], User(argv[2], argv[3])); }
    case User(alist, body) =>
      if |Words(alist)| == |argv| - 1 && fuel > 0 {
        EvalGrows(s.(vars := Bind([], Words(alist), argv[1..]), below := [s.vars] + s.below), body, fuel - 1);
      }
    case _ =>
  }

  lemma {:induction false} LoopGrows(s: Interp, cond: string, body: string, fuel: nat)
    ensures Grown(s.commands, Loop(s, cond, body, fuel).0.commands)
    decreases fuel, 0, 0, 0
  {
    hide Eval, Grown;
    Same(s.commands);
    if fuel > 0 {
      EvalGrows(s, cond, fuel - 1);
      var u := Eval(s, cond, fuel - 1).0;
      EvalGrows(u, body, fuel - 1);
      var v := Eval(u, body, fuel - 1).0;
      GrownTwice(s.commands, u.commands, v.commands);
      LoopGrows(v, cond, body, fuel - 1);
      GrownTwice(s.commands, v.commands, Loop(v, cond, body, fuel - 1).0.commands);
    }
  }

  /** Over any run from a table of distinct commands, a name that has a definition keeps it. */
  lemma CommandsStay(s: Interp, t: string, fuel: nat, name: string)
    requires Distinct(s.commands) && Find(s.commands, name).Some?
    ensures var u := Eval(s, t, fuel).0; Distinct(u.commands) && Find(u.commands, name) == Find(s.commands, name)
  {
    hide Eval;
    EvalGrows(s, t, fuel);
    GrownKeeps(s.commands, Eval(s, t, fuel).0.commands, name);
  }
}
