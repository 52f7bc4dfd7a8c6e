/** picol's evaluator: what a script does to the interpreter, and what it can never do. */
module PicolEval {
  import opened Bytes
  import opened PicolToken

  // ----- numbers -----

  predicate IsSpace(c: char) { c == ' ' || '\t' <= c <= '\r' }
  predicate IsDigit(c: char) { '0' <= c <= '9' }

  /** `atol`, on numbers of any size. */
  function Atol(s: string): int
    decreases |s|
  {
    if s == [] then 0
    else if IsSpace(s[0]) then Atol(s[1..])
    else if s[0] == '-' then -(Digits(s[1..], 0) as int)
    else if s[0] == '+' then Digits(s[1..], 0)
    else Digits(s, 0)
  }

  function Digits(s: string, acc: nat): nat
    decreases |s|
  {
    if s == [] || !IsDigit(s[0]) then acc else Digits(s[1..], 10 * acc + (s[0] as int - '0' as int))
  }

  function ShowNat(n: nat): (s: string)
    ensures s != [] && forall k :: 0 <= k < |s| ==> IsDigit(s[k])
  {
    if n < 10 then ['0' + n as char] else ShowNat(n / 10) + ['0' + (n % 10) as char]
  }

  /** `%ld`. */
  function Show(n: int): string {
    if n < 0 then "-" + ShowNat(-n) else ShowNat(n)
  }

  lemma {:induction false} DigitsAppend(s: string, c: char, acc: nat)
    requires IsDigit(c) && forall k :: 0 <= k < |s| ==> IsDigit(s[k])
    ensures Digits(s + [c], acc) == 10 * Digits(s, acc) + (c as int - '0' as int)
    decreases |s|
  {
    if s == [] {
      assert (s + [c])[1..] == [];
    } else {
      assert (s + [c])[1..] == s[1..] + [c];
      DigitsAppend(s[1..], c, 10 * acc + (s[0] as int - '0' as int));
    }
  }

  lemma {:induction false} DigitsOfShow(n: nat)
    ensures Digits(ShowNat(n), 0) == n
    decreases n
  {
    if n < 10 {
      assert ShowNat(n)[1..] == [];
    } else {
      DigitsOfShow(n / 10);
      DigitsAppend(ShowNat(n / 10), '0' + (n % 10) as char, 0);
    }
  }

  /** Reading back a printed number gives that number. */
  lemma NumberRoundTrip(n: int)
    ensures Atol(Show(n)) == n
  {
    if n < 0 {
      DigitsOfShow(-n);
      assert Show(n)[1..] == ShowNat(-n);
    } else {
      DigitsOfShow(n);
    }
  }

  /** C's division. */
  function Quotient(a: int, b: int): int
    requires b != 0
  {
    if a >= 0 then if b > 0 then a / b else -(a / -b)
    else if b > 0 then -(-a / b) else -a / -b
  }

  // ----- the interpreter -----

  datatype Code = OK | ERR | RETURN | BREAK | CONTINUE | EXHAUSTED | OVERRUN

  datatype Var = Var(name: string, val: string)

  datatype Func = Math | Set | Puts | If | While | RetCodes | DefProc | Ret | User(alist: string, body: string)

  datatype Cmd = Cmd(name: string, func: Func)

  /** The current frame's variables, those of the frames below it, the commands, the result, and what was printed. */
  datatype Interp =
    Interp(vars: seq<Var>, below: seq<seq<Var>>, commands: seq<Cmd>, result: string, printed: seq<string>)

  function GetVar(vars: seq<Var>, name: string): Option<string>
    decreases |vars|
  {
    if vars == [] then None else if vars[0].name == name then Some(vars[0].val) else GetVar(vars[1..], name)
  }

  /** Changes the variable where it is, or puts a new one in front. */
  function SetVar(vars: seq<Var>, name: string, val: string): seq<Var> {
    if GetVar(vars, name).Some? then Changed(vars, name, val) else [Var(name, val)] + vars
  }

  function Changed(vars: seq<Var>, name: string, val: string): seq<Var>
    decreases |vars|
  {
    if vars == [] then []
    else if vars[0].name == name then [Var(name, val)] + vars[1..]
    else [vars[0]] + Changed(vars[1..], name, val)
  }

  /** Setting a variable is an update of a map. */
  lemma {:induction false} SetGet(vars: seq<Var>, name: string, val: string, other: string)
    ensures GetVar(SetVar(vars, name, val), other) == if other == name then Some(val) else GetVar(vars, other)
    decreases |vars|
  {
    if vars != [] && vars[0].name != name {
      SetGet(vars[1..], name, val, other);
      assert ([vars[0]] + Changed(vars[1..], name, val))[1..] == Changed(vars[1..], name, val);
    }
    if vars != [] && vars[0].name == name {
      assert ([Var(name, val)] + vars[1..])[1..] == vars[1..];
    }
    assert ([Var(name, val)] + vars)[1..] == vars;
  }

  function Find(commands: seq<Cmd>, name: string): Option<Func>
    decreases |commands|
  {
    if commands == [] then None
    else if commands[0].name == name then Some(commands[0].func) else Find(commands[1..], name)
  }

  /** What fits a 1024-byte message buffer. */
  function Clip(s: string): string {
    if |s| < 1024 then s else s[..1023]
  }

  function Fail(s: Interp, message: string): (Interp, Code) {
    (s.(result := Clip(message)), ERR)
  }

  function ArityErr(s: Interp, name: string): (Interp, Code) {
    Fail(s, "Wrong number of args for " + name)
  }

  function Register(s: Interp, name: string, f: Func): (Interp, Code) {
    if Find(s.commands, name).Some? then Fail(s, "Command '" + name + "' already defined")
    else (s.(commands := [Cmd(name, f)] + s.commands), OK)
  }

  /** The character at a place, or the terminator. */
  function Char(s: string, k: nat): char { if k < |s| then s[k] else '\0' }

  function MathCmd(s: Interp, argv: seq<string>): (Interp, Code)
    requires argv != []
  {
    if |argv| != 3 then ArityErr(s, argv[0])
    else
      var a, b, o, o' := Atol(argv[1]), Atol(argv[2]), Char(argv[0], 0), Char(argv[0], 1);
      if (b == 0 && o == '/') || o == '%' then (s.(result := "Division by zero"), ERR)
      else
        var c :=
          if o == '+' then a + b
          else if o == '-' then a - b
          else if o == '*' then a * b
          else if o == '/' then Quotient(a, b)
          else if (o == '>' && o' == '\0' && a > b) || (o == '>' && o' == '=' && a >= b)
            || (o == '<' && o' == '\0' && a < b) || (o == '<' && o' == '=' && a <= b)
            || (o == '=' && o' == '=' && a == b) || (o == '!' && o' == '=' && a != b) then 1
          else 0;
        (s.(result := Show(c)), OK)
  }

  /** The parameter names of a procedure: the words between spaces. */
  function Words(alist: string): seq<string> { WordsFrom(alist, "") }

  function WordsFrom(alist: string, word: string): seq<string>
    decreases |alist|
  {
    var flushed := if word == "" then [] else [word];
    if alist == [] then flushed
    else if alist[0] == ' ' then flushed + WordsFrom(alist[1..], "")
    else WordsFrom(alist[1..], word + [alist[0]])
  }

  function Bind(vars: seq<Var>, names: seq<string>, vals: seq<string>): seq<Var>
    requires |names| == |vals|
    decreases |names|
  {
    if names == [] then vars else Bind(SetVar(vars, names[0], vals[0]), names[1..], vals[1..])
  }

  function Append(argv: seq<string>, prev: Kind, val: string): (r: seq<string>)
    requires argv == [] ==> prev == SEP || prev == EOL
    ensures r != []
  {
    if prev == SEP || prev == EOL then argv + [val] else argv[..|argv| - 1] + [argv[|argv| - 1] + val]
  }

  // ----- evaluation -----

  /** `picolEval`, to a depth of `fuel` calls and turns of loops. No evaluation changes the frames below its own. */
  function Eval(s: Interp, t: string, fuel: nat): (r: (Interp, Code))
    ensures r.0.below == s.below
    decreases fuel, 3, 0, 0
  {
    Tokens(s.(result := ""), t, FRESH, [], fuel)
  }

  /** Its loop over tokens, with the words of the command so far. */
  function Tokens(s: Interp, text: string, p: P, argv: seq<string>, fuel: nat): (r: (Interp, Code))
    requires p.pos <= |text| && (argv == [] ==> p.kind == SEP || p.kind == EOL)
    ensures r.0.below == s.below
    decreases fuel, 2, |text| - p.pos, Rank(p.kind)
  {
    var next := Next(text, p);
    if next.None? then (s, OVERRUN)
    else
      var q := next.value;
      NextProgress(text, p);
      if q.kind == EOF then (s, OK)
      else if q.kind == SEP then Tokens(s, text, q, argv, fuel)
      else if q.kind == EOL then
        if argv == [] then Tokens(s, text, q, [], fuel)
        else
          var (u, code) := Call(s, argv, fuel);
          if code != OK then (u, code) else Tokens(u, text, q, [], fuel)
      else
        WordSpan(text, p);
        var (u, code, val) := Value(s, q.kind, text[q.start..q.stop], fuel);
        if code != OK then (u, code) else Tokens(u, text, q, Append(argv, p.kind, val), fuel)
  }

  lemma WordSpan(text: string, p: P)
    requires p.pos <= |text| && Next(text, p).Some? && IsWord(Next(text, p).value.kind)
    ensures var q := Next(text, p).value; q.start <= q.stop <= |text|
  {
    if AfterComment(text, p) < |text| { NextCovers(text, p); }
  }

  /** What a word token stands for. */
  function Value(s: Interp, kind: Kind, t: string, fuel: nat): (r: (Interp, Code, string))
    ensures r.0.below == s.below
    decreases fuel, 1, 0, 0
  {
    if kind == VAR then
      var v := GetVar(s.vars, t);
      if v.None? then (s.(result := Clip("No such variable '" + t + "'")), ERR, "") else (s, OK, v.value)
    else if kind == CMD then
      if fuel == 0 then (s, EXHAUSTED, "")
      else
        var (u, code) := Eval(s, t, fuel - 1);
        (u, code, u.result)
    else (s, OK, t)
  }

  function Call(s: Interp, argv: seq<string>, fuel: nat): (r: (Interp, Code))
    requires argv != []
    ensures r.0.below == s.below
    decreases fuel, 1, 0, 0
  {
    var f := Find(s.commands, argv[0]);
    if f.None? then Fail(s, "No such command '" + argv[0] + "'") else Apply(s, f.value, argv, fuel)
  }

  function Apply(s: Interp, f: Func, argv: seq<string>, fuel: nat): (r: (Interp, Code))
    requires argv != []
    ensures r.0.below == s.below
    decreases fuel, 0, 1, 0
  {
    match f
    case Math => MathCmd(s, argv)
    case Set =>
      if |argv| != 3 then ArityErr(s, argv[0])
      else (s.(vars := SetVar(s.vars, argv[1], argv[2]), result := argv[2]), OK)
    case Puts => if |argv| != 2 then ArityErr(s, argv[0]) else (s.(printed := s.printed + [argv[1]]), OK)
    case If => Conditional(s, argv, fuel)
    case While => if |argv| != 3 then ArityErr(s, argv[0]) else Loop(s, argv[1], argv[2], fuel)
    case RetCodes =>
      if |argv| != 1 then ArityErr(s, argv[0])
      else (s, if argv[0] == "break" then BREAK else if argv[0] == "continue" then CONTINUE else OK)
    case DefProc => if |argv| != 4 then ArityErr(s, argv[0]) else Register(s, argv[1], User(argv[2], argv[3]))
    case Ret =>
      if |argv| != 1 && |argv| != 2 then ArityErr(s, argv[0])
      else (s.(result := if |argv| == 2 then argv[1] else ""), RETURN)
    case User(alist, body) => CallProc(s, alist, body, argv, fuel)
  }

  function Conditional(s: Interp, argv: seq<string>, fuel: nat): (r: (Interp, Code))
    requires argv != []
    ensures r.0.below == s.below
    decreases fuel, 0, 0, 0
  {
    if |argv| != 3 && |argv| != 5 then ArityErr(s, argv[0])
    else if fuel == 0 then (s, EXHAUSTED)
    else
      var (u, code) := Eval(s, argv[1], fuel - 1);
      if code != OK then (u, code)
      else if Atol(u.result) != 0 then Eval(u, argv[2], fuel - 1)
      else if |argv| == 5 then Eval(u, argv[4], fuel - 1)
      else (u, OK)
  }

  function Loop(s: Interp, cond: string, body: string, fuel: nat): (r: (Interp, Code))
    ensures r.0.below == s.below
    decreases fuel, 0, 0, 0
  {
    if fuel == 0 then (s, EXHAUSTED)
    else
      var (u, code) := Eval(s, cond, fuel - 1);
      if code != OK then (u, code)
      else if Atol(u.result) == 0 then (u, OK)
      else
        var (v, code') := Eval(u, body, fuel - 1);
        if code' == OK || code' == CONTINUE then Loop(v, cond, body, fuel - 1)
        else if code' == BREAK then (v, OK)
        else (v, code')
  }

  /** A procedure runs in a frame of its own, which is gone whichever way it ends. */
  function CallProc(s: Interp, alist: string, body: string, argv: seq<string>, fuel: nat): (r: (Interp, Code))
    requires argv != []
    ensures r.0.below == s.below && r.0.vars == s.vars
    decreases fuel, 0, 0, 0
  {
    var names := Words(alist);
    if |names| != |argv| - 1 then Fail(s, "Proc '" + argv[0] + "' called with wrong arg num")
    else if fuel == 0 then (s, EXHAUSTED)
    else
      var (u, code) := Eval(s.(vars := Bind([], names, argv[1..]), below := [s.vars] + s.below), body, fuel - 1);
      (u.(vars := u.below[0], below := u.below[1..]), if code == RETURN then OK else code)
  }
}
