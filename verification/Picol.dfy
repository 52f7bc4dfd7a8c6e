/** picol.c: the parser whose fields the parse functions move along, and the interpreter that its commands change. */
module Picol {
  import opened Bytes
  import opened PicolToken
  import opened PicolEval

  class Parser {
    const text: string
    var p: nat          // current text position
    var len: int        // remaining length
    var start: nat      // token start
    var stop: nat       // one past the token's end
    var kind: Kind
    var insidequote: bool

    ghost function St(): P
      reads this
    {
      P(p, start, stop, kind, insidequote)
    }

    ghost predicate Valid()
      reads this
    {
      p + len == |text| && len >= 0
    }

    constructor (text: string)
      ensures Valid() && this.text == text && St() == FRESH
    {
      this.text, p, len := text, 0, |text|;
      start, stop, insidequote, kind := 0, 0, false, EOL;
    }

    /** The character at the current position, or the terminator. */
    function Peek(): char
      requires Valid()
      reads this
    {
      if p < |text| then text[p] else '\0'
    }

    method Advance()
      requires Valid() && len > 0
      modifies this`p, this`len
      ensures Valid() && p == old(p) + 1
    {
      p, len := p + 1, len - 1;
    }

    method ParseSep()
      requires Valid()
      modifies this
      ensures Valid() && var e := SepEnd(text, old(p)); St() == P(e, old(p), e, SEP, old(insidequote))
    {
      start := p;
      while Blank(Peek())
        invariant Valid() && SepEnd(text, p) == SepEnd(text, old(p))
        invariant start == old(p) && insidequote == old(insidequote)
        decreases len
      {
        Advance();
      }
      stop, kind := p, SEP;
    }

    method ParseEol()
      requires Valid()
      modifies this
      ensures Valid() && var e := EolEnd(text, old(p)); St() == P(e, old(p), e, EOL, old(insidequote))
    {
      start := p;
      while Ends(Peek())
        invariant Valid() && EolEnd(text, p) == EolEnd(text, old(p))
        invariant start == old(p) && insidequote == old(insidequote)
        decreases len
      {
        Advance();
      }
      stop, kind := p, EOL;
    }

    /** False when the scan steps over the terminator, after which the C code reads whatever lies behind the text. */
    method ParseCommand() returns (ok: bool)
      requires Valid() && len > 0
      modifies this
      ensures ok == Command(text, old(St())).Some?
      ensures ok ==> Valid() && St() == Command(text, old(St())).value
    {
      hide CommandEnd;
      var level, blevel := 1, 0;
      Advance();
      start := p;
      while len != 0
        invariant Valid() && start == old(p) + 1 && insidequote == old(insidequote)
        invariant level > 0 && blevel >= 0 && CommandEnd(text, p, level, blevel) == CommandEnd(text, start, 1, 0)
        decreases len
      {
        CommandSteps(text, p, level, blevel);
        if text[p] == '[' && blevel == 0 {
          level := level + 1;
        } else if text[p] == ']' && blevel == 0 {
          if level == 1 { break; }
          level := level - 1;
        } else if text[p] == '\\' {
          Advance();
          if len == 0 { return false; }
        } else if text[p] == '{' {
          blevel := blevel + 1;
        } else if text[p] == '}' {
          if blevel != 0 { blevel := blevel - 1; }
        }
        Advance();
      }
      CommandSteps(text, p, level, blevel);
      stop, kind := p, CMD;
      if Peek() == ']' { Advance(); }
      ok := true;
    }

    method ParseVar()
      requires Valid() && len > 0
      modifies this
      ensures Valid() && St() == Variable(text, old(St()))
    {
      Advance();
      start := p;
      while InName(Peek())
        invariant Valid() && start <= p && start == old(p) + 1 && insidequote == old(insidequote)
        invariant VarEnd(text, p) == VarEnd(text, start)
        decreases len
      {
        Advance();
      }
      if start == p {
        start, stop, kind := p - 1, p, STR;
      } else {
        stop, kind := p, VAR;
      }
    }

    method ParseBrace()
      requires Valid() && len > 0
      modifies this
      ensures Valid() && St() == Brace(text, old(St()))
    {
      hide BraceEnd;
      var level := 1;
      Advance();
      start := p;
      while true
        invariant Valid() && start == old(p) + 1 && insidequote == old(insidequote)
        invariant level > 0 && BraceEnd(text, p, level) == BraceEnd(text, start, 1)
        decreases len
      {
        BraceSteps(text, p, level);
        if len >= 2 && text[p] == '\\' {
          Advance();
        } else if len == 0 || text[p] == '}' {
          level := level - 1;
          if level == 0 || len == 0 {
            stop := p;
            if len != 0 { Advance(); }
            kind := STR;
            return;
          }
        } else if text[p] == '{' {
          level := level + 1;
        }
        Advance();
      }
    }

    method ParseString()
      requires Valid() && len > 0
      modifies this
      ensures Valid() && St() == Str(text, old(St()))
    {
      hide StringEnd, BraceEnd, Word;
      var newword := kind == SEP || kind == EOL || kind == STR;
      if newword && text[p] == '{' {
        ParseBrace();
        return;
      }
      if newword && text[p] == '"' {
        insidequote := true;
        Advance();
      }
      ParseWord();
    }

    /** The rest of picolParseString. */
    method ParseWord()
      requires Valid()
      modifies this
      ensures Valid() && St() == Word(text, old(p), old(insidequote))
    {
      hide StringEnd;
      start := p;
      ghost var from, quoted := p, insidequote;
      while len != 0
        invariant Valid() && start == from && insidequote == quoted
        invariant StringEnd(text, p, quoted) == StringEnd(text, from, quoted)
        decreases len
      {
        StringSteps(text, p, quoted);
        if text[p] == '\\' {
          if len >= 2 { Advance(); }
        } else if StopsString(text[p], insidequote) {
          stop, kind := p, ESC;
          if text[p] == '"' {
            Advance();
            insidequote := false;
          }
          return;
        }
        Advance();
      }
      StringSteps(text, p, quoted);
      stop, kind := p, ESC;
    }

    method ParseComment()
      requires Valid()
      modifies this`p, this`len
      ensures Valid() && p == LineEnd(text, old(p))
    {
      while len != 0 && text[p] != '\n'
        invariant Valid() && LineEnd(text, p) == LineEnd(text, old(p))
        decreases len
      {
        Advance();
      }
    }

    method GetToken() returns (ok: bool)
      requires Valid()
      modifies this
      ensures ok == Next(text, old(St())).Some?
      ensures ok ==> Valid() && St() == Next(text, old(St())).value
    {
      hide SepEnd, EolEnd, CommandEnd, VarEnd, BraceEnd, StringEnd;
      ok := true;
      if kind == EOL && len != 0 && text[p] == '#' { ParseComment(); }
      if len == 0 {
        kind := if kind != EOL && kind != EOF then EOL else EOF;
        return;
      }
      var c := text[p];
      if (c == ' ' || c == '\t' || c == '\r') && !insidequote {
        ParseSep();
      } else if (c == '\n' || c == ';') && !insidequote {
        ParseEol();
      } else if c == '[' {
        ok := ParseCommand();
      } else if c == '$' {
        ParseVar();
      } else {
        ParseString();
      }
    }
  }

  // ----- the interpreter -----

  class Interpreter {
    var vars: seq<Var>          // callframe->vars
    var below: seq<seq<Var>>    // the parents' variables
    var commands: seq<Cmd>
    var result: string
    var printed: seq<string>

    ghost function St(): Interp
      reads this
    {
      Interp(vars, below, commands, result, printed)
    }

    /** `picolInitInterp`. */
    constructor ()
      ensures St() == Interp([], [], [], "", [])
    {
      vars, below, commands, result, printed := [], [], [], "", [];
    }

    method FindVar(name: string) returns (k: nat)
      ensures k <= |vars| && (k < |vars| <==> GetVar(vars, name).Some?)
      ensures k < |vars| ==> vars[k].name == name && GetVar(vars, name) == Some(vars[k].val)
      ensures forall j :: 0 <= j < k ==> vars[j].name != name
    {
      k := 0;
      assert vars[0..] == vars;
      while k < |vars| && vars[k].name != name
        invariant k <= |vars| && GetVar(vars[k..], name) == GetVar(vars, name)
        invariant forall j :: 0 <= j < k ==> vars[j].name != name
      {
        assert vars[k..][1..] == vars[k + 1..];
        k := k + 1;
      }
    }

    /** `picolSetVar`. */
    method Assign(name: string, val: string)
      modifies this`vars
      ensures vars == SetVar(old(vars), name, val)
    {
      var k := FindVar(name);
      if k < |vars| {
        ChangedIsUpdate(vars, k, name, val);
        vars := vars[k := Var(name, val)];
      } else {
        vars := [Var(name, val)] + vars;
      }
    }

    /** `picolGetCommand`. */
    method GetCommand(name: string) returns (f: Option<Func>)
      ensures f == Find(commands, name)
    {
      var k := 0;
      assert commands[0..] == commands;
      while k < |commands|
        invariant 0 <= k <= |commands| && Find(commands[k..], name) == Find(commands, name)
      {
        if commands[k].name == name { return Some(commands[k].func); }
        assert commands[k..][1..] == commands[k + 1..];
        k := k + 1;
      }
      f := None;
    }

    /** `picolRegisterCommand`. */
    method RegisterCommand(name: string, f: Func) returns (code: Code)
      modifies this
      ensures (St(), code) == Register(old(St()), name, f)
    {
      var c := GetCommand(name);
      if c.Some? {
        result := Clip("Command '" + name + "' already defined");
        return ERR;
      }
      commands := [Cmd(name, f)] + commands;
      code := OK;
    }

    /** `picolEval`. */
    method Run(t: string, fuel: nat) returns (code: Code)
      modifies this
      ensures (St(), code) == Eval(old(St()), t, fuel)
      decreases fuel, 3, 0
    {
      hide Next, Value, Call, Append;
      result := "";
      var ps := new Parser(t);
      var argv: seq<string> := [];
      while true
        invariant fresh(ps) && ps.Valid() && ps.text == t && (argv == [] ==> ps.kind == SEP || ps.kind == EOL)
        invariant Tokens(St(), t, ps.St(), argv, fuel) == Eval(old(St()), t, fuel)
        decreases |t| - ps.p, Rank(ps.kind)
      {
        var prevtype := ps.kind;
        ghost var at := ps.St();
        TokenProgress(t, at);
        var ok := ps.GetToken();
        if !ok { return OVERRUN; }
        if ps.kind == EOF { return OK; }
        if ps.kind == SEP { continue; }
        if ps.kind == EOL {
          if argv != [] {
            code := CallCommand(argv, fuel);
            if code != OK { return; }
          }
          argv := [];
          continue;
        }
        WordSpan(t, at);
        var val;
        code, val := WordValue(ps.kind, t[ps.start..ps.stop], fuel);
        if code != OK { return; }
        argv := Append(argv, prevtype, val);
      }
    }

    /** What a word token is replaced by. */
    method WordValue(kind: Kind, t: string, fuel: nat) returns (code: Code, val: string)
      modifies this
      ensures (St(), code, val) == Value(old(St()), kind, t, fuel)
      decreases fuel, 2, 0
    {
      hide Eval;
      if kind == VAR {
        var k := FindVar(t);
        if k == |vars| {
          result := Clip("No such variable '" + t + "'");
          return ERR, "";
        }
        return OK, vars[k].val;
      } else if kind == CMD {
        if fuel == 0 { return EXHAUSTED, ""; }
        code := Run(t, fuel - 1);
        val := result;
      } else {
        return OK, t;
      }
    }

    method CallCommand(argv: seq<string>, fuel: nat) returns (code: Code)
      requires argv != []
      modifies this
      ensures (St(), code) == Call(old(St()), argv, fuel)
      decreases fuel, 2, 0
    {
      hide Eval, Conditional, Loop, CallProc;
      var c := GetCommand(argv[0]);
      if c.None? {
        result := Clip("No such command '" + argv[0] + "'");
        return ERR;
      }
      match c.value
      case Math => code := CommandMath(argv);
      case Set => code := CommandSet(argv);
      case Puts => code := CommandPuts(argv);
      case If => code := CommandIf(argv, fuel);
      case While => code := CommandWhile(argv, fuel);
      case RetCodes => code := CommandRetCodes(argv);
      case DefProc => code := CommandProc(argv);
      case Ret => code := CommandReturn(argv);
      case User(alist, body) => code := CommandCallProc(alist, body, argv, fuel);
    }

    method ArityError(name: string) returns (code: Code)
      modifies this`result
      ensures (St(), code) == ArityErr(old(St()), name)
    {
      result := Clip("Wrong number of args for " + name);
      code := ERR;
    }

    method CommandMath(argv: seq<string>) returns (code: Code)
      requires argv != []
      modifies this
      ensures (St(), code) == Apply(old(St()), Math, argv, 0)
    {
      hide Show, Atol, Quotient;
      if |argv| != 3 {
        code := ArityError(argv[0]);
        return;
      }
      var a, b, c := Atol(argv[1]), Atol(argv[2]), 0;
      var o, o' := Char(argv[0], 0), Char(argv[0], 1);
      if (b == 0 && o == '/') || o == '%' {
        result := "Division by zero";
        return ERR;
      }
      if o == '+' {
        c := a + b;
      } else if o == '-' {
        c := a - b;
      } else if o == '*' {
        c := a * b;
      } else if o == '/' {
        c := Quotient(a, b);
      } else if o == '>' && o' == '\0' {
        c := if a > b then 1 else 0;
      } else if o == '>' && o' == '=' {
        c := if a >= b then 1 else 0;
      } else if o == '<' && o' == '\0' {
        c := if a < b then 1 else 0;
      } else if o == '<' && o' == '=' {
        c := if a <= b then 1 else 0;
      } else if o == '=' && o' == '=' {
        c := if a == b then 1 else 0;
      } else if o == '!' && o' == '=' {
        c := if a != b then 1 else 0;
      }
      result := Show(c);
      code := OK;
    }

    method CommandSet(argv: seq<string>) returns (code: Code)
      requires argv != []
      modifies this
      ensures (St(), code) == Apply(old(St()), Set, argv, 0)
    {
      if |argv| != 3 {
        code := ArityError(argv[0]);
        return;
      }
      Assign(argv[1], argv[2]);
      result := argv[2];
      code := OK;
    }

    method CommandPuts(argv: seq<string>) returns (code: Code)
      requires argv != []
      modifies this
      ensures (St(), code) == Apply(old(St()), Puts, argv, 0)
    {
      if |argv| != 2 {
        code := ArityError(argv[0]);
        return;
      }
      printed := printed + [argv[1]];
      code := OK;
    }

    method CommandIf(argv: seq<string>, fuel: nat) returns (code: Code)
      requires argv != []
      modifies this
      ensures (St(), code) == Conditional(old(St()), argv, fuel)
      decreases fuel, 1, 0
    {
      hide Eval;
      if |argv| != 3 && |argv| != 5 {
        code := ArityError(argv[0]);
        return;
      }
      if fuel == 0 { return EXHAUSTED; }
      code := Run(argv[1], fuel - 1);
      if code != OK { return; }
      if Atol(result) != 0 {
        code := Run(argv[2], fuel - 1);
      } else if |argv| == 5 {
        code := Run(argv[4], fuel - 1);
      }
    }

    method CommandWhile(argv: seq<string>, fuel: nat) returns (code: Code)
      requires argv != []
      modifies this
      ensures (St(), code) == Apply(old(St()), While, argv, fuel)
      decreases fuel, 1, 0
    {
      hide Eval;
      if |argv| != 3 {
        code := ArityError(argv[0]);
        return;
      }
      var left: nat := fuel;
      while left > 0
        invariant left <= fuel && Loop(St(), argv[1], argv[2], left) == Loop(old(St()), argv[1], argv[2], fuel)
      {
        left := left - 1;
        code := Run(argv[1], left);
        if code != OK { return; }
        if Atol(result) == 0 { return OK; }
        code := Run(argv[2], left);
        if code == BREAK { return OK; }
        if code != OK && code != CONTINUE { return; }
      }
      code := EXHAUSTED;
    }

    method CommandRetCodes(argv: seq<string>) returns (code: Code)
      requires argv != []
      modifies this
      ensures (St(), code) == Apply(old(St()), RetCodes, argv, 0)
    {
      if |argv| != 1 {
        code := ArityError(argv[0]);
      } else if argv[0] == "break" {
        code := BREAK;
      } else if argv[0] == "continue" {
        code := CONTINUE;
      } else {
        code := OK;
      }
    }

    method CommandProc(argv: seq<string>) returns (code: Code)
      requires argv != []
      modifies this
      ensures (St(), code) == Apply(old(St()), DefProc, argv, 0)
    {
      if |argv| != 4 {
        code := ArityError(argv[0]);
      } else {
        code := RegisterCommand(argv[1], User(argv[2], argv[3]));
      }
    }

    method CommandReturn(argv: seq<string>) returns (code: Code)
      requires argv != []
      modifies this
      ensures (St(), code) == Apply(old(St()), Ret, argv, 0)
    {
      if |argv| != 1 && |argv| != 2 {
        code := ArityError(argv[0]);
        return;
      }
      result := if |argv| == 2 then argv[1] else "";
      code := RETURN;
    }

    /** `picolDropCallFrame`. */
    method DropCallFrame()
      requires below != []
      modifies this`vars, this`below
      ensures vars == old(below)[0] && below == old(below)[1..]
    {
      vars := below[0];
      below := below[1..];
    }

    /** The loop over the parameter list, which binds as it goes. */
    method BindParameters(alist: string, argv: seq<string>) returns (ok: bool)
      requires argv != [] && vars == []
      modifies this`vars
      ensures ok == (|Words(alist)| == |argv| - 1)
      ensures ok ==> vars == Bind([], Words(alist), argv[1..])
    {
      hide Words, WordsFrom, Bind, SetVar;
      var p, arity := 0, 0;
      ghost var names: seq<string> := [];
      WordsStart(alist);
      assert argv[1..1] == [];
      while true
        invariant 0 <= p <= |alist| && 0 <= arity == |names| <= |argv| - 1
        invariant Words(alist) == names + WordsFrom(alist[p..], "")
        invariant vars == Bind([], names, argv[1..arity + 1])
        decreases |alist| - p
      {
        var start := p;
        while p < |alist| && alist[p] != ' '
          invariant start <= p <= |alist| && forall k :: start <= k < p ==> alist[k] != ' '
        {
          p := p + 1;
        }
        NextWord(alist, start, p);
        if p < |alist| && p == start {
          p := p + 1;
          continue;
        }
        if p == start {
          assert Words(alist) == names;
          break;
        }
        arity := arity + 1;
        if arity > |argv| - 1 { return false; }
        BindOneMore([], names, argv[1..arity], alist[start..p], argv[arity]);
        assert argv[1..arity] + [argv[arity]] == argv[1..arity + 1];
        Assign(alist[start..p], argv[arity]);
        names := names + [alist[start..p]];
        if p == |alist| {
          assert Words(alist) == names;
          break;
        }
        p := p + 1;
      }
      assert arity == |argv| - 1 ==> argv[1..arity + 1] == argv[1..];
      ok := arity == |argv| - 1;
    }

    method CommandCallProc(alist: string, body: string, argv: seq<string>, fuel: nat) returns (code: Code)
      requires argv != []
      modifies this
      ensures (St(), code) == CallProc(old(St()), alist, body, argv, fuel)
      decreases fuel, 1, 0
    {
      hide Eval, Words, Bind;
      below, vars := [vars] + below, [];
      var ok := BindParameters(alist, argv);
      if !ok {
        result := Clip("Proc '" + argv[0] + "' called with wrong arg num");
        DropCallFrame();
        return ERR;
      }
      if fuel == 0 {
        DropCallFrame();
        return EXHAUSTED;
      }
      code := Run(body, fuel - 1);
      if code == RETURN { code := OK; }
      DropCallFrame();
    }
  }

  /** A character the scan for a closing bracket only passes over. */
  predicate IsPlain(c: char, blevel: nat) {
    && c != '\\' && c != '{' && (c == '}' ==> blevel == 0)
    && (c == '[' || c == ']' ==> blevel > 0)
  }

  /** One turn of the scan for a closing bracket. */
  lemma CommandSteps(text: string, pos: nat, level: nat, blevel: nat)
    requires pos <= |text| && level > 0
    ensures pos == |text| ==> CommandEnd(text, pos, level, blevel) == Some(pos)
    ensures pos < |text| && text[pos] == '[' && blevel == 0 ==>
      CommandEnd(text, pos, level, blevel) == CommandEnd(text, pos + 1, level + 1, blevel)
    ensures pos < |text| && text[pos] == ']' && blevel == 0 ==>
      CommandEnd(text, pos, level, blevel)
        == (if level == 1 then Some(pos) else CommandEnd(text, pos + 1, level - 1, blevel))
    ensures pos < |text| && text[pos] == '\\' ==>
      CommandEnd(text, pos, level, blevel)
        == (if pos + 1 == |text| then None else CommandEnd(text, pos + 2, level, blevel))
    ensures pos < |text| && text[pos] == '{' ==>
      CommandEnd(text, pos, level, blevel) == CommandEnd(text, pos + 1, level, blevel + 1)
    ensures pos < |text| && text[pos] == '}' && blevel != 0 ==>
      CommandEnd(text, pos, level, blevel) == CommandEnd(text, pos + 1, level, blevel - 1)
    ensures pos < |text| && IsPlain(text[pos], blevel) ==>
      CommandEnd(text, pos, level, blevel) == CommandEnd(text, pos + 1, level, blevel)
  {
  }

  /** One turn of the scan of a plain word. */
  lemma StringSteps(text: string, pos: nat, quoted: bool)
    requires pos <= |text|
    ensures pos == |text| ==> StringEnd(text, pos, quoted) == pos
    ensures pos + 1 < |text| && text[pos] == '\\' ==> StringEnd(text, pos, quoted) == StringEnd(text, pos + 2, quoted)
    ensures pos + 1 == |text| && text[pos] == '\\' ==> StringEnd(text, pos, quoted) == StringEnd(text, pos + 1, quoted)
    ensures pos < |text| && text[pos] != '\\' && StopsString(text[pos], quoted) ==> StringEnd(text, pos, quoted) == pos
    ensures pos < |text| && text[pos] != '\\' && !StopsString(text[pos], quoted) ==>
      StringEnd(text, pos, quoted) == StringEnd(text, pos + 1, quoted)
  {
  }

  lemma TokenProgress(text: string, p: P)
    requires p.pos <= |text|
    ensures Next(text, p).Some? ==>
      (var q := Next(text, p).value;
        && p.pos <= q.pos <= |text|
        && (p.pos < |text| ==> p.pos < q.pos)
        && (p.pos == |text| ==> q.kind == EOF || (q.kind == EOL && Rank(p.kind) == 2)))
  {
    if Next(text, p).Some? { NextProgress(text, p); }
  }

  lemma {:induction false} ChangedIsUpdate(vars: seq<Var>, k: nat, name: string, val: string)
    requires k < |vars| && vars[k].name == name && forall j :: 0 <= j < k ==> vars[j].name != name
    ensures Changed(vars, name, val) == vars[k := Var(name, val)]
    decreases k
  {
    if k > 0 {
      ChangedIsUpdate(vars[1..], k - 1, name, val);
      assert vars[k := Var(name, val)] == [vars[0]] + vars[1..][k - 1 := Var(name, val)];
    } else {
      assert vars[k := Var(name, val)] == [Var(name, val)] + vars[1..];
    }
  }

  lemma WordsStart(alist: string)
    ensures Words(alist) == [] + WordsFrom(alist[0..], "")
    ensures Bind([], [], []) == []
  {
    assert alist[0..] == alist;
  }

  /** A word without spaces is collected whole. */
  lemma {:induction false} WordsCollect(alist: string, n: nat, word: string)
    requires n <= |alist| && forall k :: 0 <= k < n ==> alist[k] != ' '
    ensures WordsFrom(alist, word) == WordsFrom(alist[n..], word + alist[..n])
    decreases n
  {
    if n == 0 {
      assert alist[n..] == alist && word + alist[..n] == word;
    } else {
      WordsCollect(alist[1..], n - 1, word + [alist[0]]);
      assert alist[1..][n - 1..] == alist[n..];
      assert word + [alist[0]] + alist[1..][..n - 1] == word + alist[..n];
    }
  }

  lemma NextWord(alist: string, start: nat, p: nat)
    requires start <= p <= |alist| && (forall k :: start <= k < p ==> alist[k] != ' ')
    requires (p < |alist| ==> alist[p] == ' ')
    ensures WordsFrom(alist[start..], "") ==
      (if p == start then [] else [alist[start..p]]) + (if p < |alist| then WordsFrom(alist[p + 1..], "") else [])
  {
    var rest := alist[start..];
    WordsCollect(rest, p - start, "");
    assert rest[p - start..] == alist[p..] && "" + rest[..p - start] == alist[start..p];
    if p < |alist| { assert alist[p..][1..] == alist[p + 1..]; }
  }

  lemma {:induction false} BindOneMore(vars: seq<Var>, names: seq<string>, vals: seq<string>, name: string, val: string)
    requires |names| == |vals|
    ensures Bind(vars, names + [name], vals + [val]) == SetVar(Bind(vars, names, vals), name, val)
    decreases |names|
  {
    hide SetVar;
    if names == [] {
      assert names + [name] == [name] && vals + [val] == [val];
      assert [name][1..] == [] && [val][1..] == [];
    } else {
      BindOneMore(SetVar(vars, names[0], vals[0]), names[1..], vals[1..], name, val);
      assert (names + [name])[1..] == names[1..] + [name] && (vals + [val])[1..] == vals[1..] + [val];
    }
  }
}
