/** picol's tokens: what one call of the tokenizer does to its state. */
module PicolToken {
  import opened Bytes

  datatype Kind = ESC | STR | CMD | VAR | SEP | EOL | EOF

  /** The parser's position, and the last token: its text is `text[start..stop]`. */
  datatype P = P(pos: nat, start: nat, stop: nat, kind: Kind, quoted: bool)

  const FRESH := P(0, 0, 0, EOL, false)

  predicate Blank(c: char) { c == ' ' || c == '\t' || c == '\n' || c == '\r' }
  predicate Ends(c: char) { Blank(c) || c == ';' }
  predicate InName(c: char) { 'a' <= c <= 'z' || 'A' <= c <= 'Z' || '0' <= c <= '9' || c == '_' }

  // ----- where scans stop -----

  function SepEnd(text: string, pos: nat): (e: nat)
    requires pos <= |text|
    ensures pos <= e <= |text| && (forall k :: pos <= k < e ==> Blank(text[k])) && (e < |text| ==> !Blank(text[e]))
    decreases |text| - pos
  {
    if pos < |text| && Blank(text[pos]) then SepEnd(text, pos + 1) else pos
  }

  function EolEnd(text: string, pos: nat): (e: nat)
    requires pos <= |text|
    ensures pos <= e <= |text| && (forall k :: pos <= k < e ==> Ends(text[k])) && (e < |text| ==> !Ends(text[e]))
    decreases |text| - pos
  {
    if pos < |text| && Ends(text[pos]) then EolEnd(text, pos + 1) else pos
  }

  function VarEnd(text: string, pos: nat): (e: nat)
    requires pos <= |text|
    ensures pos <= e <= |text| && (forall k :: pos <= k < e ==> InName(text[k])) && (e < |text| ==> !InName(text[e]))
    decreases |text| - pos
  {
    if pos < |text| && InName(text[pos]) then VarEnd(text, pos + 1) else pos
  }

  function LineEnd(text: string, pos: nat): (e: nat)
    requires pos <= |text|
    ensures pos <= e <= |text| && (forall k :: pos <= k < e ==> text[k] != '\n') && (e < |text| ==> text[e] == '\n')
    decreases |text| - pos
  {
    if pos < |text| && text[pos] != '\n' then LineEnd(text, pos + 1) else pos
  }

  /**
   The end of a command substitution: its closing bracket, or the end of the text. None when the scan runs past the end,
   which a backslash in the last place makes it do.
   */
  function CommandEnd(text: string, pos: nat, level: nat, blevel: nat): (e: Option<nat>)
    requires pos <= |text| && level > 0
    ensures e.Some? ==> pos <= e.value <= |text| && (e.value < |text| ==> text[e.value] == ']')
    decreases |text| - pos
  {
    if pos == |text| then Some(pos)
    else if text[pos] == '[' && blevel == 0 then CommandEnd(text, pos + 1, level + 1, blevel)
    else if text[pos] == ']' && blevel == 0 then
      if level == 1 then Some(pos) else CommandEnd(text, pos + 1, level - 1, blevel)
    else if text[pos] == '\\' then
      if pos + 1 == |text| then None else CommandEnd(text, pos + 2, level, blevel)
    else if text[pos] == '{' then CommandEnd(text, pos + 1, level, blevel + 1)
    else if text[pos] == '}' && blevel != 0 then CommandEnd(text, pos + 1, level, blevel - 1)
    else CommandEnd(text, pos + 1, level, blevel)
  }

  /** The end of a braced word: its closing brace, or the end of the text. */
  function BraceEnd(text: string, pos: nat, level: nat): (e: nat)
    requires pos <= |text| && level > 0
    ensures pos <= e <= |text| && (e < |text| ==> text[e] == '}')
    decreases |text| - pos
  {
    if pos == |text| then pos
    else if text[pos] == '\\' && pos + 1 < |text| then BraceEnd(text, pos + 2, level)
    else if text[pos] == '}' then if level == 1 then pos else BraceEnd(text, pos + 1, level - 1)
    else if text[pos] == '{' then BraceEnd(text, pos + 1, level + 1)
    else BraceEnd(text, pos + 1, level)
  }

  /** What ends a plain word, in quotes or not. */
  predicate StopsString(c: char, quoted: bool) {
    c == '$' || c == '[' || (if quoted then c == '"' else Ends(c))
  }

  function StringEnd(text: string, pos: nat, quoted: bool): (e: nat)
    requires pos <= |text|
    ensures pos <= e <= |text| && (e < |text| ==> StopsString(text[e], quoted))
    decreases |text| - pos
  {
    if pos == |text| then pos
    else if text[pos] == '\\' then StringEnd(text, if pos + 1 < |text| then pos + 2 else pos + 1, quoted)
    else if StopsString(text[pos], quoted) then pos
    else StringEnd(text, pos + 1, quoted)
  }

  // ----- tokens -----

  predicate NewWord(kind: Kind) { kind == SEP || kind == EOL || kind == STR }

  function Command(text: string, p: P): Option<P>
    requires p.pos < |text|
  {
    var e := CommandEnd(text, p.pos + 1, 1, 0);
    if e.None? then None
    else Some(P(if e.value < |text| then e.value + 1 else e.value, p.pos + 1, e.value, CMD, p.quoted))
  }

  function Variable(text: string, p: P): P
    requires p.pos < |text|
  {
    var e := VarEnd(text, p.pos + 1);
    if e == p.pos + 1 then P(e, e - 1, e, STR, p.quoted) else P(e, p.pos + 1, e, VAR, p.quoted)
  }

  function Brace(text: string, p: P): P
    requires p.pos < |text|
  {
    var e := BraceEnd(text, p.pos + 1, 1);
    P(if e < |text| then e + 1 else e, p.pos + 1, e, STR, p.quoted)
  }

  function Str(text: string, p: P): P
    requires p.pos < |text|
  {
    if NewWord(p.kind) && text[p.pos] == '{' then Brace(text, p)
    else
      var opens := NewWord(p.kind) && text[p.pos] == '"';
      var quoted, from := p.quoted || opens, if opens then p.pos + 1 else p.pos;
      Word(text, from, quoted)
  }

  /** A word of plain or quoted text. */
  function Word(text: string, from: nat, quoted: bool): P
    requires from <= |text|
  {
    var e := StringEnd(text, from, quoted);
    if e < |text| && text[e] == '"' then P(e + 1, from, e, ESC, false) else P(e, from, e, ESC, quoted)
  }

  /** Where the next token begins: after a comment, if one begins here. */
  function AfterComment(text: string, p: P): (c: nat)
    requires p.pos <= |text|
    ensures p.pos <= c <= |text|
  {
    if p.kind == EOL && p.pos < |text| && text[p.pos] == '#' then LineEnd(text, p.pos) else p.pos
  }

  /** `picolGetToken`; None when it runs past the end of the text. */
  function Next(text: string, p: P): Option<P>
    requires p.pos <= |text|
  {
    var c := AfterComment(text, p);
    var at := p.(pos := c);
    if c == |text| then Some(at.(kind := if p.kind == EOL || p.kind == EOF then EOF else EOL))
    else
      var ch := text[c];
      if (ch == ' ' || ch == '\t' || ch == '\r') && !p.quoted then
        var e := SepEnd(text, c);
        Some(P(e, c, e, SEP, false))
      else if (ch == '\n' || ch == ';') && !p.quoted then
        var e := EolEnd(text, c);
        Some(P(e, c, e, EOL, false))
      else if ch == '[' then Command(text, at)
      else if ch == '$' then Some(Variable(text, at))
      else Some(Str(text, at))
  }

  // ----- progress, spans, and what a token covers -----

  predicate IsWord(kind: Kind) { kind == ESC || kind == STR || kind == CMD || kind == VAR }

  function Rank(kind: Kind): nat {
    match kind case EOF => 0 case EOL => 1 case _ => 2
  }

  /** Every token consumes text, or, at the end of the text, moves on from a word to a line end to the end. */
  lemma NextProgress(text: string, p: P)
    requires p.pos <= |text| && Next(text, p).Some?
    ensures var q := Next(text, p).value;
      && p.pos <= q.pos <= |text|
      && (p.pos < |text| ==> p.pos < q.pos)
      && (p.pos == |text| ==> q.kind == EOF || (q.kind == EOL && Rank(p.kind) == 2))
  {
    hide CommandEnd, BraceEnd;
    var c := AfterComment(text, p);
    if c < |text| && !(text[c] == '[' || text[c] == '$') { StrProgress(text, p.(pos := c)); }
  }

  /**
   A word always takes at least the character it was called on, unless a blank outside quotes or `$` or `[` is there.
   */
  lemma StrProgress(text: string, p: P)
    requires p.pos < |text| && text[p.pos] != '$' && text[p.pos] != '['
    ensures p.quoted || !Ends(text[p.pos]) ==> Str(text, p).pos > p.pos
    ensures Str(text, p).pos <= |text|
  {
    hide BraceEnd;
  }

  /**
   What lies between one token and the next: a comment or nothing, at most one opening mark, the token's own text, and
   at most one closing mark; an opening mark without its closing one runs to the end of the text.
   */
  ghost predicate Covers(text: string, c: nat, q: P)
    requires c <= |text|
  {
    && c <= q.start <= q.stop <= q.pos <= |text| && q.start <= c + 1 && q.pos <= q.stop + 1
    && (q.start == c + 1 ==> text[c] == match q.kind case CMD => '[' case VAR => '$' case STR => '{' case _ => '"')
    && (q.pos == q.stop + 1 ==> text[q.stop] == match q.kind case CMD => ']' case STR => '}' case _ => '"')
    && (q.kind == CMD ==> q.start == c + 1 && (q.pos == q.stop ==> q.pos == |text|))
    && (q.kind == VAR ==> q.start == c + 1 && q.start < q.stop == q.pos)
    && (q.kind == STR ==> if q.start == c then text[c..q.pos] == "$" else q.pos == q.stop ==> q.pos == |text|)
    && (q.kind == SEP || q.kind == EOL ==> q.start == c && q.stop == q.pos)
  }

  lemma NextCovers(text: string, p: P)
    requires p.pos <= |text| && Next(text, p).Some? && AfterComment(text, p) < |text|
    ensures Next(text, p).value.kind != EOF && Covers(text, AfterComment(text, p), Next(text, p).value)
  {
    hide CommandEnd, BraceEnd, StringEnd, Str, Command, Variable, Covers;
    var c := AfterComment(text, p);
    var at := p.(pos := c);
    if text[c] == '[' {
      if Command(text, at).Some? { CommandCovers(text, at); }
    } else if text[c] == '$' {
      VariableCovers(text, at);
    } else if p.quoted || !Ends(text[c]) {
      StrCovers(text, at);
    } else {
      GapCovers(text, c);
    }
  }

  lemma GapCovers(text: string, c: nat)
    requires c < |text|
    ensures Covers(text, c, P(SepEnd(text, c), c, SepEnd(text, c), SEP, false))
    ensures Covers(text, c, P(EolEnd(text, c), c, EolEnd(text, c), EOL, false))
  {
  }

  lemma CommandCovers(text: string, p: P)
    requires p.pos < |text| && text[p.pos] == '[' && Command(text, p).Some?
    ensures Command(text, p).value.kind == CMD && Covers(text, p.pos, Command(text, p).value)
  {
    hide CommandEnd;
  }

  lemma VariableCovers(text: string, p: P)
    requires p.pos < |text| && text[p.pos] == '$'
    ensures IsWord(Variable(text, p).kind) && Covers(text, p.pos, Variable(text, p))
  {
  }

  lemma StrCovers(text: string, p: P)
    requires p.pos < |text|
    ensures IsWord(Str(text, p).kind) && Covers(text, p.pos, Str(text, p))
  {
    hide BraceEnd, StringEnd;
  }

  // ----- backslashes -----

  /** No backslash is left without the character it escapes. */
  predicate Paired(s: string)
    decreases |s|
  {
    if s == [] then true
    else if s[0] == '\\' then |s| > 1 && Paired(s[2..])
    else Paired(s[1..])
  }

  lemma {:induction false} PairedConcat(a: string, b: string)
    requires Paired(a)
    ensures Paired(a + b) == Paired(b)
    decreases |a|
  {
    if a == [] {
      assert a + b == b;
    } else if a[0] == '\\' {
      assert (a + b)[2..] == a[2..] + b;
      PairedConcat(a[2..], b);
    } else {
      assert (a + b)[1..] == a[1..] + b;
      PairedConcat(a[1..], b);
    }
  }

  /** Text without backslashes, and in particular any text that does not end in one, is paired. */
  lemma {:induction false} UnescapedPaired(s: string)
    requires s == [] || s[|s| - 1] != '\\'
    ensures Paired(s)
    decreases |s|
  {
    if s != [] {
      if s[0] == '\\' {
        UnescapedPaired(s[2..]);
      } else {
        UnescapedPaired(s[1..]);
      }
    }
  }

  lemma PairedAt(text: string, pos: nat)
    requires pos < |text|
    ensures Paired(text[pos..])
      == (if text[pos] == '\\' then pos + 1 < |text| && Paired(text[pos + 2..]) else Paired(text[pos + 1..]))
  {
    assert text[pos..][1..] == text[pos + 1..];
    if pos + 1 < |text| { assert text[pos..][2..] == text[pos + 2..]; }
  }

  lemma PairedTo(text: string, pos: nat, e: nat)
    requires pos < e <= |text|
    ensures text[pos] != '\\' ==> Paired(text[pos..e]) == Paired(text[pos + 1..e])
    ensures text[pos] == '\\' && pos + 2 <= e ==> Paired(text[pos..e]) == Paired(text[pos + 2..e])
  {
    assert text[pos..e][1..] == text[pos + 1..e];
    if pos + 2 <= e { assert text[pos..e][2..] == text[pos + 2..e]; }
  }

  lemma PairedRest(text: string, pos: nat, e: nat)
    requires pos <= e <= |text| && Paired(text[pos..]) && Paired(text[pos..e])
    ensures Paired(text[e..])
  {
    assert text[pos..] == text[pos..e] + text[e..];
    PairedConcat(text[pos..e], text[e..]);
  }

  lemma {:induction false} PlainPaired(s: string)
    requires forall k :: 0 <= k < |s| ==> s[k] != '\\'
    ensures Paired(s)
    decreases |s|
  {
    if s != [] { PlainPaired(s[1..]); }
  }

  lemma {:induction false} CommandPaired(text: string, pos: nat, level: nat, blevel: nat)
    requires pos <= |text| && level > 0 && Paired(text[pos..])
    ensures var e := CommandEnd(text, pos, level, blevel); e.Some? && Paired(text[pos..e.value])
    decreases |text| - pos
  {
    hide Paired;
    PlainPaired(text[pos..pos]);
    if pos < |text| {
      PairedAt(text, pos);
      var c := text[pos];
      if c == '[' && blevel == 0 {
        CommandPaired(text, pos + 1, level + 1, blevel);
      } else if c == ']' && blevel == 0 {
        if level > 1 { CommandPaired(text, pos + 1, level - 1, blevel); }
      } else if c == '\\' {
        CommandPaired(text, pos + 2, level, blevel);
      } else if c == '{' {
        CommandPaired(text, pos + 1, level, blevel + 1);
      } else if c == '}' && blevel != 0 {
        CommandPaired(text, pos + 1, level, blevel - 1);
      } else {
        CommandPaired(text, pos + 1, level, blevel);
      }
      var e := CommandEnd(text, pos, level, blevel).value;
      if pos < e { PairedTo(text, pos, e); }
    }
  }

  lemma {:induction false} BracePaired(text: string, pos: nat, level: nat)
    requires pos <= |text| && level > 0 && Paired(text[pos..])
    ensures Paired(text[pos..BraceEnd(text, pos, level)])
    decreases |text| - pos
  {
    if pos < |text| {
      PairedAt(text, pos);
      if text[pos] == '\\' {
        BracePaired(text, pos + 2, level);
      } else if text[pos] == '}' {
        if level > 1 { BracePaired(text, pos + 1, level - 1); }
      } else if text[pos] == '{' {
        BracePaired(text, pos + 1, level + 1);
      } else {
        BracePaired(text, pos + 1, level);
      }
      var e := BraceEnd(text, pos, level);
      if pos < e { PairedTo(text, pos, e); }
    }
  }

  lemma {:induction false} StringPaired(text: string, pos: nat, quoted: bool)
    requires pos <= |text| && Paired(text[pos..])
    ensures Paired(text[pos..StringEnd(text, pos, quoted)])
    decreases |text| - pos
  {
    if pos < |text| {
      PairedAt(text, pos);
      if text[pos] == '\\' {
        StringPaired(text, pos + 2, quoted);
      } else if !StopsString(text[pos], quoted) {
        StringPaired(text, pos + 1, quoted);
      }
      var e := StringEnd(text, pos, quoted);
      if pos < e { PairedTo(text, pos, e); }
    }
  }

  /** A comment may end in a backslash, but the newline after it begins a pair of its own. */
  lemma {:induction false} CommentPaired(text: string, pos: nat)
    requires pos <= |text| && Paired(text[pos..])
    ensures Paired(text[LineEnd(text, pos)..])
    decreases |text| - pos
  {
    if pos < |text| && text[pos] != '\n' {
      PairedAt(text, pos);
      if text[pos] == '\\' {
        PairedAt(text, pos + 1);
        if text[pos + 1] != '\n' { CommentPaired(text, pos + 2); }
      } else {
        CommentPaired(text, pos + 1);
      }
    }
  }

  lemma AfterCommentPaired(text: string, p: P)
    requires p.pos <= |text| && Paired(text[p.pos..])
    ensures Paired(text[AfterComment(text, p)..])
  {
    hide Paired;
    CommentPaired(text, p.pos);
  }

  /** A token whose word, and the text after which, are paired. */
  ghost predicate PairedToken(text: string, q: Option<P>) {
    && q.Some? && q.value.pos <= |text| && Paired(text[q.value.pos..])
    && (IsWord(q.value.kind) ==> q.value.start <= q.value.stop <= |text| && Paired(text[q.value.start..q.value.stop]))
  }

  /** On paired text the tokenizer never leaves the text, its words are paired, and so is what is left. */
  lemma NextPaired(text: string, p: P)
    requires p.pos <= |text| && Paired(text[p.pos..])
    ensures PairedToken(text, Next(text, p))
  {
    hide Paired, CommandEnd, BraceEnd, StringEnd, SepEnd, EolEnd, VarEnd, LineEnd, Command, Variable, Str;
    hide AfterComment;
    var c := AfterComment(text, p);
    AfterCommentPaired(text, p);
    if c < |text| {
      var at := p.(pos := c);
      if text[c] == '[' {
        CommandTokenPaired(text, at);
      } else if text[c] == '$' {
        VariablePaired(text, at);
      } else {
        GapPaired(text, c);
        StrPaired(text, at);
      }
    }
  }

  lemma GapPaired(text: string, c: nat)
    requires c < |text| && Paired(text[c..])
    ensures Paired(text[SepEnd(text, c)..]) && Paired(text[EolEnd(text, c)..])
  {
    hide Paired;
    PlainPaired(text[c..SepEnd(text, c)]);
    PairedRest(text, c, SepEnd(text, c));
    PlainPaired(text[c..EolEnd(text, c)]);
    PairedRest(text, c, EolEnd(text, c));
  }

  lemma CommandTokenPaired(text: string, p: P)
    requires p.pos < |text| && text[p.pos] == '[' && Paired(text[p.pos..])
    ensures PairedToken(text, Command(text, p))
  {
    hide Paired, CommandEnd;
    PairedAt(text, p.pos);
    CommandPaired(text, p.pos + 1, 1, 0);
    Closed(text, p.pos + 1, CommandEnd(text, p.pos + 1, 1, 0).value, ']');
  }

  lemma VariablePaired(text: string, p: P)
    requires p.pos < |text| && text[p.pos] == '$' && Paired(text[p.pos..])
    ensures PairedToken(text, Some(Variable(text, p)))
  {
    hide Paired;
    PairedAt(text, p.pos);
    var e := VarEnd(text, p.pos + 1);
    PlainPaired(text[p.pos + 1..e]);
    PlainPaired(text[p.pos..p.pos + 1]);
    PairedRest(text, p.pos + 1, e);
  }

  lemma Closed(text: string, from: nat, e: nat, mark: char)
    requires from <= e <= |text| && Paired(text[from..]) && Paired(text[from..e]) && mark != '\\'
    ensures Paired(text[e..]) && (e < |text| && text[e] == mark ==> Paired(text[e + 1..]))
  {
    PairedRest(text, from, e);
    if e < |text| { PairedAt(text, e); }
  }

  lemma StrPaired(text: string, p: P)
    requires p.pos < |text| && Paired(text[p.pos..])
    ensures var q := Str(text, p);
      && q.start <= q.stop <= q.pos <= |text| && Paired(text[q.pos..]) && Paired(text[q.start..q.stop])
  {
    hide Paired, BraceEnd, StringEnd;
    PairedAt(text, p.pos);
    if NewWord(p.kind) && text[p.pos] == '{' {
      BracePaired(text, p.pos + 1, 1);
      Closed(text, p.pos + 1, BraceEnd(text, p.pos + 1, 1), '}');
    } else {
      var opens := NewWord(p.kind) && text[p.pos] == '"';
      var quoted, from := p.quoted || opens, if opens then p.pos + 1 else p.pos;
      StringPaired(text, from, quoted);
      Closed(text, from, StringEnd(text, from, quoted), '"');
    }
  }

  /**
   Exactly when the scan for a closing bracket runs off the end: the bracket is still open where the last character
   begins, and that character is a backslash with nothing to escape.
   */
  lemma {:induction false} OverrunsIff(text: string, pos: nat, level: nat, blevel: nat)
    requires pos <= |text| && level > 0
    ensures CommandEnd(text, pos, level, blevel) == None <==>
      && pos < |text| && !Paired(text[pos..])
      && CommandEnd(text[..|text| - 1], pos, level, blevel) == Some(|text| - 1)
    decreases |text| - pos
  {
    if pos < |text| {
      PairedAt(text, pos);
      var c, n := text[pos], |text| - 1;
      if pos < n {
        if c == '[' && blevel == 0 {
          OverrunsIff(text, pos + 1, level + 1, blevel);
        } else if c == ']' && blevel == 0 {
          if level > 1 { OverrunsIff(text, pos + 1, level - 1, blevel); }
        } else if c == '\\' {
          OverrunsIff(text, pos + 2, level, blevel);
        } else if c == '{' {
          OverrunsIff(text, pos + 1, level, blevel + 1);
        } else if c == '}' && blevel != 0 {
          OverrunsIff(text, pos + 1, level, blevel - 1);
        } else {
          OverrunsIff(text, pos + 1, level, blevel);
        }
      }
    }
  }

  // ----- quoting -----

  /** What can stand between braces: plain characters, escaped ones, and braced text again. */
  datatype Quoted =
    | Done
    | Plain(c: char, rest: Quoted)
    | Escaped(c: char, rest: Quoted)
    | Braced(inner: Quoted, rest: Quoted)

  predicate Proper(w: Quoted) {
    match w
    case Done => true
    case Plain(c, rest) => c != '\\' && c != '{' && c != '}' && Proper(rest)
    case Escaped(_, rest) => Proper(rest)
    case Braced(inner, rest) => Proper(inner) && Proper(rest)
  }

  function Text(w: Quoted): string {
    match w
    case Done => ""
    case Plain(c, rest) => [c] + Text(rest)
    case Escaped(c, rest) => ['\\', c] + Text(rest)
    case Braced(inner, rest) => "{" + Text(inner) + "}" + Text(rest)
  }

  /** Takes a known piece off the front of what is left. */
  lemma Peel(text: string, pos: nat, a: string, b: string)
    requires pos <= |text| && text[pos..] == a + b
    ensures pos + |a| <= |text| && text[pos..pos + |a|] == a && text[pos + |a|..] == b
    ensures a != [] ==> text[pos] == a[0]
  {
    assert |text| - pos == |a| + |b|;
    var t := text[pos..];
    assert t[..|a|] == a && t[|a|..] == b;
    assert text[pos..pos + |a|] == t[..|a|] && text[pos + |a|..] == t[|a|..];
  }

  lemma {:induction false} BracePasses(w: Quoted, text: string, pos: nat, level: nat, tail: string)
    requires Proper(w) && pos <= |text| && level > 0 && text[pos..] == Text(w) + tail
    ensures pos + |Text(w)| <= |text| && text[pos + |Text(w)|..] == tail
    ensures BraceEnd(text, pos, level) == BraceEnd(text, pos + |Text(w)|, level)
    decreases |Text(w)|, 1
  {
    hide BraceEnd;
    Peel(text, pos, Text(w), tail);
    match w
    case Done =>
    case Plain(c, rest) => MarkPasses([c], rest, text, pos, level, tail);
    case Escaped(c, rest) => MarkPasses(['\\', c], rest, text, pos, level, tail);
    case Braced(inner, rest) => BracedPasses(inner, rest, text, pos, level, tail);
  }

  lemma {:induction false} MarkPasses(a: string, rest: Quoted, text: string, pos: nat, level: nat, tail: string)
    requires Proper(rest) && pos <= |text| && level > 0 && text[pos..] == a + Text(rest) + tail
    requires (|a| == 2 && a[0] == '\\') || (|a| == 1 && a[0] != '\\' && a[0] != '{' && a[0] != '}')
    ensures var n := |a| + |Text(rest)|;
      pos + n <= |text| && BraceEnd(text, pos, level) == BraceEnd(text, pos + n, level)
    decreases |a| + |Text(rest)|, 0
  {
    hide Text, Proper, BraceEnd;
    Front(text, pos, a, Text(rest), tail);
    BracePasses(rest, text, pos + |a|, level, tail);
    BraceSteps(text, pos, level);
  }

  lemma Regroup(a: string, b: string, c: string, d: string, tail: string)
    ensures a + b + c + d + tail == a + b + (c + d + tail)
  {
  }

  lemma Front(text: string, pos: nat, a: string, b: string, tail: string)
    requires pos <= |text| && text[pos..] == a + b + tail
    ensures pos + |a| <= |text| && text[pos + |a|..] == b + tail && (a != [] ==> text[pos] == a[0])
  {
    assert a + b + tail == a + (b + tail);
    Peel(text, pos, a, b + tail);
  }

  lemma {:induction false} BracedPasses(inner: Quoted, rest: Quoted, text: string, pos: nat, level: nat, tail: string)
    requires Proper(inner) && Proper(rest) && pos <= |text| && level > 0
    requires text[pos..] == "{" + Text(inner) + "}" + Text(rest) + tail
    ensures var n := |Text(inner)| + |Text(rest)| + 2;
      pos + n <= |text| && BraceEnd(text, pos, level) == BraceEnd(text, pos + n, level)
    decreases |Text(inner)| + |Text(rest)| + 2, 0
  {
    hide Text, Proper, BraceEnd;
    var more := "}" + Text(rest) + tail;
    var close := pos + 1 + |Text(inner)|;
    Regroup("{", Text(inner), "}", Text(rest), tail);
    Front(text, pos, "{", Text(inner), more);
    BracePasses(inner, text, pos + 1, level + 1, more);
    CloseBrace(text, close, level, Text(rest), tail);
    BracePasses(rest, text, close + 1, level, tail);
    BraceSteps(text, pos, level);
  }

  lemma CloseBrace(text: string, pos: nat, level: nat, b: string, tail: string)
    requires pos <= |text| && level > 0 && text[pos..] == "}" + b + tail
    ensures pos < |text| && text[pos + 1..] == b + tail
    ensures BraceEnd(text, pos, level + 1) == BraceEnd(text, pos + 1, level)
  {
    Front(text, pos, "}", b, tail);
  }

  /** One turn of the scan for a closing brace. */
  lemma BraceSteps(text: string, pos: nat, level: nat)
    requires pos <= |text| && level > 0
    ensures pos == |text| ==> BraceEnd(text, pos, level) == pos
    ensures pos < |text| && text[pos] == '{' ==> BraceEnd(text, pos, level) == BraceEnd(text, pos + 1, level + 1)
    ensures pos < |text| && text[pos] == '}' && level > 1 ==>
      BraceEnd(text, pos, level) == BraceEnd(text, pos + 1, level - 1)
    ensures pos < |text| && text[pos] == '}' && level == 1 ==> BraceEnd(text, pos, level) == pos
    ensures pos + 1 < |text| && text[pos] == '\\' ==> BraceEnd(text, pos, level) == BraceEnd(text, pos + 2, level)
    ensures pos + 1 == |text| && text[pos] == '\\' ==> BraceEnd(text, pos, level) == BraceEnd(text, pos + 1, level)
    ensures pos < |text| && text[pos] != '{' && text[pos] != '}' && text[pos] != '\\' ==>
      BraceEnd(text, pos, level) == BraceEnd(text, pos + 1, level)
  {
  }

  lemma AfterBrace(text: string, pos: nat, t: string, tail: string)
    requires pos <= |text| && text[pos..] == "{" + t + "}" + tail
    ensures pos < |text| && text[pos] == '{' && text[pos + 1..] == t + ("}" + tail)
  {
    assert "{" + t + "}" + tail == "{" + (t + ("}" + tail));
    Peel(text, pos, "{", t + ("}" + tail));
  }

  lemma AtBrace(text: string, e: nat, tail: string)
    requires e <= |text| && text[e..] == "}" + tail
    ensures e < |text| && BraceEnd(text, e, 1) == e && text[e + 1..] == tail
  {
    hide BraceEnd;
    Peel(text, e, "}", tail);
    BraceSteps(text, e, 1);
  }

  lemma BraceClosesAt(w: Quoted, text: string, pos: nat, tail: string)
    requires Proper(w) && pos <= |text| && text[pos..] == "{" + Text(w) + "}" + tail
    ensures var e := pos + 1 + |Text(w)|;
      e < |text| && BraceEnd(text, pos + 1, 1) == e && text[pos + 1..e] == Text(w) && text[e + 1..] == tail
        && text[pos] == '{'
  {
    hide BraceEnd, Text, Proper;
    AfterBrace(text, pos, Text(w), tail);
    var from, e := pos + 1, pos + 1 + |Text(w)|;
    BracePasses(w, text, from, 1, "}" + tail);
    Peel(text, from, Text(w), "}" + tail);
    AtBrace(text, e, tail);
  }

  /** Braces quote: at the start of a word, a braced text is one token, which is that text and nothing else. */
  lemma BraceQuotes(w: Quoted, text: string, p: P, tail: string)
    requires Proper(w) && p.pos <= |text| && NewWord(p.kind) && text[p.pos..] == "{" + Text(w) + "}" + tail
    ensures var q := Next(text, p);
      && q.Some? && q.value.kind == STR && q.value.start <= q.value.stop <= |text|
      && text[q.value.start..q.value.stop] == Text(w)
      && q.value.pos <= |text| && text[q.value.pos..] == tail && q.value.quoted == p.quoted
  {
    hide BraceEnd, Text, Proper, Next;
    BraceClosesAt(w, text, p.pos, tail);
    NextIsBrace(text, p);
  }

  lemma NextIsBrace(text: string, p: P)
    requires p.pos < |text| && NewWord(p.kind) && text[p.pos] == '{'
    ensures Next(text, p) == Some(Brace(text, p))
  {
  }
}
