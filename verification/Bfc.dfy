/**
 bfc.c: its global state and the functions process_file calls. A method answers false where the C code has undefined
 behaviour or quits.
 */
module Bfc {
  import opened Bytes
  import opened BfcLang
  import opened BfcCompile

  lemma LookupAppend(dict: seq<Entry>, e: Entry, w: string)
    ensures Lookup(dict + [e], w) == if e.name == w then Some(e.ref) else Lookup(dict, w)
  {
    assert (dict + [e])[..|dict|] == dict;
  }

  class Compiler {
    var labeli: nat
    const dict: array<Entry>
    var dp: nat
    const cstack: array<nat>
    var cp: nat
    var state: bool
    var out: seq<Line>
    // lit, zbra, bra, dofor and push: the labels of the run-time words, once they are defined
    var lit: Option<nat>
    var zbra: Option<nat>
    var bra: Option<nat>
    var dofor: Option<nat>
    var push: Option<nat>

    ghost function Abs(): Comp
      requires dp <= dict.Length && cp <= cstack.Length
      reads this, dict, cstack
    {
      Comp(labeli, dict[..dp], cstack[..cp], state, out)
    }

    /** Unused dictionary entries are blank, and the pointers are to the newest definitions. */
    ghost predicate Valid()
      reads this, dict, cstack
    {
      && dict.Length == MAXDICT && cstack.Length == CSTACK && dp <= MAXDICT && cp <= CSTACK && dp <= labeli
      && (forall k :: dp <= k < MAXDICT ==> dict[k].name == "")
      && lit == Lookup(dict[..dp], "lit") && zbra == Lookup(dict[..dp], "0bra") && bra == Lookup(dict[..dp], "bra")
      && dofor == Lookup(dict[..dp], "dofor") && push == Lookup(dict[..dp], "push")
    }

    constructor ()
      ensures Valid() && Abs() == BfcCompile.START && fresh(dict) && fresh(cstack)
    {
      labeli, dp, cp, state, out := 0, 0, 0, false, [];
      lit, zbra, bra, dofor, push := None, None, None, None, None;
      dict := new Entry[MAXDICT](_ => Entry("", 0));
      cstack := new nat[CSTACK](_ => 0);
    }

    method Put(ls: seq<Line>)
      requires Valid()
      modifies this`out
      ensures Valid() && Abs() == Emit(old(Abs()), ls)
    {
      out := out + ls;
    }

    method PushCntl(i: nat) returns (ok: bool)
      requires Valid()
      modifies this`cp, cstack
      ensures Valid() && ok == BfcCompile.PushCntl(old(Abs()), i).Some?
      ensures ok ==> Abs() == BfcCompile.PushCntl(old(Abs()), i).value
    {
      if cp == CSTACK { return false; }
      cstack[cp] := i;
      cp := cp + 1;
      ok := true;
    }

    /** `push_cntl( labeli++ )`. */
    method PushFresh() returns (ok: bool)
      requires Valid()
      modifies this`labeli, this`cp, cstack
      ensures Valid() && ok == BfcCompile.PushCntl(old(Abs()).(labeli := old(labeli) + 1), old(labeli)).Some?
      ensures ok ==> Abs() == BfcCompile.PushCntl(old(Abs()).(labeli := old(labeli) + 1), old(labeli)).value
    {
      hide Lookup;
      labeli := labeli + 1;
      ok := PushCntl(labeli - 1);
    }

    method PullCntl() returns (ok: bool, i: nat)
      requires Valid()
      modifies this`cp
      ensures Valid() && ok == (old(Abs()).cstack != [])
      ensures ok ==> Some(i) == Top(old(Abs())) && Abs() == Pop(old(Abs()))
    {
      if cp == 0 { return false, 0; }
      cp := cp - 1;
      ok, i := true, cstack[cp];
    }

    /** A run-time word through its pointer, and an address. */
    method CompBranch(p: Option<nat>, ghost name: string, target: nat) returns (ok: bool)
      requires Valid() && p == Lookup(dict[..dp], name)
      modifies this`out
      ensures Valid() && ok == Branch(old(Abs()), name, target).Some?
      ensures ok ==> Abs() == Branch(old(Abs()), name, target).value
    {
      if p.None? { return false; }
      Put([Jsr(p.value), Addr(target)]);
      ok := true;
    }

    method DoIf() returns (ok: bool)
      requires Valid()
      modifies this, cstack
      ensures Valid() && ok == BfcCompile.DoIf(old(Abs())).Some?
      ensures ok ==> Abs() == BfcCompile.DoIf(old(Abs())).value
    {
      hide Lookup, BfcCompile.PushCntl;
      ok := CompBranch(zbra, "0bra", labeli);
      if ok { ok := PushFresh(); }
    }

    method DoThen() returns (ok: bool)
      requires Valid()
      modifies this
      ensures Valid() && ok == BfcCompile.DoThen(old(Abs())).Some?
      ensures ok ==> Abs() == BfcCompile.DoThen(old(Abs())).value
    {
      hide Lookup;
      var i;
      ok, i := PullCntl();
      if ok { Put([Label(i)]); }
    }

    method DoBegin() returns (ok: bool)
      requires Valid()
      modifies this, cstack
      ensures Valid() && ok == BfcCompile.DoBegin(old(Abs())).Some?
      ensures ok ==> Abs() == BfcCompile.DoBegin(old(Abs())).value
    {
      hide Lookup, BfcCompile.PushCntl;
      Put([Label(labeli)]);
      ok := PushFresh();
    }

    method DoAgain() returns (ok: bool)
      requires Valid()
      modifies this
      ensures Valid() && ok == BfcCompile.DoAgain(old(Abs())).Some?
      ensures ok ==> Abs() == BfcCompile.DoAgain(old(Abs())).value
    {
      hide Lookup;
      var i;
      ok, i := PullCntl();
      if ok { ok := CompBranch(bra, "bra", i); }
    }

    method DoUntil() returns (ok: bool)
      requires Valid()
      modifies this
      ensures Valid() && ok == BfcCompile.DoUntil(old(Abs())).Some?
      ensures ok ==> Abs() == BfcCompile.DoUntil(old(Abs())).value
    {
      hide Lookup;
      var i;
      ok, i := PullCntl();
      if ok { ok := CompBranch(zbra, "0bra", i); }
    }

    method DoWhile() returns (ok: bool)
      requires Valid()
      modifies this, cstack
      ensures Valid() && ok == BfcCompile.DoWhile(old(Abs())).Some?
      ensures ok ==> Abs() == BfcCompile.DoWhile(old(Abs())).value
    {
      hide Lookup, BfcCompile.PushCntl;
      var i;
      ok, i := PullCntl();
      if !ok { return; }
      ok := CompBranch(zbra, "0bra", labeli);
      if !ok { return; }
      ok := PushFresh();
      if ok { ok := PushCntl(i); }
    }

    /** `repeat` and `next`. */
    method DoRepeat() returns (ok: bool)
      requires Valid()
      modifies this
      ensures Valid() && ok == BfcCompile.DoRepeat(old(Abs())).Some?
      ensures ok ==> Abs() == BfcCompile.DoRepeat(old(Abs())).value
    {
      hide Lookup;
      ok := DoAgain();
      if ok { ok := DoThen(); }
    }

    method DoElse() returns (ok: bool)
      requires Valid()
      modifies this, cstack
      ensures Valid() && ok == BfcCompile.DoElse(old(Abs())).Some?
      ensures ok ==> Abs() == BfcCompile.DoElse(old(Abs())).value
    {
      hide Lookup, BfcCompile.PushCntl;
      var i;
      ok, i := PullCntl();
      if !ok { return; }
      ok := CompBranch(bra, "bra", labeli);
      if !ok { return; }
      ok := PushFresh();
      if ok { Put([Label(i)]); }
    }

    method DoDoFor() returns (ok: bool)
      requires Valid()
      modifies this, cstack
      ensures Valid() && ok == BfcCompile.DoFor(old(Abs())).Some?
      ensures ok ==> Abs() == BfcCompile.DoFor(old(Abs())).value
    {
      hide Lookup;
      var i := labeli;
      if push.None? || dofor.None? { return false; }
      labeli := labeli + 1;
      Put([Jsr(push.value), Label(i), Jsr(dofor.value), Addr(labeli)]);
      ok := PushFresh();
      if ok { ok := PushCntl(i); }
    }

    /** `findentry`: starting the scan at labeli instead of dp does no harm while labeli is at most 256. */
    method FindEntry(w: string) returns (r: Option<nat>)
      requires Valid() && w != "" && labeli <= MAXDICT
      ensures r == Lookup(dict[..dp], w)
    {
      var i := labeli;
      while i > 0
        invariant 0 <= i <= labeli
        invariant i >= dp || Lookup(dict[..dp], w) == Lookup(dict[..i], w)
        decreases i
      {
        if i <= dp { assert dict[..i][..i - 1] == dict[..i - 1]; }
        if dict[i - 1].name == w { return Some(dict[i - 1].ref); }
        i := i - 1;
      }
      return None;
    }

    /** A word that is none of the host's own. */
    method DoWord(num: Numbers, w: string) returns (ok: bool)
      requires Valid()
      modifies this`out
      ensures Valid() && ok == BfcCompile.DoWord(old(Abs()), num, w).Some?
      ensures ok ==> Abs() == BfcCompile.DoWord(old(Abs()), num, w).value
    {
      if labeli > MAXDICT || w == "" { return false; }
      var e := FindEntry(w);
      if e.Some? {
        Put([Jsr(e.value)]);
        return true;
      }
      if num(w).None? || !state || lit.None? { return false; }
      Put([Jsr(lit.value), Cell(num(w).value)]);
      ok := true;
    }

    /** The pointers to the run-time words. */
    method Remember(name: string, ref: nat)
      modifies this`lit, this`zbra, this`bra, this`dofor, this`push
      ensures lit == if name == "lit" then Some(ref) else old(lit)
      ensures zbra == if name == "0bra" then Some(ref) else old(zbra)
      ensures bra == if name == "bra" then Some(ref) else old(bra)
      ensures dofor == if name == "dofor" then Some(ref) else old(dofor)
      ensures push == if name == "push" then Some(ref) else old(push)
    {
      if name == "lit" { lit := Some(ref); }
      if name == "0bra" { zbra := Some(ref); }
      if name == "bra" { bra := Some(ref); }
      if name == "dofor" { dofor := Some(ref); }
      if name == "push" { push := Some(ref); }
    }

    /** `mkentry`, with the pointers to the run-time words. */
    method MkEntry(name: string) returns (ok: bool)
      requires Valid()
      modifies this, dict
      ensures Valid() && ok == BfcCompile.MkEntry(old(Abs()), name).Some?
      ensures ok ==> Abs() == BfcCompile.MkEntry(old(Abs()), name).value
    {
      hide Lookup;
      if dp == MAXDICT || |name| >= MAXNAME { return false; }
      ghost var was := dict[..dp];
      var ref := labeli;
      Remember(name, ref);
      dict[dp] := Entry(name, ref);
      dp := dp + 1;
      labeli := labeli + 1;
      out := out + [Label(ref)];
      assert dict[..dp] == was + [Entry(name, ref)];
      LookupAppend(was, Entry(name, ref), "lit");
      LookupAppend(was, Entry(name, ref), "0bra");
      LookupAppend(was, Entry(name, ref), "bra");
      LookupAppend(was, Entry(name, ref), "dofor");
      LookupAppend(was, Entry(name, ref), "push");
      ok := true;
    }

    /** The structure words. */
    method DoStructure(w: string) returns (ok: bool, known: bool)
      requires Valid()
      modifies this, cstack
      ensures Valid()
      ensures known == (w in STRUCTURE)
      ensures known ==> forall num: Numbers :: ok == DoText(old(Abs()), num, w).Some?
      ensures known && ok ==> forall num: Numbers :: Abs() == DoText(old(Abs()), num, w).value
      ensures !known ==> Abs() == old(Abs()) && labeli == old(labeli)
    {
      ok, known := true, true;
      if w == "if" { ok := DoIf(); }
      else if w == "then" { ok := DoThen(); }
      else if w == "begin" { ok := DoBegin(); }
      else if w == "again" { ok := DoAgain(); }
      else if w == "until" { ok := DoUntil(); }
      else if w == "while" { ok := DoWhile(); }
      else if w == "repeat" { ok := DoRepeat(); }
      else if w == "else" { ok := DoElse(); }
      else if w == "for" { ok := DoDoFor(); }
      else if w == "next" { ok := DoRepeat(); }
      else { known := false; }
    }

    method Text(num: Numbers, w: string) returns (ok: bool)
      requires Valid()
      modifies this, cstack
      ensures Valid() && ok == DoText(old(Abs()), num, w).Some?
      ensures ok ==> Abs() == DoText(old(Abs()), num, w).value
    {
      hide Lookup, BfcCompile.DoWord, DoText;
      var known;
      ok, known := DoStructure(w);
      if known { return; }
      OtherWord(Abs(), num, w);
      ok := true;
      if w == ";" {
        Put([Rts]);
        state := false;
      } else if w == "]" {
        state := true;
      } else if w in HOST_WORDS {
        ok := false;
      } else {
        ok := DoWord(num, w);
      }
    }

    /** `process_file`. */
    method ProcessFile(num: Numbers, toks: seq<Token>) returns (ok: bool)
      requires Valid()
      modifies this, dict, cstack
      ensures Valid() && ok == Compile(old(Abs()), num, toks).Some?
      ensures ok ==> Abs() == Compile(old(Abs()), num, toks).value
    {
      hide Lookup, DoText, BfcCompile.MkEntry;
      var rest := toks;
      ghost var goal := Compile(Abs(), num, toks);
      while rest != []
        invariant Valid() && goal == Compile(Abs(), num, rest)
        decreases |rest|
      {
        if rest[0].Asm? { return false; }
        var w := rest[0].word;
        if w == "p:" {
          if |rest| < 3 || !rest[1].Text? || !rest[2].Asm? { return false; }
          ok := MkEntry(rest[1].word);
          if !ok { return; }
          Put([Body(rest[2].op)]);
          rest := rest[3..];
        } else if w == ":" {
          if |rest| < 2 || !rest[1].Text? { return false; }
          ok := MkEntry(rest[1].word);
          if !ok { return; }
          state := true;
          rest := rest[2..];
        } else {
          ok := Text(num, w);
          if !ok { return; }
          rest := rest[1..];
        }
      }
      ok := true;
    }
  }

  // ----- the run-time dictionary -----

  /** One record of do_dict: its own label, the label of the record before it, the word's label and name. */
  datatype Record = Record(lab: nat, link: Option<nat>, ref: nat, name: string)

  ghost predicate Records(recs: seq<Record>, dict: seq<Entry>, first: nat) {
    |recs| == |dict| && forall i :: 0 <= i < |recs| ==>
      recs[i] == Record(first + i, if i == 0 then None else Some(first + i - 1), dict[i].ref, dict[i].name)
  }

  /** `do_dict`: the records, and the label dp0 stands for. */
  method DoDict(labeli: nat, dict: seq<Entry>) returns (recs: seq<Record>, dp0: nat)
    ensures Records(recs, dict, labeli)
    ensures dict != [] ==> dp0 == labeli + |dict| - 1
  {
    recs := [];
    var last := 0;
    var next := labeli;
    var i := 0;
    while i < |dict|
      invariant 0 <= i <= |dict| && next == labeli + i && (i > 0 ==> last == next - 1)
      invariant Records(recs, dict[..i], labeli)
    {
      recs := recs + [Record(next, if i > 0 then Some(last) else None, dict[i].ref, dict[i].name)];
      last := next;
      next := next + 1;
      i := i + 1;
    }
    assert dict[..i] == dict;
    dp0 := last;
  }

  /** The run-time word `find`, started at `latest`: follows the links until a name matches. */
  method RuntimeFind(recs: seq<Record>, first: nat, latest: nat, w: string,
        ghost dict: seq<Entry>) returns (r: Option<nat>)
    requires Records(recs, dict, first) && dict != [] && latest == first + |dict| - 1
    ensures r == Lookup(dict, w)
  {
    var p := latest;
    ghost var n := |dict|;
    assert dict[..n] == dict;
    while true
      invariant 0 < n <= |dict| && p == first + n - 1
      invariant Lookup(dict, w) == Lookup(dict[..n], w)
      decreases n
    {
      var rec := recs[p - first];
      assert dict[..n][..n - 1] == dict[..n - 1];
      if rec.name == w { return Some(rec.ref); }
      if rec.link.None? { return None; }
      p := rec.link.value;
      n := n - 1;
    }
  }
}
