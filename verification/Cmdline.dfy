/** The boot command line (src/cmdline.c): words that start with the name of an option set it. */
module Cmdline {
  import opened Bitfield
  import opened Numbers

  const PREFIXES := ["shv_opt=", "nmi_opt=", "nmi_exp=", "timer_ms="]

  /** A C string: no NUL inside. */
  predicate CString(s: string) {
    forall i :: 0 <= i < |s| ==> s[i] != NUL
  }

  function EndOfWord(s: string, i: nat): (r: nat)
    requires i <= |s|
    ensures i <= r <= |s| && (r < |s| ==> IsSpace(s[r])) && forall k :: i <= k < r ==> !IsSpace(s[k])
    decreases |s| - i
  {
    if i < |s| && !IsSpace(s[i]) then EndOfWord(s, i + 1) else i
  }

  /** A position at which a word begins; position 0 counts as one even before spaces. */
  predicate StartsWord(s: string, p: nat) {
    p < |s| && (p == 0 || (!IsSpace(s[p]) && IsSpace(s[p - 1])))
  }

  predicate Names(s: string, p: nat, prefix: string) {
    p + |prefix| <= |s| && s[p..p + |prefix|] == prefix
  }

  /** What is read for an option at position `p`: the number after its prefix, in C notation. */
  function ValueAt(s: string, p: nat, prefix: string): Parsed
    requires Names(s, p, prefix)
  {
    Strtoull(s[p + |prefix|..], 0)
  }

  /** Position of the last word before `end` that sets the option. */
  function LastSetting(s: string, prefix: string, end: nat): (r: int)
    requires end <= |s|
    ensures -1 <= r < end && (r >= 0 ==> StartsWord(s, r) && Names(s, r, prefix))
    ensures forall p: nat :: r < p < end ==> !(StartsWord(s, p) && Names(s, p, prefix))
  {
    if end == 0 then -1
    else if StartsWord(s, end - 1) && Names(s, end - 1, prefix) then end - 1
    else LastSetting(s, prefix, end - 1)
  }

  /** The option after the words before `end`. */
  predicate IsSet(s: string, prefix: string, end: nat, before: u64, now: u64)
    requires end <= |s|
  {
    var p := LastSetting(s, prefix, end);
    if p < 0 then now == before
    else ValueAt(s, p, prefix).Number? && now == ValueAt(s, p, prefix).value
  }

  /** A word before `end` has a number that is too large. */
  ghost predicate Overflows(s: string, end: nat) {
    exists p: nat, i: nat :: p < end && i < |PREFIXES| && StartsWord(s, p) && Names(s, p, PREFIXES[i])
      && ValueAt(s, p, PREFIXES[i]) == Halt
  }

  /** Between two word starts nothing starts. */
  lemma {:induction false} NoStart(s: string, b: nat, p: nat)
    requires b <= |s| && b < p < SkipSpace(s, EndOfWord(s, b))
    ensures !StartsWord(s, p)
  {
    var e := EndOfWord(s, b);
    if p > e {
      SkippedSpaces(s, e, p);
    }
  }

  lemma {:induction false} SkippedSpaces(s: string, i: nat, p: nat)
    requires i <= |s| && i <= p < SkipSpace(s, i)
    ensures IsSpace(s[p])
    decreases p - i
  {
    if i >= p {
    } else {
      SkippedSpaces(s, i + 1, p);
    }
  }

  lemma {:induction false} SkippedTo(s: string, i: nat)
    requires i <= |s|
    ensures var r := SkipSpace(s, i); (r < |s| ==> !IsSpace(s[r])) && (r > i ==> IsSpace(s[r - 1]))
    decreases |s| - i
  {
    if i < |s| && IsSpace(s[i]) { SkippedTo(s, i + 1); }
  }

  lemma NextStart(s: string, b: nat)
    requires b < |s|
    ensures var next := SkipSpace(s, EndOfWord(s, b));
      b < next <= |s| && (next < |s| ==> StartsWord(s, next))
  {
    SkippedTo(s, EndOfWord(s, b));
  }

  /** No word starts from `from` on, so the last setting is the one before. */
  lemma {:induction false} SameSetting(s: string, prefix: string, from: nat, end: nat)
    requires from <= end <= |s|
    requires forall p: nat :: from <= p < end ==> !(StartsWord(s, p) && Names(s, p, prefix))
    ensures LastSetting(s, prefix, end) == LastSetting(s, prefix, from)
  {
    if from >= end {
    } else {
      SameSetting(s, prefix, from, end - 1);
    }
  }

  lemma WordDone(s: string, prefix: string, b: nat)
    requires StartsWord(s, b)
    ensures var next := SkipSpace(s, EndOfWord(s, b));
      LastSetting(s, prefix, next) == if Names(s, b, prefix) then b else LastSetting(s, prefix, b)
  {
    var next := SkipSpace(s, EndOfWord(s, b));
    NextStart(s, b);
    forall p: nat | b < p < next ensures !StartsWord(s, p) { NoStart(s, b, p); }
    SameSetting(s, prefix, b + 1, next);
  }

  /** match_var: sets the options that the word at `b` names; stops at a number that is too large. */
  method MatchVar(s: string, b: nat, vars: array<u64>) returns (halted: bool)
    requires vars.Length == |PREFIXES| && StartsWord(s, b)
    modifies vars
    ensures halted <==>
      exists i: nat :: i < |PREFIXES| && Names(s, b, PREFIXES[i]) && ValueAt(s, b, PREFIXES[i]) == Halt
    ensures !halted ==> forall i: nat :: i < |PREFIXES| ==>
      if Names(s, b, PREFIXES[i]) then ValueAt(s, b, PREFIXES[i]).Number? && vars[i] == ValueAt(s, b, PREFIXES[i]).value
      else vars[i] == old(vars[i])
  {
    hide Strtoull;
    var i := 0;
    while i < |PREFIXES|
      invariant 0 <= i <= |PREFIXES|
      invariant forall k: nat :: k < |PREFIXES| ==>
        if k < i && Names(s, b, PREFIXES[k]) then
          ValueAt(s, b, PREFIXES[k]).Number? && vars[k] == ValueAt(s, b, PREFIXES[k]).value
        else vars[k] == old(vars[k])
    {
      var prefix := PREFIXES[i];
      if b + |prefix| <= |s| && s[b..b + |prefix|] == prefix {
        var r := TbStrtoull(s[b + |prefix|..], 0);
        if r == Halt {
          return true;
        }
        vars[i] := r.value;
      }
      i := i + 1;
    }
    return false;
  }

  /** parse_cmdline: every option gets the value of the last word that names it, and keeps its own if none
      does; halts exactly when a word has a number of more than 64 bits. */
  method ParseCmdline(s: string, vars: array<u64>) returns (halted: bool)
    requires vars.Length == |PREFIXES| && CString(s)
    modifies vars
    ensures halted <==> Overflows(s, |s|)
    ensures !halted ==> forall i: nat :: i < |PREFIXES| ==> IsSet(s, PREFIXES[i], |s|, old(vars[i]), vars[i])
  {
    hide Strtoull, Names;
    var b := 0;
    while b < |s|
      invariant b <= |s| && (b < |s| ==> StartsWord(s, b))
      invariant !Overflows(s, b)
      invariant forall i: nat :: i < |PREFIXES| ==> IsSet(s, PREFIXES[i], b, old(vars[i]), vars[i])
    {
      ghost var was := vars[..];
      halted := MatchVar(s, b, vars);
      if halted { return; }
      var e := b;
      while e < |s| && !IsSpace(s[e])
        invariant b <= e <= |s| && EndOfWord(s, e) == EndOfWord(s, b)
      {
        e := e + 1;
      }
      ghost var end := e;
      while e < |s| && IsSpace(s[e])
        invariant end <= e <= |s| && SkipSpace(s, e) == SkipSpace(s, end)
      {
        e := e + 1;
      }
      NextStart(s, b);
      forall p: nat | b < p < e ensures !StartsWord(s, p) { NoStart(s, b, p); }
      forall i: nat | i < |PREFIXES|
        ensures IsSet(s, PREFIXES[i], e, old(vars[i]), vars[i])
      {
        WordDone(s, PREFIXES[i], b);
        assert IsSet(s, PREFIXES[i], b, old(vars[i]), was[i]);
      }
      b := e;
    }
    halted := false;
  }

  /** An option written as a C literal, up to a space or the end: its number, or none if that is too large. */
  lemma OptionReads(pre: string, i: nat, n: nat, how: Notation, rest: string)
    requires i < |PREFIXES| && (pre == "" || IsSpace(pre[|pre| - 1])) && (rest == "" || IsSpace(rest[0]))
    ensures var s := pre + PREFIXES[i] + (Literal(n, how) + rest);
      && StartsWord(s, |pre|) && Names(s, |pre|, PREFIXES[i])
      && ValueAt(s, |pre|, PREFIXES[i]) == if n > U64_MAX then Halt else Number(n, |Literal(n, how)|)
  {
    hide Strtoull, Literal;
    var prefix, num := PREFIXES[i], Literal(n, how) + rest;
    var s := pre + prefix + num;
    assert !IsSpace(prefix[0]);
    assert s[|pre|] == prefix[0];
    assert s[|pre|..|pre| + |prefix|] == prefix;
    assert s[|pre| + |prefix|..] == num;
    LiteralReads(n, how, rest);
  }

  /** The last word that names an option, in a command line that is read to its end, gives it its number. */
  lemma LastWordWins(pre: string, i: nat, n: u64, how: Notation, rest: string, before: u64, now: u64)
    requires i < |PREFIXES| && (pre == "" || IsSpace(pre[|pre| - 1])) && (rest == "" || IsSpace(rest[0]))
    requires var s := pre + PREFIXES[i] + (Literal(n, how) + rest);
      && (forall p: nat :: |pre| < p < |s| ==> !(StartsWord(s, p) && Names(s, p, PREFIXES[i])))
      && IsSet(s, PREFIXES[i], |s|, before, now)
    ensures now == n
  {
    hide ValueAt, Literal, Names;
    OptionReads(pre, i, n, how, rest);
  }

  lemma LiteralHasNoSpace(n: nat, how: Notation, k: nat)
    requires k < |Literal(n, how)|
    ensures !IsSpace(Literal(n, how)[k])
  {
    hide Numeral;
    NumeralHasNoSpace(n, 10, false);
    NumeralHasNoSpace(n, 8, false);
    if how.Hex? { NumeralHasNoSpace(n, 16, how.upper); }
  }

  lemma NumeralHasNoSpace(n: nat, base: nat, upper: bool)
    requires 2 <= base <= 36
    ensures forall k :: 0 <= k < |Numeral(n, base, upper)| ==> !IsSpace(Numeral(n, base, upper)[k])
  {
    hide Numeral, ValueOf, DigitOf;
    NumeralMeans(n, base, upper);
  }

  /** Inside the last word no word starts. */
  lemma NothingBehind(pre: string, i: nat, n: nat, how: Notation, p: nat)
    requires i < |PREFIXES| && |pre| < p
    ensures !StartsWord(pre + PREFIXES[i] + Literal(n, how), p)
  {
    hide Literal;
    var prefix, num := PREFIXES[i], Literal(n, how);
    var s := pre + prefix + num;
    if p < |s| {
      assert s[p - 1] == if p - 1 < |pre| + |prefix| then prefix[p - 1 - |pre|] else num[p - 1 - |pre| - |prefix|];
      PrefixHasNoSpace(i);
      if p - 1 >= |pre| + |prefix| { LiteralHasNoSpace(n, how, p - 1 - |pre| - |prefix|); }
    }
  }

  lemma PrefixHasNoSpace(i: nat)
    requires i < |PREFIXES|
    ensures forall k :: 0 <= k < |PREFIXES[i]| ==> !IsSpace(PREFIXES[i][k])
  {
  }

  /** A command line that ends with an option sets it to the number written there. */
  method ParseLast(pre: string, i: nat, n: u64, how: Notation, vars: array<u64>) returns (halted: bool)
    requires i < |PREFIXES| && (pre == "" || IsSpace(pre[|pre| - 1]))
    requires vars.Length == |PREFIXES| && CString(pre + PREFIXES[i] + Literal(n, how))
    modifies vars
    ensures !halted ==> vars[i] == n
  {
    hide Literal, Names, Overflows, StartsWord, CString;
    ghost var before := vars[i];
    var s := pre + PREFIXES[i] + Literal(n, how);
    halted := ParseCmdline(s, vars);
    if !halted {
      forall p: nat | |pre| < p ensures !StartsWord(s, p) { NothingBehind(pre, i, n, how, p); }
      assert s == pre + PREFIXES[i] + (Literal(n, how) + "");
      LastWordWins(pre, i, n, how, "", before, vars[i]);
    }
  }
}
