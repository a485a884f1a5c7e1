/** The directives of printf, as their users write them, and what the directive loop makes of them
    (src/libc_stdio.c).
 */
module Directives {
  import opened Bitfield
  import opened Numbers
  import opened Format
  import opened FormatString

  datatype Field = Absent | Literal(n: nat) | Star

  datatype Size = Int | Char | Short | Long | LongLong | Quad | Max | Diff | SizeT

  /** %[flags][width][.precision][size]conversion */
  datatype Directive = Directive(flags: string, width: Field, precision: Field, size: Size, conv: char)

  predicate IsFlag(ch: char) {
    ch in {'#', '+', '-', '0'}
  }

  predicate FlagsOk(flags: string) {
    forall i :: 0 <= i < |flags| ==> IsFlag(flags[i])
  }

  predicate ConversionLetter(ch: char) {
    ch in {'%', 'b', 'c', 'D', 'd', 'i', 'n', 'o', 'p', 'r', 's', 'u', 'x', 'X', 'y'}
  }

  predicate ModifierLetter(ch: char) {
    ch in {'.', '#', '+', '-', '*', 'h', 'j', 'l', 'q', 't', 'z', '0', '1', '2', '3', '4', '5', '6', '7', '8', '9'}
  }

  lemma LettersAre(ch: char)
    ensures IsConversion(ch) <==> ConversionLetter(ch)
    ensures ch == '*' || IsDigit(ch) || IsSetter(ch) <==> ModifierLetter(ch)
  {
  }

  /** A width of 0 would be a flag. */
  predicate DirectiveOk(d: Directive) {
    FlagsOk(d.flags) && (d.width.Literal? ==> d.width.n >= 1) && ConversionLetter(d.conv)
  }

  function FieldText(f: Field): string {
    match f
    case Absent => ""
    case Literal(n) => Numeral(n, 10, false)
    case Star => "*"
  }

  function PrecisionText(f: Field): string {
    if f.Absent? then "" else "." + FieldText(f)
  }

  function SizeText(size: Size): string {
    match size
    case Int => ""
    case Char => "hh"
    case Short => "h"
    case Long => "l"
    case LongLong => "ll"
    case Quad => "q"
    case Max => "j"
    case Diff => "t"
    case SizeT => "z"
  }

  /** The text of a directive, followed by `rest`. */
  function Rendered(d: Directive, rest: string): string {
    "%" + (d.flags + (FieldText(d.width) + (PrecisionText(d.precision) + (SizeText(d.size) + ([d.conv] + rest)))))
  }

  // ----- what a directive means -----

  function Stars(d: Directive): nat {
    (if d.width.Star? then 1 else 0) + if d.precision.Star? then 1 else 0
  }

  predicate HasWords(args: seq<Arg>, n: nat) {
    n <= |args| && forall i :: 0 <= i < n ==> args[i].Word?
  }

  /** Widths and precisions that are arguments are signed, of 32 digits. */
  function WidthOf(d: Directive, args: seq<Arg>): int
    requires d.width.Star? ==> HasWords(args, 1)
  {
    match d.width
    case Absent => 0
    case Literal(n) => n
    case Star => Signed(args[0].w, 0x1_0000_0000)
  }

  function PrecisionOf(d: Directive, args: seq<Arg>): int
    requires HasWords(args, Stars(d))
  {
    match d.precision
    case Absent => 0
    case Literal(n) => n
    case Star => Signed(args[Stars(d) - 1].w, 0x1_0000_0000)
  }

  predicate Has(flags: string, x: char) {
    x in flags
  }

  /** Order and repetition of the flags do not matter; a negative width from the arguments changes the side. */
  function ModsOf(d: Directive, args: seq<Arg>): Mods
    requires HasWords(args, Stars(d))
  {
    var n := WidthOf(d, args);
    Mods(!d.precision.Absent?, Has(d.flags, '#'), Has(d.flags, '+'), Has(d.flags, '-') != (n < 0), Has(d.flags, '0'),
         if n < 0 then -n else n, PrecisionOf(d, args),
         d.size.Char?, d.size.Short?, d.size.Max?, d.size.Long?, d.size.LongLong? || d.size.Quad?,
         d.size.Diff?, d.size.SizeT?)
  }

  // ----- the loop reads what was written -----

  function Flagged(m: Mods, flags: string): Mods {
    m.(sharp := m.sharp || Has(flags, '#'), sign := m.sign || Has(flags, '+'), left := m.left || Has(flags, '-'),
       zero := m.zero || Has(flags, '0'))
  }

  lemma ScanSetter(ch: char, m: Mods, args: seq<Arg>, t: string)
    requires IsSetter(ch) && (IsDigit(ch) ==> !m.dot && ch == '0')
    ensures Scan([ch] + t, m, args) == Scan(t, Set(m, ch), args)
  {
    hide Set;
    assert ([ch] + t)[1..] == t;
  }

  lemma HasAhead(ch: char, flags: string, x: char)
    ensures Has([ch] + flags, x) <==> x == ch || Has(flags, x)
  {
    var s := [ch] + flags;
    assert s[0] == ch && s[1..] == flags;
  }

  lemma FlagAhead(m: Mods, ch: char, flags: string)
    requires IsFlag(ch)
    ensures IsSetter(ch) && (IsDigit(ch) ==> ch == '0') && Set(m, ch).dot == m.dot
    ensures Flagged(Set(m, ch), flags) == Flagged(m, [ch] + flags)
  {
    hide Has;
    HasAhead(ch, flags, '#');
    HasAhead(ch, flags, '+');
    HasAhead(ch, flags, '-');
    HasAhead(ch, flags, '0');
  }

  lemma {:induction false} ScanFlags(flags: string, m: Mods, args: seq<Arg>, t: string)
    requires FlagsOk(flags) && !m.dot
    ensures Scan(flags + t, m, args) == Scan(t, Flagged(m, flags), args)
  {
    hide Scan, IsSetter, Flagged, Set, IsFlag, IsDigit;
    if flags == "" {
      assert flags + t == t;
      NoFlags(m);
    } else {
      var ch, more := flags[0], flags[1..];
      assert IsFlag(ch);
      assert flags == [ch] + more && flags + t == [ch] + (more + t);
      FlagAhead(m, ch, more);
      ScanSetter(ch, m, args, more + t);
      ScanFlags(more, Set(m, ch), args, t);
    }
  }

  lemma NoFlags(m: Mods)
    ensures Flagged(m, "") == m
  {
  }

  lemma {:induction false} NumeralHead(n: nat)
    requires n >= 1
    ensures Numeral(n, 10, false)[0] != '0'
    decreases n
  {
    hide DigitChar;
    if n < 10 {
      DigitCharIs(n, false);
    } else {
      QuotientZero(n, 10);
      NumeralHead(n / 10);
    }
  }

  lemma NumeralAhead(n: nat, t: string)
    requires t == "" || !IsDigit(t[0])
    ensures var k := |Numeral(n, 10, false)|; var s := Numeral(n, 10, false) + t;
      && IsDigit(s[0]) && s[k..] == t
      && EndOfDigits(s, 0, 10) == k && ValueOf(s[0..k], 10) == n
  {
    hide Numeral, ValueOf, EndOfDigits, IsDigitIn, IsDigit;
    var d := Numeral(n, 10, false);
    var s := d + t;
    NumeralMeans(n, 10, false);
    assert s[0..|d|] == d && s[|d|..] == t;
    assert IsDigitIn(d[0], 10);
    TenDigits(d[0]);
    if t != "" {
      TenDigits(t[0]);
    }
    EndIs(s, 0, 10, |d|);
  }

  /** A width, or a precision after its dot. */
  lemma ScanField(f: Field, m: Mods, args: seq<Arg>, t: string)
    requires t == "" || !IsDigit(t[0])
    requires f.Literal? ==> f.n >= 1 || m.dot
    ensures Scan(FieldText(f) + t, m, args) ==
      match f
      case Absent => Scan(t, m, args)
      case Literal(n) => Scan(t, SetNumber(m, n), args)
      case Star => if !HasWords(args, 1) then NoWord else Scan(t, SetStar(m, IntOf(args[0].w)), args[1..])
  {
    hide Numeral, EndOfDigits, ValueOf, SetStar, SetNumber;
    var s := FieldText(f) + t;
    match f
    case Absent => assert s == t;
    case Literal(n) =>
      NumeralAhead(n, t);
      if n >= 1 {
        NumeralHead(n);
      }
    case Star => assert s[1..] == t;
  }

  /** After a dot, numbers and arguments set the precision. */
  lemma PrecisionSet(m: Mods, n: int)
    ensures SetStar(m.(dot := true), n) == m.(dot := true, precision := n)
    ensures n >= 0 ==> SetNumber(m.(dot := true), n) == m.(dot := true, precision := n)
  {
  }

  lemma DotSets(m: Mods)
    ensures IsSetter('.') && !IsDigit('.') && Set(m, '.') == m.(dot := true)
  {
  }

  lemma ScanPrecision(f: Field, m: Mods, args: seq<Arg>, t: string)
    requires t == "" || !IsDigit(t[0])
    ensures Scan(PrecisionText(f) + t, m, args) ==
      match f
      case Absent => Scan(t, m, args)
      case Literal(n) => Scan(t, m.(dot := true, precision := n), args)
      case Star =>
        if !HasWords(args, 1) then NoWord
        else Scan(t, m.(dot := true, precision := IntOf(args[0].w)), args[1..])
  {
    hide FieldText, IntOf, Scan, Set, SetNumber, SetStar, IsDigit;
    DotSets(m);
    PrecisionSet(m, if f.Literal? then f.n else if f.Star? && HasWords(args, 1) then IntOf(args[0].w) else 0);
    if f.Absent? {
      assert PrecisionText(f) + t == t;
    } else {
      assert PrecisionText(f) + t == ['.'] + (FieldText(f) + t);
      ScanSetter('.', m, args, FieldText(f) + t);
      ScanField(f, m.(dot := true), args, t);
    }
  }

  /** The flags of a size, none being set before. */
  function Sized(m: Mods, size: Size): Mods {
    m.(c := size.Char?, h := size.Short?, j := size.Max?, l := size.Long?, q := size.LongLong? || size.Quad?,
       t := size.Diff?, z := size.SizeT?)
  }

  lemma ScanSize(size: Size, m: Mods, args: seq<Arg>, t: string)
    requires Sized(m, Int) == m
    ensures Scan(SizeText(size) + t, m, args) == Scan(t, Sized(m, size), args)
  {
    hide Scan;
    var text := SizeText(size);
    if size.Int? {
      assert text + t == t;
    } else if size.Char? || size.LongLong? {
      var ch := text[0];
      assert text + t == [ch] + ([ch] + t);
      ScanSetter(ch, m, args, [ch] + t);
      ScanSetter(ch, Set(m, ch), args, t);
    } else {
      ScanSetter(text[0], m, args, t);
      assert text == [text[0]];
    }
  }

  lemma ScanConversion(ch: char, m: Mods, args: seq<Arg>, rest: string)
    requires ConversionLetter(ch)
    ensures Scan([ch] + rest, m, args) == Found([ch] + rest, m, args) && !IsDigit(ch)
  {
  }

  /** What follows a width or a precision is no digit. */
  lemma HeadsAreNoDigits(f: Field, size: Size, ch: char, rest: string)
    requires !IsDigit(ch)
    ensures var t := SizeText(size) + ([ch] + rest);
      t != "" && !IsDigit(t[0]) && PrecisionText(f) + t != "" && !IsDigit((PrecisionText(f) + t)[0])
  {
    hide FieldText;
    var t := SizeText(size) + ([ch] + rest);
    assert PrecisionText(f) == "" ==> PrecisionText(f) + t == t;
  }

  /** The width, none being set before. */
  lemma ScanWidth(d: Directive, m: Mods, args: seq<Arg>, t: string)
    requires DirectiveOk(d) && m.width == 0 && !m.dot && (t == "" || !IsDigit(t[0]))
    ensures Scan(FieldText(d.width) + t, m, args) ==
      if d.width.Star? && !HasWords(args, 1) then NoWord
      else
        var n := WidthOf(d, args);
        Scan(t, m.(width := if n < 0 then -n else n, left := m.left != (n < 0)),
             if d.width.Star? then args[1..] else args)
  {
    hide Scan, FieldText, Signed, ConversionLetter, FlagsOk, IsDigit;
    ScanField(d.width, m, args, t);
  }

  /** What follows the width. */
  lemma ScanTail(d: Directive, m: Mods, args: seq<Arg>, rest: string)
    requires DirectiveOk(d) && !m.dot && m.precision == 0 && Sized(m, Int) == m
    ensures Scan(PrecisionText(d.precision) + (SizeText(d.size) + ([d.conv] + rest)), m, args) ==
      if d.precision.Star? && !HasWords(args, 1) then NoWord
      else
        var p := match d.precision case Absent => 0 case Literal(n) => n case Star => IntOf(args[0].w);
        Found([d.conv] + rest, Sized(m.(dot := !d.precision.Absent?, precision := p), d.size),
              if d.precision.Star? then args[1..] else args)
  {
    hide Scan, PrecisionText, SizeText, Signed, ConversionLetter, FlagsOk, IsDigit;
    var t4 := [d.conv] + rest;
    var t3 := SizeText(d.size) + t4;
    ScanConversion(d.conv, m, args, rest);
    HeadsAreNoDigits(d.precision, d.size, d.conv, rest);
    ScanPrecision(d.precision, m, args, t3);
    if d.precision.Star? && !HasWords(args, 1) {
    } else {
      var p := match d.precision case Absent => 0 case Literal(n) => n case Star => IntOf(args[0].w);
      var m' := m.(dot := !d.precision.Absent?, precision := p);
      var left := if d.precision.Star? then args[1..] else args;
      ScanSize(d.size, m', left, t4);
      ScanConversion(d.conv, Sized(m', d.size), left, rest);
    }
  }

  /** The directive loop gets from the text of a directive to its conversion with what the directive means, or
      lacks an argument. */
  lemma ScanRendered(d: Directive, args: seq<Arg>, rest: string)
    requires DirectiveOk(d)
    ensures Scan(Rendered(d, rest)[1..], START, args) ==
      if HasWords(args, Stars(d)) then Found([d.conv] + rest, ModsOf(d, args), args[Stars(d)..]) else NoWord
  {
    hide Scan, FieldText, PrecisionText, SizeText, Has, Signed, ConversionLetter, FlagsOk, IsDigit, ModsOf;
    var t2 := PrecisionText(d.precision) + (SizeText(d.size) + ([d.conv] + rest));
    var t1 := FieldText(d.width) + t2;
    assert Rendered(d, rest)[1..] == d.flags + t1;
    var m := Flagged(START, d.flags);
    assert m.width == 0 && !m.dot && m.precision == 0 && Sized(m, Int) == m;
    ScanFlags(d.flags, START, args, t1);
    ScanConversion(d.conv, m, args, rest);
    HeadsAreNoDigits(d.precision, d.size, d.conv, rest);
    ScanWidth(d, m, args, t2);
    WordsSplit(d, args);
    if !d.width.Star? || HasWords(args, 1) {
      var n := WidthOf(d, args);
      var m' := m.(width := if n < 0 then -n else n, left := m.left != (n < 0));
      ScanTail(d, m', if d.width.Star? then args[1..] else args, rest);
      if HasWords(args, Stars(d)) { ModsAre(d, args); }
    }
  }

  /** What the steps of the loop add up to. */
  lemma ModsAre(d: Directive, args: seq<Arg>)
    requires HasWords(args, Stars(d))
    ensures var n, m := WidthOf(d, args), Flagged(START, d.flags);
      var m' := m.(width := if n < 0 then -n else n, left := m.left != (n < 0));
      ModsOf(d, args) ==
        Sized(m'.(dot := !d.precision.Absent?, precision := PrecisionOf(d, args)), d.size)
  {
    hide Has, Signed;
  }

  lemma WordsSplit(d: Directive, args: seq<Arg>)
    ensures HasWords(args, Stars(d)) <==>
      && (d.width.Star? ==> HasWords(args, 1))
      && (d.precision.Star? ==> HasWords(if d.width.Star? then args[1..] else args, 1))
  {
    hide Signed;
    if d.width.Star? && d.precision.Star? && |args| >= 2 {
      assert args[1..][0] == args[1];
    }
  }

  // ----- whole formats -----

  datatype Item = Letter(ch: char) | Ask(d: Directive)

  predicate ItemsOk(items: seq<Item>) {
    forall x :: x in items ==> if x.Letter? then x.ch != '%' else DirectiveOk(x.d)
  }

  /** Nothing, or an unknown directive with anything behind it. */
  predicate TailOk(tail: string) {
    tail == "" || (|tail| >= 2 && tail[0] == '%' && !ModifierLetter(tail[1]) && !ConversionLetter(tail[1]))
  }

  function FormatOf(items: seq<Item>, tail: string): string {
    if items == [] then tail
    else
      match items[0]
      case Letter(ch) => [ch] + FormatOf(items[1..], tail)
      case Ask(d) => Rendered(d, FormatOf(items[1..], tail))
  }

  /** Every directive takes its arguments from where the one before stopped; the tail is sent as it stands. */
  function Meaning(items: seq<Item>, tail: string, args: seq<Arg>, radix: int): Outcome
    requires ItemsOk(items)
  {
    if items == [] then Sent(Plains(tail))
    else
      match items[0]
      case Letter(ch) => Prepend([Plain(ch)], Meaning(items[1..], tail, args, radix))
      case Ask(d) =>
        assert items[0] in items;
        if !HasWords(args, Stars(d)) then NoArgument
        else
          LettersAre(d.conv);
          var t := Take(d.conv, ModsOf(d, args), args[Stars(d)..], radix);
          if t.Took? then Prepend([t.piece], Meaning(items[1..], tail, t.args, radix)) else Refused(t)
  }

  lemma {:induction false} AfterStop(s: string, args: seq<Arg>, radix: int)
    ensures Run(s, true, args, radix) == Sent(Plains(s))
  {
    if s == "" {
    } else {
      AfterStop(s[1..], args, radix);
    }
  }

  lemma RunRendered(d: Directive, rest: string, args: seq<Arg>, radix: int)
    requires DirectiveOk(d)
    ensures Run(Rendered(d, rest), false, args, radix) ==
      if !HasWords(args, Stars(d)) then NoArgument
      else
        var t := Take(d.conv, ModsOf(d, args), args[Stars(d)..], radix);
        if t.Took? then Prepend([t.piece], Run(rest, false, t.args, radix)) else Refused(t)
  {
    hide Scan, IsConversion, ConversionLetter, Take, ModsOf, FlagsOk, FieldText, PrecisionText, SizeText;
    LettersAre(d.conv);
    ScanRendered(d, args, rest);
    assert ([d.conv] + rest)[1..] == rest;
  }

  lemma UnknownDirective(tail: string, args: seq<Arg>, radix: int)
    requires TailOk(tail)
    ensures Run(tail, false, args, radix) == Sent(Plains(tail))
  {
    hide Plains, Prepend;
    if tail == "" {
      assert Plains("") == [] by { PlainsOfNone(); }
    } else {
      var rest := tail[1..];
      assert tail[1] == rest[0];
      assert Scan(rest, START, args) == Found(rest, START, args) by { hide Run; }
      AfterStop(rest[1..], args, radix);
      assert tail == tail[..2] + rest[1..];
      PlainsJoin(tail[..2], rest[1..]);
      PrependPlains(tail[..2], rest[1..]);
    }
  }

  lemma PlainsOfNone()
    ensures Plains("") == []
  {
  }

  lemma {:induction false} PlainsJoin(s: string, t: string)
    ensures Plains(s + t) == Plains(s) + Plains(t)
  {
    if s == "" {
      assert s + t == t;
    } else {
      assert (s + t)[1..] == s[1..] + t;
      PlainsJoin(s[1..], t);
    }
  }

  lemma PrependPlains(s: string, t: string)
    ensures Prepend(Plains(s), Sent(Plains(t))) == Sent(Plains(s) + Plains(t))
  {
  }

  /** The directive loop reads formats as they are meant; an unknown directive ends the reading and is sent as it
      stands with all that follows. */
  lemma {:induction false} FormatMeans(items: seq<Item>, tail: string, args: seq<Arg>, radix: int)
    requires ItemsOk(items) && TailOk(tail)
    ensures Run(FormatOf(items, tail), false, args, radix) == Meaning(items, tail, args, radix)
    decreases |items|
  {
    hide Scan, IsConversion, ConversionLetter, Take, ModsOf, Plains, Prepend, FlagsOk, TailOk, Rendered;
    if items == [] {
      UnknownDirective(tail, args, radix);
    } else {
      var more := items[1..];
      assert items[0] in items && forall x :: x in more ==> x in items;
      match items[0]
      case Letter(ch) =>
        var s := [ch] + FormatOf(more, tail);
        assert s[0] == ch && s[1..] == FormatOf(more, tail);
        FormatMeans(more, tail, args, radix);
      case Ask(d) =>
        LettersAre(d.conv);
        RunRendered(d, FormatOf(more, tail), args, radix);
        if HasWords(args, Stars(d)) {
          var taken := Take(d.conv, ModsOf(d, args), args[Stars(d)..], radix);
          if taken.Took? {
            FormatMeans(more, tail, taken.args, radix);
          }
        }
    }
  }

  // ----- the end of the format -----

  function SkipModifiers(s: string): (r: string)
    ensures |r| <= |s|
  {
    if s != "" && ModifierLetter(s[0]) then SkipModifiers(s[1..]) else s
  }

  /** What a caller can check: no directive is cut off by the end of the format. */
  predicate Whole(fmt: string)
    decreases |fmt|
  {
    if fmt == "" then true
    else if fmt[0] != '%' then Whole(fmt[1..])
    else
      var r := SkipModifiers(fmt[1..]);
      r != "" && (ConversionLetter(r[0]) ==> Whole(r[1..]))
  }

  lemma {:induction false} SkipDigits(s: string, k: nat)
    requires k <= |s| && AllDigits(s[0..k], 10)
    ensures SkipModifiers(s[k..]) == SkipModifiers(s)
  {
    hide IsDigitIn;
    if k == 0 {
      assert s[k..] == s;
    } else {
      assert s[0..k][0] == s[0] && s[0..k][1..] == s[1..][0..k - 1];
      LettersAre(s[0]);
      TenDigits(s[0]);
      SkipDigits(s[1..], k - 1);
      assert s[1..][k - 1..] == s[k..];
    }
  }

  lemma {:induction false} ScanSkips(s: string, m: Mods, args: seq<Arg>)
    ensures var r := Scan(s, m, args);
      && (r.Over? ==> SkipModifiers(s) == "")
      && (r.Found? ==> SkipModifiers(s) == r.rest)
    decreases |s|
  {
    hide ModifierLetter, EndOfDigits, ValueOf, IsSetter, Set, SetStar, SetNumber, Signed, IsDigit;
    if s != "" { LettersAre(s[0]); }
    if s == "" {
    } else if s[0] == '*' {
      if args != [] && args[0].Word? {
        ScanSkips(s[1..], SetStar(m, IntOf(args[0].w)), args[1..]);
      }
    } else if StartsNumber(m, s[0]) {
      var k := EndOfDigits(s, 0, 10);
      DigitsAhead(s);
      SkipDigits(s, k);
      ScanSkips(s[k..], SetNumber(m, ValueOf(s[0..k], 10)), args);
    } else if IsSetter(s[0]) {
      ScanSkips(s[1..], Set(m, s[0]), args);
    } else {
      DigitsAreModifiers(m, s[0]);
    }
  }

  lemma DigitsAreModifiers(m: Mods, ch: char)
    requires !StartsNumber(m, ch)
    ensures IsDigit(ch) ==> IsSetter(ch)
  {
  }

  /** The code stays inside the format iff no directive is cut off, provided the arguments are there. */
  lemma {:induction false} StaysInside(fmt: string, args: seq<Arg>, radix: int)
    ensures var r := Run(fmt, false, args, radix);
      r.Sent? || r.PastEnd? ==> (r.Sent? <==> Whole(fmt))
    decreases |fmt|
  {
    hide Scan, IsConversion, ConversionLetter, Take, Plains;
    if fmt == "" {
    } else if fmt[0] != '%' {
      StaysInside(fmt[1..], args, radix);
    } else {
      ScanSkips(fmt[1..], START, args);
      var r := Scan(fmt[1..], START, args);
      if r.Found? {
        LettersAre(r.rest[0]);
        if !IsConversion(r.rest[0]) {
          AfterStop(r.rest[1..], r.args, radix);
        } else {
          var t := Take(r.rest[0], r.m, r.args, radix);
          if t.Took? {
            StaysInside(r.rest[1..], t.args, radix);
          }
        }
      }
    }
  }

  /** "100%", say, is read past its end. */
  lemma {:induction false} LonePercent(text: string, args: seq<Arg>, radix: int)
    requires forall i :: 0 <= i < |text| ==> text[i] != '%'
    ensures Run(text + "%", false, args, radix) == PastEnd
  {
    hide IsConversion, Take, Plains, IsSetter;
    var s := text + "%";
    if text == "" {
      assert s == "%" && s[1..] == "";
      ScanOver(START, args);
    } else {
      assert s[0] == text[0] && s[1..] == text[1..] + "%";
      LonePercent(text[1..], args, radix);
    }
  }
}
