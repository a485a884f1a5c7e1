/** What printf prints for each directive, conversion by conversion, and for whole formats
    (src/libc_stdio.c).
 */
module Printed {
  import opened Bitfield
  import opened Numbers
  import opened Format
  import opened FormatString
  import opened Directives

  /** Two's complement: the one number of the size's signed range that differs from `n` by a multiple of it. */
  lemma SignedIs(n: nat, size: nat)
    requires size >= 2 && size % 2 == 0
    ensures 0 <= 2 * Signed(n, size) + size < 2 * size && (n - Signed(n, size)) % size == 0
  {
    var q, r := n / size, n % size;
    assert n == q * size + r;
    if r >= size / 2 {
      assert n - Signed(n, size) == (q + 1) * size;
      ModUnique((q + 1) * size, size, q + 1, 0);
    } else {
      ModUnique(q * size, size, q, 0);
    }
  }

  /** How many values an argument of a size has in a 64-bit build. */
  function ValuesOf(size: Size): nat {
    match size
    case Int => 0x1_0000_0000
    case Char => 0x100
    case Short => 0x1_0000
    case _ => 0x1_0000_0000_0000_0000
  }

  /** A number as it is shown. */
  datatype Value = Value(negative: bool, magnitude: nat, base: nat, upper: bool)

  function SignedValue(v: int, base: nat): Value {
    Value(v < 0, if v < 0 then -v else v, base, false)
  }

  /** The value that a number conversion shows for the argument `w`. */
  function ValueOfWord(d: Directive, w: u64, radix: int): Value {
    var size := ValuesOf(d.size);
    match d.conv
    case 'd' => SignedValue(Signed(w, size), 10)
    case 'i' => SignedValue(Signed(w, size), 10)
    case 'u' => Value(false, w % size, 10, false)
    case 'o' => Value(false, w % size, 8, false)
    case 'x' => Value(false, w % size, 16, false)
    case 'X' => Value(false, w % size, 16, true)
    case 'y' => SignedValue(Signed(w, size), 16)
    case 'p' => Value(false, w, 16, false)
    case _ =>
      var base := if 2 <= radix <= 36 then radix else 10;
      if '+' in d.flags then SignedValue(Signed(w, size), base) else Value(false, w % size, base, false)
  }

  /** Padding is on the right for "-", or for a negative width, but not for both. */
  function Aligned(d: Directive, args: seq<Arg>, body: string, pad: char): string
    requires HasWords(args, Stars(d))
  {
    var width := WidthOf(d, args);
    var room := Largest((if width < 0 then -width else width) - |body|, 0);
    if ('-' in d.flags) != (width < 0) then body + Repeat(pad, room) else Repeat(pad, room) + body
  }

  function MarksOf(v: Value, sharp: bool): string {
    (if v.negative then "-" else "") +
    (if !sharp || v.magnitude == 0 then "" else if v.base == 8 then "0" else if v.base == 16 then "0x" else "")
  }

  /** Sign, prefix, zeros and digits.  Zeros fill the precision, or with the flag "0" the width. */
  function NumberBody(d: Directive, args: seq<Arg>, v: Value): string
    requires HasWords(args, Stars(d)) && 2 <= v.base <= 36
  {
    var n := WidthOf(d, args);
    var width := if n < 0 then -n else n;
    var sharp := if d.conv == 'p' then width == 0 else '#' in d.flags;
    var marks := MarksOf(v, sharp);
    var digits := Numeral(v.magnitude, v.base, v.upper);
    var fill := '0' in d.flags && ('-' in d.flags) == (n < 0);
    var zeros := if fill then width - |marks| - |digits| else PrecisionOf(d, args) - |digits|;
    marks + Repeat('0', Largest(zeros, 0)) + digits
  }

  predicate NumberLetter(ch: char) {
    ch in {'d', 'i', 'o', 'p', 'r', 'u', 'x', 'X', 'y'}
  }

  predicate BaseOk(v: Value) {
    2 <= v.base <= 36
  }

  /** The arguments of the directive are there, of the right kinds, and its conversion is modelled. */
  predicate Fits(d: Directive, args: seq<Arg>) {
    && HasWords(args, Stars(d))
    && d.conv !in {'b', 'D', 'n'}
    && (d.conv != '%' ==> |args| > Stars(d))
    && (NumberLetter(d.conv) || d.conv == 'c' ==> args[Stars(d)].Word?)
    && (d.conv == 's' ==> args[Stars(d)].Str? || args[Stars(d)].w == 0)
  }

  /** The output of one directive. */
  function Print(d: Directive, args: seq<Arg>, radix: int): string
    requires DirectiveOk(d) && Fits(d, args)
  {
    if d.conv == '%' then "%"
    else
      var arg := args[Stars(d)];
      if d.conv == 'c' then [(arg.w % 0x100) as char]
      else if d.conv == 's' then
        var s := if arg.Str? then arg.s else "(null)";
        var shown := if d.precision.Absent? then s else s[..Least(|s|, Largest(PrecisionOf(d, args), 0))];
        Aligned(d, args, shown, if '0' in d.flags then '0' else ' ')
      else
        Aligned(d, args, NumberBody(d, args, ValueOfWord(d, arg.w, radix)), ' ')
  }

  function Uses(d: Directive): nat {
    Stars(d) + if d.conv == '%' then 0 else 1
  }

  // ----- one directive -----

  lemma SizesAre(d: Directive, args: seq<Arg>)
    requires HasWords(args, Stars(d))
    ensures SizeOf(ModsOf(d, args)) == ValuesOf(d.size)
  {
    hide Has, Signed;
  }

  /** The value of a signed or unsigned conversion. */
  function Shows(w: u64, size: nat, signed: bool, base: nat, upper: bool): Value
    requires size >= 1
  {
    if signed then SignedValue(Signed(w, size), base) else Value(false, w % size, base, upper)
  }

  lemma ValueIs(d: Directive, args: seq<Arg>, w: u64, radix: int)
    requires NumberLetter(d.conv) && HasWords(args, Stars(d))
    ensures var m := ModsOf(d, args);
      ValueOfWord(d, w, radix) ==
        if d.conv == 'p' then Value(false, w, 16, false)
        else Shows(w, ValuesOf(d.size), IsSigned(d.conv, m), BaseOf(d.conv, radix), d.conv == 'X')
    ensures IsSigned(d.conv, ModsOf(d, args)) ==> d.conv != 'X' && d.conv != 'p'
    ensures d.conv == 'p' ==> BaseOf(d.conv, radix) == 16
  {
    hide ModsOf, ValuesOf, Signed;
    ModsAreFields(d, args);
  }

  /** The value and its layout are those of the conversion. */
  lemma SpecMeans(d: Directive, args: seq<Arg>, w: u64, radix: int)
    requires NumberLetter(d.conv) && HasWords(args, Stars(d))
    ensures var m, v := ModsOf(d, args), ValueOfWord(d, w, radix);
      var c, num := SpecOf(d.conv, m, radix), NumberOf(d.conv, m, w);
      && c.base == v.base && c.upper == v.upper
      && IsNeg(c, num) == v.negative && Magnitude(c, num) == v.magnitude && (num != 0 <==> v.magnitude != 0)
  {
    hide ModsOf, SizeOf, ValueOfWord, IsSigned, BaseOf, Signed, Extend, Negated, ValuesOf, NumberLetter;
    SizesAre(d, args);
    SizeIsEven(d.size);
    ExtendMeans(w, ValuesOf(d.size));
    ValueIs(d, args, w, radix);
  }

  lemma ModsAreFields(d: Directive, args: seq<Arg>)
    requires HasWords(args, Stars(d))
    ensures var m, n := ModsOf(d, args), WidthOf(d, args);
      && m.sign == ('+' in d.flags) && m.sharp == ('#' in d.flags) && m.zero == ('0' in d.flags)
      && m.left == (('-' in d.flags) != (n < 0)) && m.width == (if n < 0 then -n else n)
      && m.precision == PrecisionOf(d, args) && m.dot == !d.precision.Absent?
  {
    hide Signed;
  }

  lemma SizeIsEven(size: Size)
    ensures ValuesOf(size) in {0x100, 0x1_0000, 0x1_0000_0000, 0x1_0000_0000_0000_0000}
  {
  }

  /** Extension to 64 bits: the sign is the top digit, and the magnitude is that of the signed value. */
  lemma ExtendMeans(w: u64, size: nat)
    requires size in {0x100, 0x1_0000, 0x1_0000_0000, 0x1_0000_0000_0000_0000}
    ensures Extend(w, size, false) == w % size
    ensures var e, v := Extend(w, size, true), Signed(w, size);
      && (e >= 0x8000_0000_0000_0000 <==> v < 0)
      && (v >= 0 ==> e == v) && (v < 0 ==> e > 0 && Negated(e) == -v)
  {
  }

  /** The layout of a number in terms of its value. */
  lemma LaidOut(c: Spec, num: u64, v: Value)
    requires SpecOk(c) && c.base == v.base && c.upper == v.upper
    requires IsNeg(c, num) == v.negative && Magnitude(c, num) == v.magnitude && (num != 0 <==> v.magnitude != 0)
    ensures var marks, digits := MarksOf(v, c.sharp), Numeral(v.magnitude, v.base, v.upper);
      var zeros := if !c.ladjust && c.padc == '0' then c.width - |marks| - |digits| else c.precision - |digits|;
      var body := marks + Repeat('0', Largest(zeros, 0)) + digits;
      Formatted(c, num) == Padded(c.ladjust, Largest(c.width - |body|, 0), body)
  {
    hide Numeral, Repeat, IsNeg, Magnitude, Padded;
    assert SignOf(c, num) + PrefixOf(c, num) == MarksOf(v, c.sharp);
  }

  lemma PaddedIsAligned(d: Directive, args: seq<Arg>, body: string)
    requires HasWords(args, Stars(d))
    ensures var m := ModsOf(d, args);
      Padded(m.left, Largest(m.width - |body|, 0), body) == Aligned(d, args, body, ' ')
  {
    hide ModsOf, WidthOf, Repeat;
    ModsAreFields(d, args);
  }

  lemma NumberPrints(d: Directive, args: seq<Arg>, w: u64, radix: int)
    requires NumberLetter(d.conv) && HasWords(args, Stars(d))
    ensures var m, v := ModsOf(d, args), ValueOfWord(d, w, radix);
      && BaseOk(v)
      && Output(Num(SpecOf(d.conv, m, radix), NumberOf(d.conv, m, w))) == Aligned(d, args, NumberBody(d, args, v), ' ')
  {
    hide ModsOf, SizeOf, ValueOfWord, Repeat, Numeral, WidthOf, PrecisionOf, NumberOf, Negated, IsNeg, Magnitude,
         Formatted, MarksOf, BaseOf, IsSigned, NumberLetter, Padded, Aligned;
    var m, v := ModsOf(d, args), ValueOfWord(d, w, radix);
    SpecMeans(d, args, w, radix);
    ModsAreFields(d, args);
    LaidOut(SpecOf(d.conv, m, radix), NumberOf(d.conv, m, w), v);
    PaddedIsAligned(d, args, NumberBody(d, args, v));
  }

  lemma TextPrints(d: Directive, args: seq<Arg>, s: string)
    requires HasWords(args, Stars(d))
    ensures
      var shown := if d.precision.Absent? then s else s[..Least(|s|, Largest(PrecisionOf(d, args), 0))];
      Output(TextOf(s, ModsOf(d, args))) == Aligned(d, args, shown, if '0' in d.flags then '0' else ' ')
  {
    hide ModsOf, Repeat, WidthOf, PrecisionOf;
    ModsAreFields(d, args);
  }

  /** A conversion is done iff its arguments are there, and then prints what the directive says. */
  lemma TakePrints(d: Directive, args: seq<Arg>, radix: int)
    requires DirectiveOk(d) && HasWords(args, Stars(d))
    ensures var t := Take(d.conv, ModsOf(d, args), args[Stars(d)..], radix);
      && (t.Took? <==> Fits(d, args))
      && (t.Took? ==> Uses(d) <= |args| && t.args == args[Uses(d)..] && Output(t.piece) == Print(d, args, radix))
  {
    hide ModsOf, Output, TextOf, Aligned, NumberBody, SpecOf, NumberOf, FlagsOk, ValueOfWord;
    var left := args[Stars(d)..];
    if left != [] {
      assert left[0] == args[Stars(d)] && left[1..] == args[Stars(d) + 1..];
      if left[0].Word? && NumberLetter(d.conv) { NumberPrints(d, args, left[0].w, radix); }
      if d.conv == 's' { TextPrints(d, args, if left[0].Str? then left[0].s else "(null)"); }
    }
    assert Output(Plain('%')) == "%" by { PlainOutput('%'); }
    if left != [] && left[0].Word? { PlainOutput((left[0].w % 0x100) as char); }
  }

  lemma PlainOutput(ch: char)
    ensures Output(Plain(ch)) == [ch]
  {
  }

  /** Without flags, width and precision. */
  function Plainly(size: Size, conv: char): Directive {
    Directive("", Absent, Absent, size, conv)
  }

  /** %d, %i, %u, %o, %x, %X, %p and %y of a word. */
  lemma PlainNumber(size: Size, conv: char, w: u64, radix: int)
    requires NumberLetter(conv) && conv != 'r'
    ensures var d := Plainly(size, conv);
      var n, v := w % ValuesOf(size), Signed(w, ValuesOf(size));
      && DirectiveOk(d) && Fits(d, [Word(w)])
      && Print(d, [Word(w)], radix) ==
        match conv
        case 'u' => Numeral(n, 10, false)
        case 'o' => Numeral(n, 8, false)
        case 'x' => Numeral(n, 16, false)
        case 'X' => Numeral(n, 16, true)
        case 'p' => (if w == 0 then "" else "0x") + Numeral(w, 16, false)
        case 'y' => if v < 0 then "-" + Numeral(-v, 16, false) else Numeral(v, 16, false)
        case _ => if v < 0 then "-" + Numeral(-v, 10, false) else Numeral(v, 10, false)
  {
    hide Numeral, Print, Signed, ValuesOf;
    PlainLayout(size, conv, w, radix);
    var v := ValueOfWord(Plainly(size, conv), w, radix);
    if !v.negative { NoMarks(v); }
  }

  lemma NoMarks(v: Value)
    requires BaseOk(v) && !v.negative
    ensures MarksOf(v, false) + Numeral(v.magnitude, v.base, v.upper) == Numeral(v.magnitude, v.base, v.upper)
  {
    hide Numeral;
    assert MarksOf(v, false) == "";
  }

  lemma PlainLayout(size: Size, conv: char, w: u64, radix: int)
    requires NumberLetter(conv)
    ensures var d := Plainly(size, conv);
      var v := ValueOfWord(d, w, radix);
      && DirectiveOk(d) && Fits(d, [Word(w)]) && BaseOk(v)
      && Print(d, [Word(w)], radix) == MarksOf(v, conv == 'p') + Numeral(v.magnitude, v.base, v.upper)
  {
    hide Numeral, ValueOfWord, MarksOf;
    var d := Plainly(size, conv);
    ValueHasBase(d, w, radix);
    var v := ValueOfWord(d, w, radix);
    var marks, digits := MarksOf(v, conv == 'p'), Numeral(v.magnitude, v.base, v.upper);
    assert NumberBody(d, [Word(w)], v) == marks + digits by {
      assert marks + Repeat('0', 0) + digits == marks + digits;
    }
    assert Repeat(' ', 0) + (marks + digits) == marks + digits;
  }

  lemma ValueHasBase(d: Directive, w: u64, radix: int)
    ensures BaseOk(ValueOfWord(d, w, radix))
  {
  }

  // ----- whole formats -----

  /** All directives find their arguments. */
  predicate AllFit(items: seq<Item>, args: seq<Arg>)
    requires ItemsOk(items)
  {
    if items == [] then true
    else
      assert items[0] in items;
      match items[0]
      case Letter(ch) => AllFit(items[1..], args)
      case Ask(d) => Fits(d, args) && AllFit(items[1..], args[Uses(d)..])
  }

  /** Letters as they are, directives as they print, and the tail as it stands. */
  function PrintAll(items: seq<Item>, tail: string, args: seq<Arg>, radix: int): string
    requires ItemsOk(items) && AllFit(items, args)
  {
    if items == [] then tail
    else
      assert items[0] in items;
      match items[0]
      case Letter(ch) => [ch] + PrintAll(items[1..], tail, args, radix)
      case Ask(d) => Print(d, args, radix) + PrintAll(items[1..], tail, args[Uses(d)..], radix)
  }

  lemma {:induction false} MeaningPrints(items: seq<Item>, tail: string, args: seq<Arg>, radix: int)
    requires ItemsOk(items)
    ensures var r := Meaning(items, tail, args, radix);
      && (r.Sent? <==> AllFit(items, args))
      && (r.Sent? ==> PiecesOk(r.pieces) && Outputs(r.pieces) == PrintAll(items, tail, args, radix))
    decreases |items|
  {
    hide Take, ModsOf, Output, Outputs, Print, Fits, Plains, FlagsOk;
    if items == [] {
      OutputOfPlains(tail);
    } else {
      var more := items[1..];
      assert items[0] in items && forall x :: x in more ==> x in items;
      match items[0]
      case Letter(ch) =>
        MeaningPrints(more, tail, args, radix);
        PlainOutput(ch);
        if AllFit(more, args) { Prepended(Plain(ch), [ch], Meaning(more, tail, args, radix)); }
      case Ask(d) =>
        if HasWords(args, Stars(d)) {
          TakePrints(d, args, radix);
          var t := Take(d.conv, ModsOf(d, args), args[Stars(d)..], radix);
          if t.Took? {
            MeaningPrints(more, tail, t.args, radix);
            if AllFit(more, t.args) { Prepended(t.piece, Print(d, args, radix), Meaning(more, tail, t.args, radix)); }
          }
        } else {
          assert !Fits(d, args) by { NoWords(d, args); }
        }
    }
  }

  lemma NoWords(d: Directive, args: seq<Arg>)
    requires !HasWords(args, Stars(d))
    ensures !Fits(d, args)
  {
  }

  lemma Prepended(x: Piece, s: string, r: Outcome)
    requires PieceOk(x) && Output(x) == s && r.Sent? && PiecesOk(r.pieces)
    ensures var all := Prepend([x], r);
      all.Sent? && PiecesOk(all.pieces) && Outputs(all.pieces) == s + Outputs(r.pieces)
  {
    hide Output, Outputs, PieceOk;
    OutputOfOne(x);
    OutputsJoin([x], r.pieces);
  }

  /** kvprintf sends a whole output iff all arguments are there, and then exactly what the format says. */
  lemma FormatPrints(items: seq<Item>, tail: string, args: seq<Arg>, radix: int)
    requires ItemsOk(items) && TailOk(tail)
    ensures var r := Run(FormatOf(items, tail), false, args, radix);
      && (r.Sent? <==> AllFit(items, args))
      && (r.Sent? ==> Outputs(r.pieces) == PrintAll(items, tail, args, radix))
  {
    hide Run, Meaning, Outputs, FormatOf, AllFit, PrintAll, TailOk;
    FormatMeans(items, tail, args, radix);
    MeaningPrints(items, tail, args, radix);
  }

  // ----- reading back -----

  /** A number printed by a directive of any flags, width, precision and size is read back in its base. */
  lemma DirectiveReadsBack(d: Directive, args: seq<Arg>, radix: int)
    requires DirectiveOk(d) && NumberLetter(d.conv) && HasWords(args, Stars(d) + 1)
    ensures var v := ValueOfWord(d, args[Stars(d)].w, radix);
      && Fits(d, args) && BaseOk(v)
      && var r := Strtoull(Print(d, args, radix), v.base);
      && r.Number?
      && r.value == if v.negative then 0x1_0000_0000_0000_0000 - v.magnitude else v.magnitude
  {
    hide Strtoull, Formatted, Blanks, FlagsOk, ModsOf, NumberOf, SpecOf, Aligned, NumberBody, ValueOfWord;
    var m, w := ModsOf(d, args), args[Stars(d)].w;
    var c, num := SpecOf(d.conv, m, radix), NumberOf(d.conv, m, w);
    SpecMeans(d, args, w, radix);
    NumberPrints(d, args, w, radix);
    FormatThenRead(c, num);
    Restored(c, num);
  }
}
