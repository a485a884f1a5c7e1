/** The number and string conversions of kvprintf and the bounded output of vsnprintf
    (src/libc_stdio.c).
 */
module Format {
  import opened Bitfield
  import opened Numbers

  /** struct snprintf_arg with its callback, and the count that PCHAR keeps: a bounded buffer that drops
      what does not fit.  `sent` is everything that was sent. */
  class Sink {
    const str: array<char>
    const size: nat
    const before: seq<char>
    var pos: nat
    var remain: nat
    var count: nat
    ghost var sent: string

    ghost predicate Valid()
      reads this, str
    {
      && size <= str.Length == |before| && count == |sent|
      && pos + remain == size && pos == Least(|sent|, if size == 0 then 0 else size - 1)
      && str[..] == sent[..pos] + before[pos..]
    }

    constructor (str: array<char>, size: nat)
      requires size <= str.Length
      ensures Valid() && sent == "" && this.str == str && this.size == size && before == str[..]
    {
      this.str := str;
      this.size := size;
      before := str[..];
      pos := 0;
      remain := size;
      count := 0;
      sent := "";
    }

    /** snprintf_func */
    method Put(ch: char)
      requires Valid()
      modifies this, str
      ensures Valid() && sent == old(sent) + [ch]
    {
      if remain >= 2 {
        str[pos] := ch;
        pos := pos + 1;
        remain := remain - 1;
      }
      count := count + 1;
      sent := sent + [ch];
    }

    /** The end of vsnprintf. */
    method Terminate()
      requires Valid()
      modifies this, str
      ensures sent == old(sent) && count == |sent|
      ensures str[..] == Bounded(before, size, sent)
    {
      if remain >= 1 {
        str[pos] := NUL;
      }
    }
  }

  function Least(x: nat, y: nat): nat {
    if x <= y then x else y
  }

  function Largest(x: int, y: int): int {
    if x >= y then x else y
  }

  /** A buffer of `size` characters after the output `s`: as much of `s` as leaves room for the NUL, then
      the NUL; the rest as before. */
  function Bounded(before: seq<char>, size: nat, s: string): seq<char>
    requires size <= |before|
  {
    if size == 0 then before
    else
      var n := Least(|s|, size - 1);
      s[..n] + [NUL] + before[n + 1..]
  }

  // ----- number conversions -----

  /** What the format directive says: precision is meaningful after a dot only, and 0 otherwise. */
  datatype Spec = Spec(base: nat, upper: bool, ladjust: bool, sharp: bool, sign: bool, padc: char,
                       width: int, precision: int)

  predicate SpecOk(c: Spec) {
    2 <= c.base <= 36 && (c.padc == ' ' || c.padc == '0')
  }

  predicate IsNeg(c: Spec, num: u64) {
    c.sign && num >= 0x8000_0000_0000_0000
  }

  /** The number without its sign. */
  function Magnitude(c: Spec, num: u64): u64 {
    if IsNeg(c, num) then Negated(num) else num
  }

  function SignOf(c: Spec, num: u64): string {
    if IsNeg(c, num) then "-" else ""
  }

  function PrefixOf(c: Spec, num: u64): string {
    if c.sharp && num != 0 then if c.base == 8 then "0" else if c.base == 16 then "0x" else "" else ""
  }

  function DigitsOf(c: Spec, num: u64): string
    requires SpecOk(c)
  {
    Numeral(Magnitude(c, num), c.base, c.upper)
  }

  /** Room for digits: padding with zeros replaces the precision by the width. */
  function MinDigits(c: Spec, num: u64): int {
    if !c.ladjust && c.padc == '0' then c.width - |SignOf(c, num)| - |PrefixOf(c, num)| else c.precision
  }

  function Zeros(c: Spec, num: u64): nat
    requires SpecOk(c)
  {
    Largest(MinDigits(c, num) - |DigitsOf(c, num)|, 0)
  }

  function Blanks(c: Spec, num: u64): nat
    requires SpecOk(c)
  {
    Largest(c.width - |SignOf(c, num)| - |PrefixOf(c, num)| - Zeros(c, num) - |DigitsOf(c, num)|, 0)
  }

  function Formatted(c: Spec, num: u64): string
    requires SpecOk(c)
  {
    Padded(c.ladjust, Blanks(c, num), SignOf(c, num) + PrefixOf(c, num) + Repeat('0', Zeros(c, num)) + DigitsOf(c, num))
  }

  function Padded(ladjust: bool, blanks: nat, s: string): string {
    if ladjust then s + Repeat(' ', blanks) else Repeat(' ', blanks) + s
  }

  /** `n` times the same character. */
  method PutRepeated(sink: Sink, ch: char, n: int)
    requires sink.Valid()
    modifies sink, sink.str
    ensures sink.Valid() && sink.sent == old(sink.sent) + Repeat(ch, Largest(n, 0))
  {
    var left := n;
    assert old(sink.sent) + Repeat(ch, 0) == old(sink.sent);
    while left > 0
      invariant sink.Valid() && left <= Largest(n, 0)
      invariant left >= 0 || left == n
      invariant sink.sent == old(sink.sent) + Repeat(ch, Largest(n, 0) - Largest(left, 0))
    {
      RepeatNext(old(sink.sent), ch, n - left);
      sink.Put(ch);
      left := left - 1;
    }
  }

  lemma RepeatNext(s: string, ch: char, k: nat)
    ensures s + Repeat(ch, k + 1) == s + Repeat(ch, k) + [ch]
  {
  }

  method PutString(sink: Sink, s: string)
    requires sink.Valid()
    modifies sink, sink.str
    ensures sink.Valid() && sink.sent == old(sink.sent) + s
  {
    var i := 0;
    assert old(sink.sent) + s[..0] == old(sink.sent);
    while i < |s|
      invariant sink.Valid() && i <= |s| && sink.sent == old(sink.sent) + s[..i]
    {
      assert s[..i + 1] == s[..i] + [s[i]];
      sink.Put(s[i]);
      i := i + 1;
    }
    assert s[..i] == s;
  }

  /** `while (*p) PCHAR(*p--)` over a buffer filled by Ksprintn. */
  method PutDown(sink: Sink, nbuf: array<char>, p0: nat)
    requires sink.Valid() && nbuf != sink.str && p0 < nbuf.Length && nbuf[0] == NUL
    requires forall i :: 1 <= i <= p0 ==> nbuf[i] != NUL
    modifies sink, sink.str
    ensures sink.Valid() && sink.sent == old(sink.sent) + ReadDown(nbuf[..], p0)
  {
    var p: nat := p0;
    ghost var done := "";
    while nbuf[p] != NUL
      invariant sink.Valid() && p <= p0 && nbuf[..] == old(nbuf[..])
      invariant sink.sent == old(sink.sent) + done && done + ReadDown(nbuf[..], p) == ReadDown(nbuf[..], p0)
      decreases p
    {
      done := done + [nbuf[p]];
      sink.Put(nbuf[p]);
      p := p - 1;
    }
    assert p == 0 && done + [] == done;
  }

  method PutSignAndPrefix(sink: Sink, c: Spec, num: u64, neg: bool)
    requires sink.Valid()
    modifies sink, sink.str
    ensures sink.Valid() && sink.sent == old(sink.sent) + (if neg then "-" else "") + PrefixOf(c, num)
  {
    if neg {
      sink.Put('-');
    }
    if c.sharp && num != 0 {
      if c.base == 8 {
        sink.Put('0');
      } else if c.base == 16 {
        sink.Put('0');
        sink.Put('x');
      }
    }
  }

  /** The output of a number whose digits are in the buffer. */
  method PutLaidOut(sink: Sink, nbuf: array<char>, p: nat, c: Spec, num: u64, neg: bool, width: int, dwidth: int)
    requires sink.Valid() && nbuf != sink.str && p < nbuf.Length && nbuf[0] == NUL
    requires forall i :: 1 <= i <= p ==> nbuf[i] != NUL
    modifies sink, sink.str
    ensures sink.Valid()
    ensures sink.sent == old(sink.sent) + Padded(c.ladjust, Largest(width, 0),
      (if neg then "-" else "") + PrefixOf(c, num) + Repeat('0', Largest(dwidth, 0)) + ReadDown(nbuf[..], p))
  {
    hide ReadDown, Repeat, PrefixOf, Sink.Valid;
    ghost var before, digits := sink.sent, ReadDown(nbuf[..], p);
    if !c.ladjust {
      PutRepeated(sink, ' ', width);
    }
    PutSignAndPrefix(sink, c, num, neg);
    PutRepeated(sink, '0', dwidth);
    assert ReadDown(nbuf[..], p) == digits;
    PutDown(sink, nbuf, p);
    if c.ladjust {
      PutRepeated(sink, ' ', width);
    }
    ghost var sign, prefix, zeros, blanks :=
      if neg then "-" else "", PrefixOf(c, num), Repeat('0', Largest(dwidth, 0)), Repeat(' ', Largest(width, 0));
    if c.ladjust {
      assert before + sign + prefix + zeros + digits + blanks == before + (sign + prefix + zeros + digits + blanks);
    } else {
      assert before + blanks + sign + prefix + zeros + digits == before + (blanks + (sign + prefix + zeros + digits));
    }
  }

  /** The branch at the label `number`. */
  method PutNumber(sink: Sink, nbuf: array<char>, c: Spec, num0: u64)
    requires sink.Valid() && SpecOk(c) && nbuf.Length >= MAXNBUF && nbuf != sink.str
    modifies sink, sink.str, nbuf
    ensures sink.Valid() && sink.sent == old(sink.sent) + Formatted(c, num0)
  {
    hide Numeral, ReadDown, Repeat, Padded;
    var num, width, dwidth, neg := num0, c.width, c.precision, false;
    if c.sign && num >= 0x8000_0000_0000_0000 {
      neg := true;
      num := Negated(num);
    }
    var p, n := Ksprintn(nbuf, num, c.base, c.upper);
    var tmp := 0;
    if c.sharp && num != 0 {
      if c.base == 8 {
        tmp := tmp + 1;
      } else if c.base == 16 {
        tmp := tmp + 2;
      }
    }
    if neg {
      tmp := tmp + 1;
    }
    if !c.ladjust && c.padc == '0' {
      dwidth := width - tmp;
    }
    width := width - (tmp + Largest(dwidth, n));
    dwidth := dwidth - n;
    PutLaidOut(sink, nbuf, p, c, num, neg, width, dwidth);
  }

  // ----- string conversions, and whole outputs -----

  /** The part of a string that a precision lets through. */
  function Shown(s: string, dot: bool, precision: int): string {
    if dot then s[..Least(|s|, Largest(precision, 0))] else s
  }

  function FormattedText(s: string, dot: bool, precision: int, width: int, ladjust: bool, padc: char): string {
    var t := Shown(s, dot, precision);
    var pad := Repeat(padc, Largest(width - |t|, 0));
    if ladjust then t + pad else pad + t
  }

  /** The branch for %s. */
  method PutText(sink: Sink, p: string, dot: bool, dwidth: int, width0: int, ladjust: bool, padc: char)
    requires sink.Valid()
    modifies sink, sink.str
    ensures sink.Valid() && sink.sent == old(sink.sent) + FormattedText(p, dot, dwidth, width0, ladjust, padc)
  {
    hide Sink.Valid, Repeat;
    var n := |p|;
    if dot {
      n := 0;
      while n < dwidth && n < |p|
        invariant 0 <= n <= Least(|p|, Largest(dwidth, 0))
      {
        n := n + 1;
      }
    }
    var width := width0 - n;
    if !ladjust {
      PutRepeated(sink, padc, width);
    }
    PutString(sink, p[..n]);
    if ladjust {
      PutRepeated(sink, padc, width);
    }
  }

  /** What the directives of a format string ask for, one after the other, with their arguments. */
  datatype Piece =
    | Plain(ch: char)
    | Num(spec: Spec, num: u64)
    | Text(s: string, dot: bool, precision: int, width: int, ladjust: bool, padc: char)

  predicate PieceOk(x: Piece) {
    x.Num? ==> SpecOk(x.spec)
  }

  function Output(x: Piece): string
    requires PieceOk(x)
  {
    match x
    case Plain(ch) => [ch]
    case Num(c, num) => Formatted(c, num)
    case Text(s, dot, precision, width, ladjust, padc) => FormattedText(s, dot, precision, width, ladjust, padc)
  }

  predicate PiecesOk(xs: seq<Piece>) {
    forall x :: x in xs ==> PieceOk(x)
  }

  function Outputs(xs: seq<Piece>): string
    requires PiecesOk(xs)
  {
    if xs == [] then "" else Outputs(xs[..|xs| - 1]) + Output(xs[|xs| - 1])
  }

  // ----- lengths, and reading formatted numbers -----

  /** Length of sign and prefix. */
  function Marks(c: Spec, num: u64): nat {
    |SignOf(c, num)| + |PrefixOf(c, num)|
  }

  /** Exact length under every combination of flags. */
  lemma FormattedLength(c: Spec, num: u64)
    requires SpecOk(c)
    ensures var n := |DigitsOf(c, num)|;
      |Formatted(c, num)| ==
        Largest(c.width, Marks(c, num) + if !c.ladjust && c.padc == '0' then n else Largest(c.precision, n))
  {
    hide Numeral;
  }

  /** Padding with zeros forgets the precision, so the length promised for width and precision is met iff
      the number has enough digits, or the width leaves room for the precision. */
  lemma LengthIffRoom(c: Spec, num: u64)
    requires SpecOk(c)
    ensures var n := |DigitsOf(c, num)|;
      |Formatted(c, num)| == Largest(c.width, Marks(c, num) + Largest(c.precision, n)) <==>
        c.ladjust || c.padc == ' ' || c.precision <= n || Marks(c, num) + c.precision <= c.width
  {
    hide Formatted, Numeral;
    FormattedLength(c, num);
  }

  /** "%05.10d" of 1 has 5 characters, not 10. */
  lemma ZeroPaddingForgetsPrecision()
    ensures var c := Spec(10, false, false, false, true, '0', 5, 10);
      |Formatted(c, 1)| == 5 && Largest(c.width, Marks(c, 1) + Largest(c.precision, |DigitsOf(c, 1)|)) == 10
  {
    hide Formatted;
    FormattedLength(Spec(10, false, false, false, true, '0', 5, 10), 1);
  }

  lemma Restored(c: Spec, num: u64)
    ensures num ==
      if SignOf(c, num) == "-" then 0x1_0000_0000_0000_0000 - Magnitude(c, num) else Magnitude(c, num)
    ensures SignOf(c, num) == "-" ==> Magnitude(c, num) > 0
  {
  }

  /** Whatever the flags, width and precision, reading a formatted number in its base gives the number, and
      reading stops at the padding on the right. */
  lemma FormatThenRead(c: Spec, num: u64)
    requires SpecOk(c)
    ensures Strtoull(Formatted(c, num), c.base) ==
      Number(num, |Formatted(c, num)| - if c.ladjust then Blanks(c, num) else 0)
  {
    hide Strtoull, Numeral, ValueOf, IsDigitIn, Repeat, Negated;
    var m, sign, prefix := Magnitude(c, num), SignOf(c, num), PrefixOf(c, num);
    var left, right := if c.ladjust then 0 else Blanks(c, num), if c.ladjust then Blanks(c, num) else 0;
    var mark := if c.base == 16 then prefix else "";
    var zeros := Zeros(c, num) + if c.base == 8 then |prefix| else 0;
    var digits := Repeat('0', zeros) + DigitsOf(c, num);
    NumeralMeans(m, c.base, c.upper);
    LeadingZeros(zeros, DigitsOf(c, num), c.base);
    var rest := Repeat(' ', right);
    FormattedIsWritten(c, num, left, mark, digits, rest);
    assert rest == "" || rest[0] == ' ';
    ReadsWritten(Repeat(' ', left), sign, mark, digits, rest, c.base, c.base);
    Restored(c, num);
  }

  lemma FormattedIsWritten(c: Spec, num: u64, left: nat, mark: string, digits: string, rest: string)
    requires SpecOk(c) && left == if c.ladjust then 0 else Blanks(c, num)
    requires mark == if c.base == 16 then PrefixOf(c, num) else ""
    requires digits == Repeat('0', Zeros(c, num) + if c.base == 8 then |PrefixOf(c, num)| else 0) + DigitsOf(c, num)
    requires rest == Repeat(' ', if c.ladjust then Blanks(c, num) else 0)
    ensures Formatted(c, num) == Written(Repeat(' ', left), SignOf(c, num), mark, digits, rest)
  {
    hide DigitsOf, Blanks, Zeros, Repeat, SignOf, PrefixOf;
    var body := SignOf(c, num) + PrefixOf(c, num) + Repeat('0', Zeros(c, num)) + DigitsOf(c, num);
    MarkAndDigits(c, num, mark, digits);
    Associated(SignOf(c, num), PrefixOf(c, num), Repeat('0', Zeros(c, num)), DigitsOf(c, num));
    Padding(c.ladjust, Blanks(c, num), body);
    Joined(Repeat(' ', left), SignOf(c, num), mark, digits, rest);
  }

  lemma MarkAndDigits(c: Spec, num: u64, mark: string, digits: string)
    requires SpecOk(c)
    requires mark == if c.base == 16 then PrefixOf(c, num) else ""
    requires digits == Repeat('0', Zeros(c, num) + if c.base == 8 then |PrefixOf(c, num)| else 0) + DigitsOf(c, num)
    ensures mark + digits == PrefixOf(c, num) + (Repeat('0', Zeros(c, num)) + DigitsOf(c, num))
  {
    hide DigitsOf, Zeros, Repeat;
    var prefix, zeros, d := PrefixOf(c, num), Repeat('0', Zeros(c, num)), DigitsOf(c, num);
    if c.base == 8 {
      OneZero();
      ZerosJoin(|prefix|, Zeros(c, num));
      Associated("", prefix, zeros, d);
      assert mark + digits == digits;
    } else {
      assert mark == prefix;
    }
  }

  lemma Associated(a: string, b: string, c: string, d: string)
    ensures a + b + c + d == a + (b + (c + d)) && b + c + d == b + (c + d)
  {
  }

  lemma OneZero()
    ensures Repeat('0', 1) == "0" && Repeat('0', 0) == ""
  {
  }

  lemma ZerosJoin(m: nat, n: nat)
    ensures Repeat('0', m) + Repeat('0', n) == Repeat('0', n + m)
  {
  }

  lemma Joined(a: string, b: string, c: string, d: string, e: string)
    ensures a + b + c + d + e == a + (b + (c + d)) + e
  {
  }

  lemma Padding(ladjust: bool, blanks: nat, s: string)
    ensures Padded(ladjust, blanks, s) ==
      Repeat(' ', if ladjust then 0 else blanks) + s + Repeat(' ', if ladjust then blanks else 0)
  {
  }
}
