/** Printing and reading numbers: ksprintn of src/libc_stdio.c and tb_strtoull of src/strtoul.c (as built
    for amd64, where unsigned long has 64 bits).  A C string is modelled by its characters before the
    terminating NUL.
 */
module Numbers {
  import opened Bitfield

  const HEX2ASCII := "0123456789abcdefghijklmnopqrstuvwxyz"

  /** Room for 64 binary digits and the NUL. */
  const MAXNBUF := 65

  const NUL := '\0'

  function ToUpper(c: char): char {
    if 'a' <= c <= 'z' then (c as int - 0x20) as char else c
  }

  predicate IsSpace(c: char) {
    c == ' ' || 9 as char <= c <= 13 as char
  }

  predicate IsUpper(c: char) {
    'A' <= c <= 'Z'
  }

  predicate IsAlpha(c: char) {
    IsUpper(c) || 'a' <= c <= 'z'
  }

  predicate IsDigit(c: char) {
    '0' <= c <= '9'
  }

  /** Value of a digit or letter in either case. */
  function DigitOf(c: char): nat
    requires IsDigit(c) || IsAlpha(c)
  {
    if IsDigit(c) then c as int - '0' as int
    else if IsUpper(c) then c as int - 'A' as int + 10
    else c as int - 'a' as int + 10
  }

  predicate IsDigitIn(c: char, base: nat) {
    (IsDigit(c) || IsAlpha(c)) && DigitOf(c) < base
  }

  function DigitChar(d: nat, upper: bool): char
    requires d < 36
  {
    if upper then ToUpper(HEX2ASCII[d]) else HEX2ASCII[d]
  }

  /** The number in positional notation, most significant digit first. */
  function Numeral(n: nat, base: nat, upper: bool): (s: string)
    requires 2 <= base <= 36
    ensures |s| >= 1
    decreases n
  {
    if n < base then [DigitChar(n, upper)]
    else
      QuotientZero(n, base);
      Numeral(n / base, base, upper) + [DigitChar(n % base, upper)]
  }

  predicate AllDigits(s: string, base: nat) {
    forall i :: 0 <= i < |s| ==> IsDigitIn(s[i], base)
  }

  /** The number that a string of digits stands for, however large. */
  function ValueOf(s: string, base: nat): nat
    requires AllDigits(s, base)
  {
    if s == [] then 0
    else ValueOf(s[..|s| - 1], base) * base + DigitOf(s[|s| - 1])
  }

  // ----- the printer -----

  /** Characters from `p` down to the NUL at 0. */
  function ReadDown(buf: seq<char>, p: nat): (s: string)
    requires p < |buf|
    ensures |s| == p
  {
    if p == 0 then [] else [buf[p]] + ReadDown(buf, p - 1)
  }

  lemma {:induction false} ReadDownSame(x: seq<char>, y: seq<char>, p: nat)
    requires p < |x| && p < |y| && x[..p + 1] == y[..p + 1]
    ensures ReadDown(x, p) == ReadDown(y, p)
  {
    if p == 0 {
    } else {
      assert x[p] == x[..p + 1][p] == y[..p + 1][p];
      assert x[..p] == x[..p + 1][..p] == y[..p + 1][..p];
      ReadDownSame(x, y, p - 1);
    }
  }

  /** At most as many digits as the power of the base that exceeds the number. */
  lemma {:induction false} NumeralLength(n: nat, base: nat, upper: bool, k: nat)
    requires 2 <= base <= 36 && k >= 1 && n < Pow2(k)
    ensures |Numeral(n, base, upper)| <= k
    decreases k
  {
    hide DigitChar;
    if n < base {
    } else {
      HalfAtMost(n, base);
      NumeralLength(n / base, base, upper, k - 1);
    }
  }

  lemma HalfAtMost(n: nat, base: nat)
    requires base >= 2
    ensures n / base * 2 <= n
  {
    var q := n / base;
    assert n == q * base + n % base;
    MulOrder(2, base, q);
  }

  /** The last digits of `num` are in the buffer, and the digits of `n` are still to come. */
  ghost predicate PrintedUpTo(was: seq<char>, buf: seq<char>, p: nat, n: nat, num: nat, base: nat, upper: bool) {
    && 2 <= base <= 36 && |buf| == |was| && p < |buf| && buf[0] == NUL
    && Numeral(n, base, upper) + ReadDown(buf, p) == Numeral(num, base, upper)
    && (forall i :: 1 <= i <= p ==> buf[i] != NUL)
    && (forall i :: p < i < |buf| ==> buf[i] == was[i])
  }

  lemma NothingPrinted(was: seq<char>, num: nat, base: nat, upper: bool)
    requires 2 <= base <= 36 && |was| > 0
    ensures PrintedUpTo(was, was[0 := NUL], 0, num, num, base, upper)
  {
    hide Numeral;
    assert Numeral(num, base, upper) + [] == Numeral(num, base, upper);
  }

  /** One more digit in the buffer; `q` and `r` are quotient and remainder of what is still to come. */
  lemma PrintedMore(was: seq<char>, buf: seq<char>, p: nat, n: nat, q: nat, r: nat, num: nat, base: nat, upper: bool)
    requires PrintedUpTo(was, buf, p, n, num, base, upper) && p + 1 < |buf|
    requires r < base && q == n / base && r == n % base
    ensures r < 36
    ensures var now := buf[p + 1 := DigitChar(r, upper)];
      && now[0] == NUL && (forall i :: 1 <= i <= p + 1 ==> now[i] != NUL)
      && (forall i :: p + 1 < i < |now| ==> now[i] == was[i])
      && if q == 0 then ReadDown(now, p + 1) == Numeral(num, base, upper)
         else PrintedUpTo(was, now, p + 1, q, num, base, upper)
  {
    hide Numeral, DigitChar, ReadDown;
    var d, read := DigitChar(r, upper), ReadDown(buf, p);
    var now := buf[p + 1 := d];
    DigitCharIs(r, upper);
    ReadOneMore(buf, now, p + 1);
    if q == 0 {
      NumeralEnds(n, base, upper);
    } else {
      NumeralSplits(n, base, upper);
      var high := Numeral(q, base, upper);
      assert high + [d] + read == high + ([d] + read);
    }
  }

  lemma ReadOneMore(x: seq<char>, y: seq<char>, p: nat)
    requires 1 <= p < |x| && p < |y| && x[..p] == y[..p]
    ensures ReadDown(y, p) == [y[p]] + ReadDown(x, p - 1)
  {
    ReadDownSame(y, x, p - 1);
  }

  /** ksprintn: digits upwards from 1, behind the NUL, least significant first. */
  method Ksprintn(nbuf: array<char>, num: u64, base: nat, upper: bool) returns (p: nat, len: nat)
    requires nbuf.Length >= MAXNBUF && 2 <= base <= 36
    modifies nbuf
    ensures len == p < MAXNBUF && nbuf[0] == NUL && (forall i :: 1 <= i <= p ==> nbuf[i] != NUL)
    ensures ReadDown(nbuf[..], p) == Numeral(num, base, upper)
    ensures forall i :: p < i < nbuf.Length ==> nbuf[i] == old(nbuf[i])
  {
    hide DigitChar, Pow2, Numeral, ReadDown;
    var w := 64;
    WordSize(w);
    NumeralLength(num, base, upper, w);
    ghost var was := nbuf[..];
    var n: nat := num;
    p := 0;
    nbuf[0] := NUL;
    NothingPrinted(was, num, base, upper);
    while true
      invariant p < |Numeral(num, base, upper)| && PrintedUpTo(was, nbuf[..], p, n, num, base, upper)
      decreases n
    {
      QuotientZero(n, base);
      var q: nat, r: nat := n / base, n % base;
      ghost var buf := nbuf[..];
      PrintedMore(was, buf, p, n, q, r, num, base, upper);
      p := p + 1;
      nbuf[p] := DigitChar(r, upper);
      assert nbuf[..] == buf[p := DigitChar(r, upper)];
      if q == 0 {
        break;
      }
      n := q;
    }
    assert forall i :: 0 <= i < nbuf.Length ==> nbuf[i] == nbuf[..][i];
    len := p;
  }

  lemma QuotientZero(n: nat, base: nat)
    requires base >= 2
    ensures n / base >= 0 && (n / base == 0 <==> n < base)
    ensures n < base ==> n % base == n
    ensures n >= base ==> n / base < n
  {
    var q, r := n / base, n % base;
    assert n == q * base + r;
    if n < base {
      ModUnique(n, base, 0, n);
    } else if q > 0 {
      MulOrder(2, base, q);
    }
  }

  lemma NumeralEnds(n: nat, base: nat, upper: bool)
    requires 2 <= base <= 36 && n / base == 0
    ensures Numeral(n, base, upper) == [DigitChar(n % base, upper)]
  {
    hide DigitChar;
    QuotientZero(n, base);
  }

  lemma NumeralSplits(n: nat, base: nat, upper: bool)
    requires 2 <= base <= 36 && n / base != 0
    ensures Numeral(n, base, upper) == Numeral(n / base, base, upper) + [DigitChar(n % base, upper)]
    ensures n / base < n
  {
    hide DigitChar;
    QuotientZero(n, base);
  }

  lemma DigitCharIs(d: nat, upper: bool)
    requires d < 36
    ensures var c := DigitChar(d, upper); c != NUL && (IsDigit(c) || IsAlpha(c)) && DigitOf(c) == d
    ensures IsDigit(DigitChar(d, upper)) <==> d < 10
    ensures DigitChar(d, upper) == '0' <==> d == 0
  {
    HexTable(d);
  }

  /** The digits, in both cases of letters. */
  lemma DigitsAre(d: nat, upper: bool)
    requires d < 36
    ensures DigitChar(d, upper) ==
      (if upper then "0123456789ABCDEFGHIJKLMNOPQRSTUVWXYZ" else "0123456789abcdefghijklmnopqrstuvwxyz")[d]
  {
    UpperTable(d);
  }

  lemma UpperTable(d: nat)
    requires d < 36
    ensures ToUpper(HEX2ASCII[d]) == "0123456789ABCDEFGHIJKLMNOPQRSTUVWXYZ"[d]
  {
  }

  lemma {:induction false} HexTable(d: nat)
    requires d < 36
    ensures HEX2ASCII[d] == if d < 10 then (d + 48) as char else (d + 87) as char
  {
  }

  // ----- the parser -----

  /** The character at a position of a C string. */
  function At(s: string, i: nat): char
    requires i <= |s|
  {
    if i < |s| then s[i] else NUL
  }

  function SkipSpace(s: string, i: nat): (r: nat)
    requires i <= |s|
    ensures i <= r <= |s|
    decreases |s| - i
  {
    if i < |s| && IsSpace(s[i]) then SkipSpace(s, i + 1) else i
  }

  /** The end of the run of digits of the base that starts at `i`. */
  function EndOfDigits(s: string, i: nat, base: nat): (r: nat)
    requires i <= |s|
    ensures i <= r <= |s| && AllDigits(s[i..r], base)
    ensures r < |s| ==> !IsDigitIn(s[r], base)
    decreases |s| - i
  {
    if i < |s| && IsDigitIn(s[i], base) then
      var r := EndOfDigits(s, i + 1, base);
      assert s[i..r] == [s[i]] + s[i + 1..r];
      r
    else i
  }

  /** Position after spaces and sign. */
  function AfterSign(s: string): (r: nat)
    ensures r <= |s|
  {
    var i := SkipSpace(s, 0);
    if At(s, i) == '-' || At(s, i) == '+' then i + 1 else i
  }

  predicate IsNegative(s: string) {
    At(s, SkipSpace(s, 0)) == '-'
  }

  /** A 0x before the digits. */
  predicate HasPrefix(s: string, base: nat) {
    var i := AfterSign(s);
    (base == 0 || base == 16) && At(s, i) == '0' && (At(s, i + 1) == 'x' || At(s, i + 1) == 'X')
  }

  function DigitsStart(s: string, base: nat): (r: nat)
    ensures r <= |s|
  {
    if HasPrefix(s, base) then AfterSign(s) + 2 else AfterSign(s)
  }

  /** The base that the digits are read in: 0 stands for that of a C literal. */
  function ActualBase(s: string, base: nat): (r: nat)
    ensures r >= 1
  {
    if HasPrefix(s, base) then 16
    else if base != 0 then base
    else if At(s, AfterSign(s)) == '0' then 8 else 10
  }

  function Digits(s: string, base: nat): (r: string)
    ensures AllDigits(r, ActualBase(s, base))
  {
    s[DigitsStart(s, base)..EndOfDigits(s, DigitsStart(s, base), ActualBase(s, base))]
  }

  /** The machine halts, or returns a number and the position where reading stopped. */
  datatype Parsed = Halt | Number(value: u64, end: nat)

  function Negated(x: u64): u64 {
    (0x1_0000_0000_0000_0000 - x) % 0x1_0000_0000_0000_0000
  }

  /** What a digit string means: the mathematical value of the digits, when it fits 64 bits. */
  function Strtoull(s: string, base: nat): Parsed {
    var v := ValueOf(Digits(s, base), ActualBase(s, base));
    if v > U64_MAX then Halt
    else
      var end := if Digits(s, base) == [] then 0 else DigitsStart(s, base) + |Digits(s, base)|;
      Number(if IsNegative(s) then Negated(v) else v, end)
  }

  lemma Cutoff(acc: u64, c: nat, base: nat)
    requires base >= 1 && c < base
    ensures acc > U64_MAX / base || (acc == U64_MAX / base && c > U64_MAX % base) <==> acc * base + c > U64_MAX
  {
    var q, r, m: nat := U64_MAX / base, U64_MAX % base, U64_MAX;
    assert m == q * base + r;
    if acc > q { MulOrder(q + 1, acc, base); } else if acc < q { MulOrder(acc + 1, q, base); }
  }

  /** One more digit. */
  lemma NextDigit(s: string, from: nat, pos: nat, base: nat)
    requires from <= pos < |s| && AllDigits(s[from..pos], base) && IsDigitIn(s[pos], base)
    ensures AllDigits(s[from..pos + 1], base)
    ensures ValueOf(s[from..pos + 1], base) == ValueOf(s[from..pos], base) * base + DigitOf(s[pos])
  {
    hide DigitOf;
    var x := s[from..pos + 1];
    assert x[..|x| - 1] == s[from..pos] && x[|x| - 1] == s[pos];
  }

  lemma {:induction false} EndIs(s: string, i: nat, base: nat, r: nat)
    requires i <= r <= |s| && AllDigits(s[i..r], base) && (r < |s| ==> !IsDigitIn(s[r], base))
    ensures EndOfDigits(s, i, base) == r
    decreases r - i
  {
    hide IsDigitIn;
    if i >= r {
    } else {
      assert s[i..r][0] == s[i];
      assert s[i..r][1..] == s[i + 1..r];
      EndIs(s, i + 1, base, r);
    }
  }

  lemma MoreDigits(v: nat, base: nat, d: nat)
    requires base >= 1
    ensures v * base + d >= v
  {
    MulOrder(1, base, v);
  }

  /** Spaces, sign, prefix and base. */
  method ReadHead(nptr: string, base0: int) returns (s: nat, neg: bool, base: int)
    ensures s <= |nptr| && neg == IsNegative(nptr)
    ensures if base0 < 0 then base == base0 else s == DigitsStart(nptr, base0) && base == ActualBase(nptr, base0)
  {
    base, s := base0, 0;
    while IsSpace(At(nptr, s))
      invariant s <= |nptr| && SkipSpace(nptr, s) == SkipSpace(nptr, 0)
      decreases |nptr| - s
    {
      s := s + 1;
    }
    neg := At(nptr, s) == '-';
    if At(nptr, s) == '-' || At(nptr, s) == '+' {
      s := s + 1;
    }
    if (base == 0 || base == 16) && At(nptr, s) == '0' && (At(nptr, s + 1) == 'x' || At(nptr, s + 1) == 'X') {
      s := s + 2;
      base := 16;
    }
    if base == 0 {
      base := if At(nptr, s) == '0' then 8 else 10;
    }
  }

  /** What the accumulator and its sticky flag say of the digits read. */
  ghost predicate Accumulated(digits: string, base: nat, acc: u64, any: int) {
    AllDigits(digits, base) &&
    (any == 0 <==> digits == []) &&
    if any < 0 then ValueOf(digits, base) > U64_MAX else acc == ValueOf(digits, base)
  }

  lemma NothingRead(s: string, i: nat, base: nat)
    requires i <= |s|
    ensures Accumulated(s[i..i], base, 0, 0)
  {
  }

  /** The digits up to `s`, each of which is below the base; `any` is negative from the first overflow on. */
  method ReadDigits(nptr: string, from: nat, base: int) returns (s: nat, acc: u64, any: int)
    requires from <= |nptr| && -0x8000_0000 <= base < 0x8000_0000 && base != 0
    ensures if base < 0 then acc == 0 && any == 0
            else s == EndOfDigits(nptr, from, base) && Accumulated(nptr[from..s], base, acc, any)
  {
    hide ValueOf, DigitOf;
    var unsigned := base % 0x1_0000_0000_0000_0000;
    var cutoff: u64, cutlim := U64_MAX / unsigned, U64_MAX % unsigned;
    s, acc, any := from, 0, 0;
    if base > 0 {
      NothingRead(nptr, from, base);
    }
    while true
      invariant from <= s <= |nptr|
      invariant if base < 0 then acc == 0 && any == 0 else Accumulated(nptr[from..s], base, acc, any)
      decreases |nptr| - s
    {
      var c := At(nptr, s);
      if !IsDigit(c) && !IsAlpha(c) {
        break;
      }
      var d := DigitOf(c);
      if d >= base {
        break;
      }
      NextDigit(nptr, from, s, base);
      Cutoff(acc, d, base);
      MoreDigits(ValueOf(nptr[from..s], base), base, d);
      if any < 0 || acc > cutoff || (acc == cutoff && d > cutlim) {
        any := -1;
      } else {
        any := 1;
        acc := acc * base + d;
      }
      s := s + 1;
    }
    if base > 0 {
      EndIs(nptr, from, base, s);
    }
  }

  method TbStrtoull(nptr: string, base0: int) returns (r: Parsed)
    requires -0x8000_0000 <= base0 < 0x8000_0000
    ensures r == if base0 < 0 then Number(0, 0) else Strtoull(nptr, base0)
  {
    var start, neg, base := ReadHead(nptr, base0);
    var s, acc, any := ReadDigits(nptr, start, base);
    if any < 0 {
      r := Halt;
    } else {
      r := Number(if neg then Negated(acc) else acc, if any != 0 then s else 0);
    }
  }

  // ----- reading what was printed -----

  function Repeat(c: char, n: nat): (s: string)
    ensures |s| == n && forall i :: 0 <= i < n ==> s[i] == c
  {
    if n == 0 then [] else Repeat(c, n - 1) + [c]
  }

  lemma {:induction false} NumeralMeans(n: nat, base: nat, upper: bool)
    requires 2 <= base <= 36
    ensures AllDigits(Numeral(n, base, upper), base) && ValueOf(Numeral(n, base, upper), base) == n
    decreases n
  {
    hide DigitChar, IsDigitIn, DigitOf, Numeral, ValueOf;
    QuotientZero(n, base);
    var d := n % base;
    DigitIsIn(d, base, upper);
    EmptyValue(base);
    if n < base {
      NumeralEnds(n, base, upper);
      LastDigit([], DigitChar(d, upper), base);
      assert [] + [DigitChar(d, upper)] == [DigitChar(d, upper)];
    } else {
      NumeralSplits(n, base, upper);
      NumeralMeans(n / base, base, upper);
      LastDigit(Numeral(n / base, base, upper), DigitChar(d, upper), base);
    }
  }

  lemma EmptyValue(base: nat)
    ensures ValueOf([], base) == 0
  {
  }

  lemma LastDigit(s: string, c: char, base: nat)
    requires AllDigits(s, base) && IsDigitIn(c, base)
    ensures AllDigits(s + [c], base) && ValueOf(s + [c], base) == ValueOf(s, base) * base + DigitOf(c)
  {
    hide DigitOf;
    var t := s + [c];
    assert t[..|t| - 1] == s && t[|t| - 1] == c;
  }

  lemma DigitIsIn(d: nat, base: nat, upper: bool)
    requires d < base <= 36
    ensures IsDigitIn(DigitChar(d, upper), base) && DigitOf(DigitChar(d, upper)) == d
  {
    DigitCharIs(d, upper);
  }

  /** No leading zeros. */
  lemma {:induction false} FirstDigit(n: nat, base: nat, upper: bool)
    requires 2 <= base <= 36
    ensures Numeral(n, base, upper)[0] == '0' <==> n == 0
    decreases n
  {
    hide DigitChar;
    QuotientZero(n, base);
    DigitCharIs(n % base, upper);
    if n < base {
    } else {
      FirstDigit(n / base, base, upper);
    }
  }

  lemma {:induction false} LeadingZeros(k: nat, s: string, base: nat)
    requires base >= 1 && AllDigits(s, base)
    ensures AllDigits(Repeat('0', k) + s, base) && ValueOf(Repeat('0', k) + s, base) == ValueOf(s, base)
    decreases |s|, k
  {
    var z := Repeat('0', k) + s;
    if s != [] {
      var n := |s| - 1;
      assert z[..|z| - 1] == Repeat('0', k) + s[..n];
      LeadingZeros(k, s[..n], base);
    } else if k > 0 {
      assert z[..|z| - 1] == Repeat('0', k - 1) + s;
      LeadingZeros(k - 1, s, base);
    }
  }

  lemma {:induction false} SkipIs(s: string, i: nat, r: nat)
    requires i <= r <= |s| && (forall k :: i <= k < r ==> IsSpace(s[k])) && (r < |s| ==> !IsSpace(s[r]))
    ensures SkipSpace(s, i) == r
    decreases r - i
  {
    if i >= r {
    } else {
      SkipIs(s, i + 1, r);
    }
  }

  /** Space, tab, line feed, vertical tab, form feed and carriage return. */
  lemma SpacesAre(c: char)
    ensures IsSpace(c) <==> c in {' ', '\t', '\n', 11 as char, 12 as char, '\r'}
  {
  }

  predicate AllSpaces(s: string) {
    forall i :: 0 <= i < |s| ==> IsSpace(s[i])
  }

  /** Spaces, sign, prefix, digits, and a rest that does not go on with a digit or letter. */
  function Written(spaces: string, sign: string, prefix: string, digits: string, rest: string): string {
    spaces + sign + prefix + digits + rest
  }

  predicate WellWritten(spaces: string, sign: string, prefix: string, digits: string, rest: string, base: nat,
                        actual: nat) {
    && AllSpaces(spaces) && (sign == "" || sign == "-" || sign == "+")
    && (prefix == "" || ((prefix == "0x" || prefix == "0X") && (base == 0 || base == 16)))
    && actual >= 1 && digits != "" && AllDigits(digits, actual)
    && actual == (if prefix != "" then 16 else if base != 0 then base else if digits[0] == '0' then 8 else 10)
    && (rest == "" || (!IsDigit(rest[0]) && !IsAlpha(rest[0])))
  }

  /** Such a string is read as the value of its digits, or as its negation modulo 2^64. */
  lemma ReadsWritten(spaces: string, sign: string, prefix: string, digits: string, rest: string, base: nat, actual: nat)
    requires WellWritten(spaces, sign, prefix, digits, rest, base, actual)
    ensures var s, v := Written(spaces, sign, prefix, digits, rest), ValueOf(digits, actual);
      Strtoull(s, base) ==
        if v > U64_MAX then Halt
        else Number(if sign == "-" && v > 0 then 0x1_0000_0000_0000_0000 - v else v, |s| - |rest|)
  {
    hide ValueOf, DigitOf, EndOfDigits;
    var s := Written(spaces, sign, prefix, digits, rest);
    var after := |spaces| + |sign|;
    var start := after + |prefix|;
    assert s[start..start + |digits|] == digits;
    HeadIs(spaces, sign, prefix, digits, rest, base, actual);
    AfterDigits(s, start, digits, rest, actual);
    EndIs(s, start, actual, start + |digits|);
  }

  lemma AfterDigits(s: string, start: nat, digits: string, rest: string, actual: nat)
    requires start + |digits| + |rest| == |s| && s[start + |digits|..] == rest
    requires rest == "" || (!IsDigit(rest[0]) && !IsAlpha(rest[0]))
    ensures start + |digits| < |s| ==> !IsDigitIn(s[start + |digits|], actual)
  {
    if rest != "" { assert s[start + |digits|..][0] == s[start + |digits|]; }
  }

  lemma HeadIs(spaces: string, sign: string, prefix: string, digits: string, rest: string, base: nat, actual: nat)
    requires WellWritten(spaces, sign, prefix, digits, rest, base, actual)
    ensures var s := Written(spaces, sign, prefix, digits, rest);
      && IsNegative(s) == (sign == "-") && AfterSign(s) == |spaces| + |sign|
      && DigitsStart(s, base) == |spaces| + |sign| + |prefix| && ActualBase(s, base) == actual
  {
    hide DigitOf;
    var s := Written(spaces, sign, prefix, digits, rest);
    var after := |spaces| + |sign|;
    forall k | 0 <= k < |spaces| ensures IsSpace(s[k]) { assert s[k] == spaces[k]; }
    var c := if sign != "" then sign[0] else if prefix != "" then '0' else digits[0];
    assert s[|spaces|] == c;
    SkipIs(s, 0, |spaces|);
    assert s[after] == if prefix != "" then prefix[0] else digits[0];
    assert prefix != "" ==> s[after + 1] == prefix[1];
    NotPrefix(digits, rest, actual);
    assert prefix == "" ==> s[after..] == digits + rest;
    assert prefix == "" && |digits + rest| > 1 ==> s[after + 1] == (digits + rest)[1];
  }

  /** Digits of a base up to 16 do not look like a 0x prefix. */
  lemma NotPrefix(digits: string, rest: string, actual: nat)
    requires digits != "" && AllDigits(digits, actual)
    requires rest == "" || (!IsDigit(rest[0]) && !IsAlpha(rest[0]))
    ensures actual <= 16 && |digits + rest| > 1 ==> (digits + rest)[1] != 'x' && (digits + rest)[1] != 'X'
  {
  }

  /** Printing and reading a number in the same base, in either case of letters. */
  lemma PrintThenRead(n: u64, base: nat, upper: bool)
    requires 2 <= base <= 36
    ensures Strtoull(Numeral(n, base, upper), base) == Number(n, |Numeral(n, base, upper)|)
  {
    hide Strtoull, Numeral, ValueOf, IsDigitIn;
    var s := Numeral(n, base, upper);
    NumeralMeans(n, base, upper);
    assert Written("", "", "", s, "") == s;
    ReadsWritten("", "", "", s, "", base, base);
  }

  /** How C writes a number: in decimal, in octal with a leading 0, or in hexadecimal behind 0x or 0X. */
  datatype Notation = Decimal | Octal | Hex(bigX: bool, upper: bool)

  function Literal(n: nat, how: Notation): string {
    match how
    case Decimal => Numeral(n, 10, false)
    case Octal => "0" + Numeral(n, 8, false)
    case Hex(bigX, upper) => (if bigX then "0X" else "0x") + Numeral(n, 16, upper)
  }

  /** With base 0, literals are read as the number, however large, and reading stops behind them. */
  lemma LiteralReads(n: nat, how: Notation, rest: string)
    requires rest == "" || (!IsDigit(rest[0]) && !IsAlpha(rest[0]))
    ensures Strtoull(Literal(n, how) + rest, 0) == if n > U64_MAX then Halt else Number(n, |Literal(n, how)|)
  {
    hide Strtoull, Numeral, ValueOf, IsDigitIn;
    match how
    case Decimal => DecimalReads(n, rest);
    case Octal =>
      NumeralMeans(n, 8, false);
      var oct := Repeat('0', 1) + Numeral(n, 8, false);
      assert oct == "0" + Numeral(n, 8, false);
      LeadingZeros(1, Numeral(n, 8, false), 8);
      assert Written("", "", "", oct, rest) == oct + rest;
      ReadsWritten("", "", "", oct, rest, 0, 8);
    case Hex(bigX, upper) =>
      var prefix := if bigX then "0X" else "0x";
      NumeralMeans(n, 16, upper);
      assert Written("", "", prefix, Numeral(n, 16, upper), rest) == prefix + Numeral(n, 16, upper) + rest;
      ReadsWritten("", "", prefix, Numeral(n, 16, upper), rest, 0, 16);
  }

  /** Zero is read in octal. */
  lemma DecimalReads(n: nat, rest: string)
    requires rest == "" || (!IsDigit(rest[0]) && !IsAlpha(rest[0]))
    ensures var s := Numeral(n, 10, false);
      Strtoull(s + rest, 0) == if n > U64_MAX then Halt else Number(n, |s|)
  {
    hide Strtoull, ValueOf, IsDigitIn;
    var s := Numeral(n, 10, false);
    FirstDigit(n, 10, false);
    assert Written("", "", "", s, rest) == s + rest;
    if n == 0 {
      NumeralMeans(0, 8, false);
      ReadsWritten("", "", "", s, rest, 0, 8);
    } else {
      NumeralMeans(n, 10, false);
      ReadsWritten("", "", "", s, rest, 0, 10);
    }
  }

  /** Without digits nothing is read, not even the spaces, the sign or a 0x. */
  lemma ReadsNothing(spaces: string, sign: string, prefix: string, rest: string, base: nat)
    requires AllSpaces(spaces) && (sign == "" || sign == "-" || sign == "+")
    requires prefix == "" || ((prefix == "0x" || prefix == "0X") && (base == 0 || base == 16))
    requires rest == "" || (!IsDigit(rest[0]) && !IsAlpha(rest[0]) && !IsSpace(rest[0]))
    requires rest != "" ==> rest[0] != '-' && rest[0] != '+'
    ensures Strtoull(spaces + sign + prefix + rest, base) == Number(0, 0)
  {
    hide DigitOf;
    var s := spaces + sign + prefix + rest;
    var after := |spaces| + |sign|;
    forall k | 0 <= k < |spaces| ensures IsSpace(s[k]) { assert s[k] == spaces[k]; }
    var c := if sign != "" then sign[0] else if prefix != "" then '0' else if rest != "" then rest[0] else NUL;
    assert At(s, |spaces|) == c;
    SkipIs(s, 0, |spaces|);
    assert At(s, after) == if prefix != "" then prefix[0] else if rest != "" then rest[0] else NUL;
    assert prefix != "" ==> s[after + 1] == prefix[1];
    var start := after + |prefix|;
    assert s[start..] == rest;
    assert DigitsStart(s, base) == start;
    assert rest != "" ==> s[start] == rest[0];
    EndIs(s, start, ActualBase(s, base), start);
  }
}
