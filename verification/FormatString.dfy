/** The directive loop of kvprintf (src/libc_stdio.c): how a format string and its arguments become pieces of
    output, and vsnprintf on top of it.
 */
module FormatString {
  import opened Bitfield
  import opened Numbers
  import opened Format

  type CString = s: string | NUL !in s

  /** An argument as it lies in the list of a 64-bit build: a word, or a pointer to a string. */
  datatype Arg = Word(w: u64) | Str(s: CString)

  /** What the characters between % and conversion have set; `c` to `z` are the flags of the sizes. */
  datatype Mods = Mods(dot: bool, sharp: bool, sign: bool, left: bool, zero: bool, width: int, precision: int,
                       c: bool, h: bool, j: bool, l: bool, q: bool, t: bool, z: bool)

  const START := Mods(false, false, false, false, false, 0, 0, false, false, false, false, false, false, false)
  const CONVERSIONS := "%bcDdinoprsuXxy"
  const NUMBERS := "dioprxXuy"

  /** `n` as a signed number of the size that has `size` values. */
  function Signed(n: nat, size: nat): int
    requires size >= 1
  {
    if n % size >= size / 2 then n % size - size else n % size
  }

  /** va_arg(ap, int) */
  function IntOf(w: u64): int {
    Signed(w, 0x1_0000_0000)
  }

  // ----- modifiers -----

  predicate IsSetter(ch: char) {
    ch in {'.', '#', '+', '-', '0', 'h', 'j', 'l', 'q', 't', 'z'}
  }

  function Set(m: Mods, ch: char): Mods {
    match ch
    case '.' => m.(dot := true)
    case '#' => m.(sharp := true)
    case '+' => m.(sign := true)
    case '-' => m.(left := true)
    case '0' => m.(zero := true)
    case 'h' => if m.h then m.(h := false, c := true) else m.(h := true)
    case 'j' => m.(j := true)
    case 'l' => if m.l then m.(l := false, q := true) else m.(l := true)
    case 'q' => m.(q := true)
    case 't' => m.(t := true)
    case _ => m.(z := true)
  }

  function SetNumber(m: Mods, n: nat): Mods {
    if m.dot then m.(precision := n) else m.(width := n)
  }

  /** A negative width turns the side of the padding around. */
  function SetStar(m: Mods, n: int): Mods {
    if m.dot then m.(precision := n)
    else if n < 0 then m.(width := -n, left := !m.left)
    else m.(width := n)
  }

  /** The end of the modifiers: the format is over, an argument is missing or no number, or a character that is
      no modifier begins `rest`. */
  datatype Scanned = Over | NoWord | Found(rest: string, m: Mods, args: seq<Arg>)

  predicate StartsNumber(m: Mods, ch: char) {
    IsDigit(ch) && (m.dot || ch != '0')
  }

  function Scan(s: string, m: Mods, args: seq<Arg>): (r: Scanned)
    ensures r.Found? ==> 0 < |r.rest| <= |s| && r.rest == s[|s| - |r.rest|..]
    decreases |s|
  {
    if s == "" then Over
    else if s[0] == '*' then
      if args == [] || args[0].Str? then NoWord else Scan(s[1..], SetStar(m, IntOf(args[0].w)), args[1..])
    else if StartsNumber(m, s[0]) then
      var k := EndOfDigits(s, 0, 10);
      DigitsAhead(s);
      Scan(s[k..], SetNumber(m, ValueOf(s[0..k], 10)), args)
    else if IsSetter(s[0]) then Scan(s[1..], Set(m, s[0]), args)
    else Found(s, m, args)
  }

  lemma TenDigits(ch: char)
    ensures IsDigitIn(ch, 10) <==> IsDigit(ch)
  {
  }

  lemma DigitsAhead(s: string)
    requires s != "" && IsDigit(s[0])
    ensures EndOfDigits(s, 0, 10) >= 1
  {
    TenDigits(s[0]);
  }

  /** Scanning from a position of the format and of the arguments. */
  function ScanFrom(fmt: string, i: nat, m: Mods, args: seq<Arg>, a: nat): Scanned
    requires i <= |fmt| && a <= |args|
  {
    Scan(fmt[i..], m, args[a..])
  }

  function NumberEnd(fmt: string, i: nat): (end: nat)
    requires i < |fmt| && IsDigit(fmt[i])
    ensures i < end <= |fmt|
  {
    DigitsAhead(fmt[i..]);
    i + EndOfDigits(fmt[i..], 0, 10)
  }

  function NumberAt(fmt: string, i: nat): nat
    requires i < |fmt| && IsDigit(fmt[i])
  {
    ValueOf(fmt[i..][0..EndOfDigits(fmt[i..], 0, 10)], 10)
  }

  /** The three kinds of steps. */
  lemma ScanAt(fmt: string, i: nat, m: Mods, args: seq<Arg>, a: nat)
    requires i < |fmt| && a <= |args|
    ensures ScanFrom(fmt, i, m, args, a) ==
      if fmt[i] == '*' then
        if a == |args| || args[a].Str? then NoWord
        else ScanFrom(fmt, i + 1, SetStar(m, IntOf(args[a].w)), args, a + 1)
      else if StartsNumber(m, fmt[i]) then
        ScanFrom(fmt, NumberEnd(fmt, i), SetNumber(m, NumberAt(fmt, i)), args, a)
      else if IsSetter(fmt[i]) then ScanFrom(fmt, i + 1, Set(m, fmt[i]), args, a)
      else Found(fmt[i..], m, args[a..])
  {
    hide EndOfDigits, ValueOf, IsSetter, SetStar, SetNumber, Set, IntOf;
    assert fmt[i..][1..] == fmt[i + 1..];
    if a < |args| {
      assert args[a..][1..] == args[a + 1..];
    }
    if StartsNumber(m, fmt[i]) {
      assert fmt[i..][NumberEnd(fmt, i) - i..] == fmt[NumberEnd(fmt, i)..];
    }
  }

  /** The cases of the switch that go on to the next character. */
  method ScanModifiers(fmt: string, start: nat, args: seq<Arg>, a0: nat)
    returns (found: bool, i: nat, m: Mods, a: nat)
    requires start <= |fmt| && a0 <= |args|
    ensures a0 <= a <= |args| && start <= i <= |fmt|
    ensures found == Scan(fmt[start..], START, args[a0..]).Found?
    ensures found ==> i < |fmt| && Scan(fmt[start..], START, args[a0..]) == Found(fmt[i..], m, args[a..])
  {
    hide NumberEnd, NumberAt, IsSetter, Set, SetStar, SetNumber, Scan, IntOf, ScanFrom;
    ghost var all := ScanFrom(fmt, start, START, args, a0);
    assert all == Scan(fmt[start..], START, args[a0..]) by { FromIs(fmt, start, START, args, a0); }
    i, m, a := start, START, a0;
    while i < |fmt| && (fmt[i] == '*' || IsDigit(fmt[i]) || IsSetter(fmt[i]))
      invariant start <= i <= |fmt| && a0 <= a <= |args|
      invariant ScanFrom(fmt, i, m, args, a) == all
    {
      ScanAt(fmt, i, m, args, a);
      ZeroIsSetter();
      if fmt[i] == '*' {
        if a == |args| || args[a].Str? {
          return false, i, m, a;
        }
        m, a, i := SetStar(m, IntOf(args[a].w)), a + 1, i + 1;
      } else if StartsNumber(m, fmt[i]) {
        var n, end := ScanNumber(fmt, i);
        m, i := SetNumber(m, n), end;
      } else {
        m, i := Set(m, fmt[i]), i + 1;
      }
    }
    found := i < |fmt|;
    if found {
      ScanAt(fmt, i, m, args, a);
    } else {
      FromIs(fmt, i, m, args, a);
      assert fmt[i..] == "";
      ScanOver(m, args[a..]);
    }
  }

  lemma FromIs(fmt: string, i: nat, m: Mods, args: seq<Arg>, a: nat)
    requires i <= |fmt| && a <= |args|
    ensures ScanFrom(fmt, i, m, args, a) == Scan(fmt[i..], m, args[a..])
  {
  }

  lemma ZeroIsSetter()
    ensures IsSetter('0')
  {
  }

  lemma ScanOver(m: Mods, args: seq<Arg>)
    ensures Scan("", m, args) == Over
  {
  }

  method ScanNumber(fmt: string, i: nat) returns (n: nat, end: nat)
    requires i < |fmt| && IsDigit(fmt[i])
    ensures end == NumberEnd(fmt, i) && n == NumberAt(fmt, i)
  {
    hide IsDigitIn, DigitOf, EndOfDigits;
    ghost var s := fmt[i..];
    n, end := 0, i;
    while end < |fmt| && IsDigit(fmt[end])
      invariant i <= end <= |fmt| && AllDigits(s[0..end - i], 10)
      invariant n == ValueOf(s[0..end - i], 10)
    {
      TenDigits(fmt[end]);
      NextDigit(s, 0, end - i, 10);
      DecimalDigit(fmt[end]);
      n := n * 10 + (fmt[end] as int - '0' as int);
      end := end + 1;
    }
    if end < |fmt| {
      TenDigits(fmt[end]);
    }
    EndIs(s, 0, 10, end - i);
  }

  lemma DecimalDigit(ch: char)
    requires IsDigit(ch)
    ensures DigitOf(ch) == ch as int - '0' as int
  {
  }

  // ----- conversions -----

  /** Number of values of the argument that the sizes ask for. */
  function SizeOf(m: Mods): (size: nat)
    ensures size >= 2 && size % 2 == 0
  {
    if m.j || m.q || m.t || m.l || m.z then 0x1_0000_0000_0000_0000
    else if m.h then 0x1_0000 else if m.c then 0x100 else 0x1_0000_0000
  }

  /** The argument cut to its size, and extended to 64 bits with its sign or with zeros. */
  function Extend(w: u64, size: nat, signed: bool): u64
    requires size >= 1
  {
    if signed then Signed(w, size) % 0x1_0000_0000_0000_0000 else w % size
  }

  predicate IsNumber(ch: char) {
    ch in {'d', 'i', 'o', 'p', 'r', 'x', 'X', 'u', 'y'}
  }

  predicate IsConversion(ch: char) {
    IsNumber(ch) || ch in {'%', 'b', 'c', 'D', 'n', 's'}
  }

  function RadixOf(radix: int): (base: nat)
    ensures 2 <= base <= 36
  {
    if 2 <= radix <= 36 then radix else 10
  }

  function BaseOf(ch: char, radix: int): (base: nat)
    ensures 2 <= base <= 36
  {
    match ch
    case 'o' => 8
    case 'p' => 16
    case 'x' => 16
    case 'X' => 16
    case 'y' => 16
    case 'r' => RadixOf(radix)
    case _ => 10
  }

  predicate IsSigned(ch: char, m: Mods) {
    ch in {'d', 'i', 'y'} || (ch == 'r' && m.sign)
  }

  function PadOf(m: Mods): char {
    if m.zero then '0' else ' '
  }

  function SpecOf(ch: char, m: Mods, radix: int): (c: Spec)
    ensures SpecOk(c)
  {
    Spec(BaseOf(ch, radix), ch == 'X', m.left, if ch == 'p' then m.width == 0 else m.sharp, IsSigned(ch, m), PadOf(m),
         m.width, m.precision)
  }

  function NumberOf(ch: char, m: Mods, w: u64): u64 {
    if ch == 'p' then w else Extend(w, SizeOf(m), IsSigned(ch, m))
  }

  /** What a whole format sends; or the code reads past the end of the format; or an argument is missing or of
      another kind; or it meets one of the conversions b, D and n, which are not part of this model. */
  datatype Outcome = Sent(pieces: seq<Piece>) | PastEnd | NoArgument | Unmodelled

  /** One conversion takes its argument. */
  datatype Taken = Took(piece: Piece, args: seq<Arg>) | Missed | Skipped

  function Take(ch: char, m: Mods, args: seq<Arg>, radix: int): (r: Taken)
    requires IsConversion(ch)
    ensures r.Took? ==> PieceOk(r.piece)
  {
    if ch == '%' then Took(Plain(ch), args)
    else if ch in {'b', 'D', 'n'} then Skipped
    else if args == [] then Missed
    else
      match args[0]
      case Str(s) => if ch == 's' then Took(TextOf(s, m), args[1..]) else Missed
      case Word(w) =>
        if IsNumber(ch) then Took(Num(SpecOf(ch, m, radix), NumberOf(ch, m, w)), args[1..])
        else if ch == 'c' then Took(Plain((w % 0x100) as char), args[1..])
        else if w == 0 then Took(TextOf("(null)", m), args[1..])
        else Missed
  }

  function Refused(t: Taken): Outcome {
    if t.Missed? then NoArgument else Unmodelled
  }

  function TextOf(s: string, m: Mods): Piece {
    Text(s, m.dot, m.precision, m.width, m.left, PadOf(m))
  }

  // ----- whole formats -----

  function Prepend(xs: seq<Piece>, r: Outcome): Outcome {
    if r.Sent? then Sent(xs + r.pieces) else r
  }

  function Plains(s: string): (xs: seq<Piece>)
    ensures PiecesOk(xs) && |xs| == |s|
  {
    if s == "" then [] else [Plain(s[0])] + Plains(s[1..])
  }

  /** After an unknown conversion everything is sent as it stands. */
  function Run(s: string, stop: bool, args: seq<Arg>, radix: int): (r: Outcome)
    ensures r.Sent? ==> PiecesOk(r.pieces)
    decreases |s|
  {
    hide IsConversion, Take, Scan;
    if s == "" then Sent([])
    else if s[0] != '%' || stop then Prepend([Plain(s[0])], Run(s[1..], stop, args, radix))
    else
      match Scan(s[1..], START, args)
      case Over => PastEnd
      case NoWord => NoArgument
      case Found(rest, m, left) =>
        if !IsConversion(rest[0]) then
          Prepend(Plains(s[..|s| - |rest| + 1]), Run(rest[1..], true, left, radix))
        else
          var t := Take(rest[0], m, left, radix);
          if t.Took? then Prepend([t.piece], Run(rest[1..], false, t.args, radix)) else Refused(t)
  }

  lemma LastOutput(xs: seq<Piece>, x: Piece)
    requires PiecesOk(xs) && PieceOk(x)
    ensures PiecesOk(xs + [x]) && Outputs(xs + [x]) == Outputs(xs) + Output(x)
  {
    hide Output, PieceOk;
    var zs := xs + [x];
    assert zs[..|zs| - 1] == xs && zs[|zs| - 1] == x;
  }

  lemma {:induction false} OutputsJoin(xs: seq<Piece>, ys: seq<Piece>)
    requires PiecesOk(xs) && PiecesOk(ys)
    ensures PiecesOk(xs + ys) && Outputs(xs + ys) == Outputs(xs) + Outputs(ys)
  {
    hide Output, Outputs, PieceOk;
    if ys == [] {
      assert xs + ys == xs;
      NoOutput();
    } else {
      var n := |ys| - 1;
      var y := ys[n];
      assert y in ys && forall z :: z in ys[..n] ==> z in ys;
      OutputsJoin(xs, ys[..n]);
      LastOutput(ys[..n], y);
      LastOutput(xs + ys[..n], y);
      assert ys == ys[..n] + [y] && xs + ys == xs + ys[..n] + [y];
    }
  }

  lemma NoOutput()
    ensures PiecesOk([]) && Outputs([]) == ""
  {
  }

  lemma {:induction false} OutputOfPlains(s: string)
    ensures Outputs(Plains(s)) == s
  {
    if s == "" {
    } else {
      OutputOfPlains(s[1..]);
      OutputsJoin([Plain(s[0])], Plains(s[1..]));
      OutputOfOne(Plain(s[0]));
    }
  }

  lemma OutputOfOne(x: Piece)
    requires PieceOk(x)
    ensures PiecesOk([x]) && Outputs([x]) == Output(x)
  {
    hide Output;
    assert [x][..0] == [];
    assert Outputs([]) == "";
  }

  /** What has been sent, with what is still to come, is the whole. */
  ghost predicate Goes(all: Outcome, done: seq<Piece>, r: Outcome) {
    PiecesOk(done) && all == Prepend(done, r)
  }

  lemma Going(all: Outcome, done: seq<Piece>, xs: seq<Piece>, r: Outcome)
    requires Goes(all, done, Prepend(xs, r)) && PiecesOk(xs)
    ensures Goes(all, done + xs, r) && PiecesOk(done + xs) && Outputs(done + xs) == Outputs(done) + Outputs(xs)
  {
    hide Outputs;
    OutputsJoin(done, xs);
    if r.Sent? {
      assert done + xs + r.pieces == done + (xs + r.pieces);
    }
  }

  lemma RunPlain(fmt: string, i: nat, stop: bool, args: seq<Arg>, radix: int)
    requires i < |fmt| && (fmt[i] != '%' || stop)
    ensures Run(fmt[i..], stop, args, radix) == Prepend([Plain(fmt[i])], Run(fmt[i + 1..], stop, args, radix))
  {
    assert fmt[i..][1..] == fmt[i + 1..];
  }

  /** A directive whose conversion is at `i`. */
  lemma RunDirective(fmt: string, percent: nat, args: seq<Arg>, radix: int, i: nat, m: Mods, left: seq<Arg>)
    requires percent < i < |fmt| && fmt[percent] == '%'
    requires Scan(fmt[percent + 1..], START, args) == Found(fmt[i..], m, left)
    ensures Run(fmt[percent..], false, args, radix) ==
      if !IsConversion(fmt[i]) then Prepend(Plains(fmt[percent..i + 1]), Run(fmt[i + 1..], true, left, radix))
      else
        var t := Take(fmt[i], m, left, radix);
        if t.Took? then Prepend([t.piece], Run(fmt[i + 1..], false, t.args, radix)) else Refused(t)
  {
    hide IsConversion, Take, Scan, Plains;
    var s := fmt[percent..];
    assert s[1..] == fmt[percent + 1..] && fmt[i..][1..] == fmt[i + 1..];
    assert s[..|s| - |fmt[i..]| + 1] == fmt[percent..i + 1];
  }

  lemma RunFails(fmt: string, percent: nat, args: seq<Arg>, radix: int)
    requires percent < |fmt| && fmt[percent] == '%' && !Scan(fmt[percent + 1..], START, args).Found?
    ensures !Run(fmt[percent..], false, args, radix).Sent?
  {
    hide Scan;
    assert fmt[percent..][1..] == fmt[percent + 1..];
  }

  /** One directive, `percent` being its position. */
  method PutDirective(sink: Sink, nbuf: array<char>, fmt: CString, percent: nat, args: seq<Arg>, a0: nat, radix: int)
    returns (ok: bool, i: nat, a: nat, stop: bool, ghost xs: seq<Piece>)
    requires sink.Valid() && nbuf.Length >= MAXNBUF && nbuf != sink.str
    requires percent < |fmt| && fmt[percent] == '%' && a0 <= |args|
    modifies sink, sink.str, nbuf
    ensures sink.Valid() && percent < i <= |fmt| && a <= |args|
    ensures ok || !Run(fmt[percent..], false, args[a0..], radix).Sent?
    ensures ok ==> PiecesOk(xs) && sink.sent == old(sink.sent) + Outputs(xs)
    ensures ok ==> Run(fmt[percent..], false, args[a0..], radix) == Prepend(xs, Run(fmt[i..], stop, args[a..], radix))
  {
    hide Scan, Sink.Valid, IsConversion, Take, Output, Outputs, Plains, Run, Prepend;
    var m;
    xs, stop, ok := [], false, false;
    ok, i, m, a := ScanModifiers(fmt, percent + 1, args, a0);
    if !ok {
      RunFails(fmt, percent, args[a0..], radix);
      return false, |fmt|, a, stop, xs;
    }
    RunDirective(fmt, percent, args[a0..], radix, i, m, args[a..]);
    if !IsConversion(fmt[i]) {
      xs := Plains(fmt[percent..i + 1]);
      OutputOfPlains(fmt[percent..i + 1]);
      PutString(sink, fmt[percent..i + 1]);
      stop := true;
    } else {
      ghost var taken := Take(fmt[i], m, args[a..], radix);
      var next;
      ok, next := PutConversion(sink, nbuf, fmt[i], m, args, a, radix);
      if ok {
        xs := [taken.piece];
        OutputOfOne(taken.piece);
        a := next;
      }
    }
    i := i + 1;
  }

  /** The cases of the switch that send something. */
  method PutConversion(sink: Sink, nbuf: array<char>, ch: char, m: Mods, args: seq<Arg>, a0: nat, radix: int)
    returns (ok: bool, a: nat)
    requires sink.Valid() && nbuf.Length >= MAXNBUF && nbuf != sink.str
    requires IsConversion(ch) && a0 <= |args|
    modifies sink, sink.str, nbuf
    ensures sink.Valid() && a <= |args|
    ensures var r := Take(ch, m, args[a0..], radix);
      && ok == r.Took?
      && (ok ==> r.args == args[a..] && sink.sent == old(sink.sent) + Output(r.piece))
  {
    hide Sink.Valid, Formatted, FormattedText, SizeOf, Extend;
    ok, a := false, a0;
    if ch == '%' {
      sink.Put(ch);
      return true, a;
    }
    if ch in {'b', 'D', 'n'} || a == |args| {
      return;
    }
    var arg := args[a];
    a := a + 1;
    assert args[a0..][1..] == args[a..];
    if ch == 'c' {
      if arg.Word? {
        sink.Put((arg.w % 0x100) as char);
        ok := true;
      }
    } else if ch == 's' {
      if arg.Str? || arg.w == 0 {
        var p := if arg.Str? then arg.s else "(null)";
        PutText(sink, p, m.dot, m.precision, m.width, m.left, PadOf(m));
        ok := true;
      }
    } else if arg.Word? {
      PutNumber(sink, nbuf, SpecOf(ch, m, radix), NumberOf(ch, m, arg.w));
      ok := true;
    }
  }

  /** kvprintf with the callback of vsnprintf. */
  method Kvprintf(sink: Sink, nbuf: array<char>, fmt: CString, radix: int, args: seq<Arg>) returns (ok: bool)
    requires sink.Valid() && nbuf.Length >= MAXNBUF && nbuf != sink.str
    modifies sink, sink.str, nbuf
    ensures var r := Run(fmt, false, args, radix);
      sink.Valid() && ok == r.Sent? && (ok ==> sink.sent == old(sink.sent) + Outputs(r.pieces))
  {
    hide Sink.Valid, Goes, PiecesOk, Outputs, Run, Prepend;
    ghost var all := Run(fmt, false, args, radix);
    var i, a, stop := 0, 0, false;
    ghost var done: seq<Piece> := [];
    assert fmt[0..] == fmt && args[0..] == args;
    Begin(all);
    while i < |fmt|
      invariant sink.Valid() && i <= |fmt| && a <= |args|
      invariant Goes(all, done, Run(fmt[i..], stop, args[a..], radix)) && PiecesOk(done)
      invariant sink.sent == old(sink.sent) + Outputs(done)
    {
      ghost var xs;
      ghost var r := Run(fmt[i..], stop, args[a..], radix);
      if fmt[i] != '%' || stop {
        RunPlain(fmt, i, stop, args[a..], radix);
        xs := [Plain(fmt[i])];
        OutputOfOne(xs[0]);
        sink.Put(fmt[i]);
        i := i + 1;
      } else {
        ok, i, a, stop, xs := PutDirective(sink, nbuf, fmt, i, args, a, radix);
        if !ok {
          Failed(all, done, r);
          return;
        }
      }
      Going(all, done, xs, Run(fmt[i..], stop, args[a..], radix));
      done := done + xs;
    }
    assert fmt[i..] == "";
    Ended(all, done, args[a..], stop, radix);
    ok := true;
  }

  lemma Failed(all: Outcome, done: seq<Piece>, r: Outcome)
    requires Goes(all, done, r) && !r.Sent?
    ensures !all.Sent?
  {
  }

  lemma Ended(all: Outcome, done: seq<Piece>, args: seq<Arg>, stop: bool, radix: int)
    requires Goes(all, done, Run("", stop, args, radix))
    ensures all == Sent(done)
  {
    assert done + [] == done;
  }

  lemma Begin(all: Outcome)
    ensures Goes(all, [], all) && PiecesOk([]) && Outputs([]) == ""
  {
    if all.Sent? {
      assert [] + all.pieces == all.pieces;
    }
  }

  /** vsnprintf and vsnrprintf: whatever the size, the buffer is not overrun, and the result is the length of the
      whole output. */
  method Vsnprintf(str: array<char>, size: nat, radix: int, fmt: CString, args: seq<Arg>)
    returns (ok: bool, retval: nat)
    requires size <= str.Length
    modifies str
    ensures var r := Run(fmt, false, args, radix);
      && ok == r.Sent?
      && (ok ==> retval == |Outputs(r.pieces)| && str[..] == Bounded(old(str[..]), size, Outputs(r.pieces)))
  {
    hide Sink.Valid, Run, Outputs, PiecesOk, Bounded;
    var sink := new Sink(str, size);
    var nbuf := new char[MAXNBUF];
    ok := Kvprintf(sink, nbuf, fmt, radix, args);
    assert ok ==> sink.sent == Outputs(Run(fmt, false, args, radix).pieces);
    sink.Terminate();
    retval := sink.count;
  }
}
