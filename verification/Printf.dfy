/**
 vsnprintf.c: the printf family's formatter.  A bounded buffer is filled by a character-driven
 state machine; what it shows is a prefix of the text that a reader of directives produces
 without any bound.
 */
module Printf {
  import opened Shift

  const INTMAX_SPAN: int := 0x1_0000_0000_0000_0000   // 64-bit uintmax_t
  const SIZE_MAX: int := 0xffff_ffff                    // 32-bit size_t
  const INT_MAX: int := 0x7fff_ffff

  datatype Flags = Flags(zero: bool, minus: bool, plus: bool, tick: bool,
                         space: bool, hash: bool, signed: bool, upper: bool)

  const NO_FLAGS := Flags(false, false, false, false, false, false, false, false)

  // ---------- what a bounded write leaves behind

  /** Memory `b` is `a` with the first `n` characters of `t` written from `q` on. */
  ghost predicate Shown(a: seq<char>, b: seq<char>, q: int, n: int, t: string) {
    && |a| == |b|
    && forall i :: 0 <= i < |a| ==> b[i] == if q <= i < q + n && i - q < |t| then t[i - q] else a[i]
  }

  function Room(n: int, o: int): int { if o < n then n - o else 0 }

  /** The part of `k` characters that is written lies inside the buffer. */
  predicate Fits(length: int, q: int, n: int, k: int) {
    n <= 0 || k <= 0 || (0 <= q && (q + n <= length || q + k <= length))
  }

  lemma Compose(a: seq<char>, b: seq<char>, c: seq<char>, q0: int, n: int, t: string, q: int, u: string)
    requires Shown(a, b, q0, n, t) && Shown(b, c, q, Room(n, |t|), u) && (|t| < n ==> q == q0 + |t|)
    ensures Shown(a, c, q0, n, t + u)
  {
  }

  lemma NothingShown(a: seq<char>, q: int, n: int)
    ensures Shown(a, a, q, n, "")
  {
  }

  // ---------- integers as text

  /** `v` with its lowest `j` digits dropped. */
  function Shifted(v: nat, base: nat, j: nat): nat
    requires base > 1
  {
    if j == 0 then v else Shifted(v, base, j - 1) / base
  }

  function DigitChar(d: nat, upper: bool): char
    requires d < 16
  {
    if d < 10 then '0' + d as char else if upper then 'A' + (d - 10) as char else 'a' + (d - 10) as char
  }

  /** The number of digits that stand among the last `r` characters of a ticked number. */
  function DigitsIn(r: nat, skip: nat): (j: nat)
    ensures j <= r
  {
    r - r / (skip + 1)
  }

  /** The character `r` places before the end of a number. */
  function NumberChar(v: nat, base: nat, upper: bool, skip: nat, r: nat): char
    requires 1 < base <= 16
  {
    if r % (skip + 1) == skip then '_' else DigitChar(Shifted(v, base, DigitsIn(r, skip)) % base, upper)
  }

  function NumberText(v: nat, base: nat, upper: bool, skip: nat, length: nat): (s: string)
    requires 1 < base <= 16
    ensures |s| == length
  {
    seq(length, i requires 0 <= i < length => NumberChar(v, base, upper, skip, length - 1 - i))
  }

  function DigitValue(c: char): int {
    if '0' <= c <= '9' then c as int - '0' as int
    else if 'a' <= c <= 'f' then c as int - 'a' as int + 10
    else if 'A' <= c <= 'F' then c as int - 'A' as int + 10
    else 0
  }

  /** The value that a row of digits denotes; tick marks count for nothing. */
  function ValueOf(s: string, base: nat): int {
    if s == "" then 0
    else if s[|s| - 1] == '_' then ValueOf(s[..|s| - 1], base)
    else ValueOf(s[..|s| - 1], base) * base + DigitValue(s[|s| - 1])
  }

  function NumDigits(v: nat, base: nat): (d: nat)
    requires base > 1
    ensures v == 0 <==> d == 0
    decreases v
  {
    if v == 0 then 0 else Smaller(v, base); 1 + NumDigits(v / base, base)
  }

  lemma Smaller(v: nat, base: nat)
    requires v > 0 && base > 1
    ensures 0 <= v / base < v
  {
    Quotient(v, base);
    DivNonneg(v, base);
    if v / base >= v {
      MulMono(v, v / base, base);
      MulMono(2, base, v);
    }
  }

  lemma {:induction false} ShiftedFirst(v: nat, base: nat, j: nat)
    requires base > 1 && j > 0
    ensures Shifted(v, base, j) == Shifted(v / base, base, j - 1)
  {
    if j > 1 {
      ShiftedFirst(v, base, j - 1);
    }
  }

  /** Dropping as many digits as the number has, or more, leaves nothing. */
  lemma {:induction false} AllShifted(v: nat, base: nat, d: nat)
    requires base > 1 && d >= NumDigits(v, base)
    ensures Shifted(v, base, d) == 0
    decreases d
  {
    if d > 0 {
      ShiftedFirst(v, base, d);
      if v == 0 {
        assert 0 / base == 0;
      }
      AllShifted(v / base, base, d - 1);
    }
  }

  lemma DigitRead(d: nat, upper: bool)
    requires d < 16
    ensures DigitValue(DigitChar(d, upper)) == d && DigitChar(d, upper) != '_' && DigitChar(d, upper) != ' '
    ensures DigitChar(d, upper) != '-' && DigitChar(d, upper) != '+'
  {
  }

  /** One place further left there is one digit more, or a tick mark. */
  lemma DigitsNext(r: nat, skip: nat)
    requires skip > 0
    ensures DigitsIn(r + 1, skip) == DigitsIn(r, skip) + if r % (skip + 1) == skip then 0 else 1
  {
    var m, q, x := skip + 1, r / (skip + 1), r % (skip + 1);
    Quotient(r, m);
    if x == skip {
      Distribute(q, 1, m);
      DivUnique(r + 1, m, q + 1, 0);
    } else {
      DivUnique(r + 1, m, q, x + 1);
    }
  }

  /** The length of `d` digits with a tick mark after every `skip` of them. */
  function TickedLength(d: nat, skip: nat): int
    requires skip > 0
  {
    d + (d - 1) / skip
  }

  lemma TickedDigits(d: nat, skip: nat)
    requires skip > 0 && d > 0
    ensures var n := TickedLength(d, skip);
            n > 0 && DigitsIn(n, skip) == d && (n - 1) % (skip + 1) != skip && n % (skip + 1) != 0
  {
    var a, b := (d - 1) / skip, (d - 1) % skip;
    Quotient(d - 1, skip);
    DivNonneg(d - 1, skip);
    Distribute(skip, 1, a);
    var n := TickedLength(d, skip);
    DivUnique(n, skip + 1, a, b + 1);
    DivUnique(n - 1, skip + 1, a, b);
  }

  /** The characters before the last `r` denote the value without the digits among those. */
  lemma {:induction false} PrefixValue(v: nat, base: nat, upper: bool, d: nat, skip: nat, r: nat)
    requires 1 < base <= 16 && skip > 0 && d > 0 && d >= NumDigits(v, base) && r <= TickedLength(d, skip)
    ensures var n := TickedLength(d, skip);
            ValueOf(NumberText(v, base, upper, skip, n)[..n - r], base) == Shifted(v, base, DigitsIn(r, skip))
    decreases TickedLength(d, skip) - r
  {
    hide NumDigits, NumberChar, DigitsIn, TickedLength, Shifted;
    var n := TickedLength(d, skip);
    var s := NumberText(v, base, upper, skip, n);
    TickedDigits(d, skip);
    if r == n {
      AllShifted(v, base, d);
    } else {
      PrefixValue(v, base, upper, d, skip, r + 1);
      DigitsNext(r, skip);
      var t := s[..n - r];
      assert t[..|t| - 1] == s[..n - (r + 1)] && t[|t| - 1] == NumberChar(v, base, upper, skip, r);
      LastChar(v, base, upper, skip, r);
    }
  }

  lemma LastChar(v: nat, base: nat, upper: bool, skip: nat, r: nat)
    requires 1 < base <= 16 && skip > 0
    ensures var c, j := NumberChar(v, base, upper, skip, r), DigitsIn(r, skip);
            if r % (skip + 1) == skip then c == '_'
            else c != '_' && Shifted(v, base, j) == Shifted(v, base, j + 1) * base + DigitValue(c)
  {
    if r % (skip + 1) != skip {
      var x := Shifted(v, base, DigitsIn(r, skip));
      DigitRead(x % base, upper);
      assert x == x / base * base + x % base;
    }
  }

  /** A number written with enough digits denotes its value, whatever tick marks it has. */
  lemma NumberDenotes(v: nat, base: nat, upper: bool, d: nat, skip: nat)
    requires 1 < base <= 16 && skip > 0 && d > 0 && d >= NumDigits(v, base)
    ensures var n := TickedLength(d, skip); n > 0 && ValueOf(NumberText(v, base, upper, skip, n), base) == v
  {
    hide NumDigits;
    var n := TickedLength(d, skip);
    TickedDigits(d, skip);
    PrefixValue(v, base, upper, d, skip, 0);
    assert NumberText(v, base, upper, skip, n)[..n - 0] == NumberText(v, base, upper, skip, n);
  }

  function Times(c: char, k: int): (s: string)
    ensures |s| == if k < 0 then 0 else k
    ensures forall i :: 0 <= i < |s| ==> s[i] == c
  {
    seq(if k < 0 then 0 else k, _ => c)
  }

  predicate Base(base: int) { base == 8 || base == 10 || base == 16 }

  predicate Negative(val: int, fl: Flags) { fl.signed && val >= INTMAX_SPAN / 2 }

  function Magnitude(val: int, fl: Flags): (m: nat)
    requires 0 <= val < INTMAX_SPAN
  {
    if Negative(val, fl) then INTMAX_SPAN - val else val
  }

  /** The number that the 64-bit pattern `val` stands for. */
  function Meant(val: int, fl: Flags): int {
    if Negative(val, fl) then val - INTMAX_SPAN else val
  }

  /** How many digits are written: enough for the number, the precision, and an octal 0. */
  function DigitsWritten(val: int, fl: Flags, base: nat, prec: int): (d: nat)
    requires 0 <= val < INTMAX_SPAN && base > 1
    ensures d > 0 && d >= NumDigits(Magnitude(val, fl), base)
  {
    var need := NumDigits(Magnitude(val, fl), base);
    var least := if fl.hash && base == 8 && prec < need + 1 then need + 1 else prec;
    if need < least then least else if need == 0 then 1 else need
  }

  function Skip(fl: Flags, base: nat, d: nat): (k: nat)
    requires d > 0
    ensures k > 0
  {
    if !fl.tick then d else if base == 16 then 4 else 3
  }

  function Number(val: int, fl: Flags, base: nat, prec: int): (s: string)
    requires 0 <= val < INTMAX_SPAN && Base(base)
    ensures s != ""
  {
    var d := DigitsWritten(val, fl, base, prec);
    var k := Skip(fl, base, d);
    TickedDigits(d, k);
    NumberText(Magnitude(val, fl), base, fl.upper, k, TickedLength(d, k))
  }

  function Sign(val: int, fl: Flags): string {
    if Negative(val, fl) then "-" else if fl.plus then "+" else if fl.space then " " else ""
  }

  function Prefix(fl: Flags, base: int): string {
    if fl.hash && base == 16 then if fl.upper then "0X" else "0x" else ""
  }

  function NumChars(val: int, fl: Flags, base: nat, prec: int): nat
    requires 0 <= val < INTMAX_SPAN && Base(base)
  {
    |Number(val, fl, base, prec)| + |Sign(val, fl)| + |Prefix(fl, base)|
  }

  /** What a conversion of an integer yields, vsnprintf.c:44-166. */
  function IntText(val: int, fl: Flags, base: nat, width: int, prec: int): string
    requires 0 <= val < INTMAX_SPAN && Base(base)
  {
    var pad := width - NumChars(val, fl, base, prec);
    Times(' ', if fl.minus || fl.zero then 0 else pad)
    + Sign(val, fl) + Prefix(fl, base)
    + Times('0', if fl.zero && !fl.minus then pad else 0)
    + Number(val, fl, base, prec)
    + Times(' ', if fl.minus then pad else 0)
  }

  /** Exactly the field width, or more when the number needs more. */
  lemma IntLength(val: int, fl: Flags, base: nat, width: int, prec: int)
    requires 0 <= val < INTMAX_SPAN && Base(base)
    ensures var n := NumChars(val, fl, base, prec);
            |IntText(val, fl, base, width, prec)| == if width > n then width else n
  {
  }

  // ---------- reading the text back

  function Trimmed(s: string): string {
    if s == "" then s
    else if s[0] == ' ' then Trimmed(s[1..])
    else if s[|s| - 1] == ' ' then Trimmed(s[..|s| - 1])
    else s
  }

  function Unsigned(s: string): string {
    if s != "" && (s[0] == '-' || s[0] == '+') then s[1..] else s
  }

  /** The number a reader finds: blanks around it, a sign, a 0x when `prefixed`, then digits. */
  function ReadBack(s: string, prefixed: bool, base: nat): int {
    var t := Trimmed(s);
    var u := Unsigned(t);
    var n := ValueOf(if prefixed && |u| >= 2 then u[2..] else u, base);
    if t != "" && t[0] == '-' then -n else n
  }

  lemma {:induction false} TrimmedPads(i: nat, core: string, j: nat)
    requires core != "" && core[0] != ' ' && core[|core| - 1] != ' '
    ensures Trimmed(Times(' ', i) + core + Times(' ', j)) == core
    decreases i + j
  {
    var s := Times(' ', i) + core + Times(' ', j);
    if i > 0 {
      assert s[1..] == Times(' ', i - 1) + core + Times(' ', j);
      TrimmedPads(i - 1, core, j);
    } else if j > 0 {
      assert s[0] == core[0];
      assert s[..|s| - 1] == Times(' ', i) + core + Times(' ', j - 1);
      TrimmedPads(i, core, j - 1);
    } else {
      assert s == core;
    }
  }

  lemma {:induction false} ZerosBefore(k: int, s: string, base: nat)
    ensures ValueOf(Times('0', k) + s, base) == ValueOf(s, base)
    decreases |s|, k
  {
    var z := Times('0', k);
    if s != "" {
      var t := z + s;
      assert t[..|t| - 1] == z + s[..|s| - 1];
      ZerosBefore(k, s[..|s| - 1], base);
    } else if k > 0 {
      assert z + s == z && z[..|z| - 1] == Times('0', k - 1) + "";
      ZerosBefore(k - 1, "", base);
    } else {
      assert z + s == "";
    }
  }

  predicate Plain(c: char) { c != ' ' && c != '-' && c != '+' && c != '_' }

  lemma PlainDigit(v: nat, base: nat, upper: bool, skip: nat, r: nat)
    requires 1 < base <= 16 && r % (skip + 1) != skip
    ensures Plain(NumberChar(v, base, upper, skip, r))
  {
    DigitRead(Shifted(v, base, DigitsIn(r, skip)) % base, upper);
  }

  lemma TextEnds(v: nat, base: nat, upper: bool, d: nat, skip: nat)
    requires 1 < base <= 16 && skip > 0 && d > 0
    ensures TickedLength(d, skip) > 0
    ensures Plain(NumberText(v, base, upper, skip, TickedLength(d, skip))[0])
    ensures Plain(NumberText(v, base, upper, skip, TickedLength(d, skip))[TickedLength(d, skip) - 1])
  {
    hide DigitsIn, TickedLength, NumberChar, Plain;
    var n := TickedLength(d, skip);
    TickedDigits(d, skip);
    DivUnique(0, skip + 1, 0, 0);
    PlainDigit(v, base, upper, skip, n - 1);
    PlainDigit(v, base, upper, skip, 0);
    var s := NumberText(v, base, upper, skip, n);
    assert s[0] == NumberChar(v, base, upper, skip, n - 1) && s[n - 1] == NumberChar(v, base, upper, skip, 0);
  }

  lemma NumberEnds(val: int, fl: Flags, base: nat, prec: int)
    requires 0 <= val < INTMAX_SPAN && Base(base)
    ensures var s := Number(val, fl, base, prec); Plain(s[0]) && Plain(s[|s| - 1])
    ensures ValueOf(Number(val, fl, base, prec), base) == Magnitude(val, fl)
  {
    hide ValueOf, NumDigits, NumberText, TickedLength, DigitsWritten, Skip;
    var d, v := DigitsWritten(val, fl, base, prec), Magnitude(val, fl);
    var k := Skip(fl, base, d);
    NumberDenotes(v, base, fl.upper, d, k);
    TextEnds(v, base, fl.upper, d, k);
  }

  function Zeros(val: int, fl: Flags, base: nat, width: int, prec: int): string
    requires 0 <= val < INTMAX_SPAN && Base(base)
  {
    Times('0', if fl.zero && !fl.minus then width - NumChars(val, fl, base, prec) else 0)
  }

  function VisibleSign(val: int, fl: Flags): string {
    if Sign(val, fl) == " " then "" else Sign(val, fl)
  }

  /** Between the blanks. */
  lemma IntShape(val: int, fl: Flags, base: nat, width: int, prec: int) returns (i: nat, j: nat)
    requires 0 <= val < INTMAX_SPAN && Base(base)
    ensures IntText(val, fl, base, width, prec) == Times(' ', i)
              + (VisibleSign(val, fl) + (Prefix(fl, base) + (Zeros(val, fl, base, width, prec) + Number(val, fl, base, prec))))
              + Times(' ', j)
  {
    hide Number, NumChars, Prefix;
    hide Sign, Times;
    var pad := width - NumChars(val, fl, base, prec);
    var before, behind := (if fl.minus || fl.zero then 0 else pad), (if fl.minus then pad else 0);
    var sign := Sign(val, fl);
    Regroup(Times(' ', before), sign, Prefix(fl, base), Zeros(val, fl, base, width, prec),
            Number(val, fl, base, prec), Times(' ', behind));
    OneMore(before);
    i, j := |Times(' ', before)| + (if sign == " " then 1 else 0), |Times(' ', behind)|;
    assert Times(' ', j) == Times(' ', behind);
    assert sign != " " ==> Times(' ', i) == Times(' ', before);
  }

  lemma OneMore(k: int)
    ensures Times(' ', |Times(' ', k)| + 1) == Times(' ', k) + " "
  {
  }

  lemma Regroup(a: string, s: string, p: string, z: string, n: string, b: string)
    ensures a + s + p + z + n + b == (a + s) + ("" + (p + (z + n))) + b
    ensures a + s + p + z + n + b == a + (s + (p + (z + n))) + b
  {
    assert a + s + p + z + n == a + (s + (p + (z + n)));
    assert a + s + p + z + n == (a + s) + ("" + (p + (z + n)));
  }

  /** Written out and read back, every integer comes back, in every base and under all flags. */
  lemma IntReadsBack(val: int, fl: Flags, base: nat, width: int, prec: int)
    requires 0 <= val < INTMAX_SPAN && Base(base)
    ensures ReadBack(IntText(val, fl, base, width, prec), fl.hash && base == 16, base) == Meant(val, fl)
  {
    hide Number, ValueOf, Trimmed, IntText, NumChars, Zeros, Unsigned;
    var number, zeros := Number(val, fl, base, prec), Zeros(val, fl, base, width, prec);
    var sign, prefix := VisibleSign(val, fl), Prefix(fl, base);
    var i, j := IntShape(val, fl, base, width, prec);
    NumberEnds(val, fl, base, prec);
    ZerosAre(val, fl, base, width, prec);
    ZerosBefore(|zeros|, number, base);
    TrimmedPads(i, sign + (prefix + (zeros + number)), j);
    BodyRead(sign, prefix, zeros + number);
  }

  lemma ZerosAre(val: int, fl: Flags, base: nat, width: int, prec: int)
    requires 0 <= val < INTMAX_SPAN && Base(base)
    ensures var z := Zeros(val, fl, base, width, prec);
            z == Times('0', |z|) && forall i :: 0 <= i < |z| ==> z[i] == '0'
  {
  }

  lemma BodyRead(sign: string, prefix: string, digits: string)
    requires digits != "" && digits[0] != '-' && digits[0] != '+'
    requires prefix == "" || (|prefix| == 2 && prefix[0] == '0')
    requires sign == "" || sign == "-" || sign == "+"
    ensures var t := sign + (prefix + digits);
            var u := Unsigned(t);
            && |u| >= |prefix| && u[|prefix|..] == digits
            && (t[0] == '-' <==> sign == "-")
  {
  }

  // ---------- the code for integers

  /** After `t` has been emitted: what memory shows, and the output pointer and count. */
  ghost predicate Out(a: seq<char>, b: seq<char>, q0: int, n: int, t: string, q: int, o: int) {
    Shown(a, b, q0, n, t) && o == |t| && (o < n ==> q == q0 + o)
  }

  /** The macro EMIT, vsnprintf.c:42. */
  method Emit(buffer: array<char>, n: int, q0: int, o0: int, c: char, ghost a: seq<char>, ghost start: int, ghost t: string)
    returns (q: int, o: int)
    requires Out(a, buffer[..], start, n, t, q0, o0) && Fits(buffer.Length, start, n, |t| + 1)
    modifies buffer
    ensures Out(a, buffer[..], start, n, t + [c], q, o)
  {
    q, o := q0, o0;
    if o < n {
      buffer[q] := c;
      q := q + 1;
    }
    o := o + 1;
  }

  /** `while (width > nchars) { EMIT(c); width--; }`. */
  method Pad(buffer: array<char>, n: int, q0: int, o0: int, c: char, width0: int, nchars: int,
             ghost a: seq<char>, ghost start: int, ghost t: string)
    returns (q: int, o: int, width: int)
    requires Out(a, buffer[..], start, n, t, q0, o0)
    requires Fits(buffer.Length, start, n, |t| + |Times(c, width0 - nchars)|)
    modifies buffer
    ensures Out(a, buffer[..], start, n, t + Times(c, width0 - nchars), q, o)
    ensures width == if width0 > nchars then nchars else width0
  {
    hide Shown;
    q, o, width := q0, o0, width0;
    assert t + Times(c, 0) == t;
    ghost var w := t;
    while width > nchars
      invariant width <= width0 && (width < nchars ==> width == width0)
      invariant w == t + Times(c, width0 - width)
      invariant Out(a, buffer[..], start, n, w, q, o)
    {
      q, o := Emit(buffer, n, q, o, c, a, start, w);
      width := width - 1;
      w := w + [c];
      assert Times(c, width0 - width) == Times(c, width0 - width - 1) + [c];
    }
    assert w == t + Times(c, width0 - nchars);
  }

  method CountDigits(val: nat, base: nat) returns (ndigits: nat)
    requires base > 1
    ensures ndigits == NumDigits(val, base)
  {
    ndigits := 0;
    var tmpval: nat := val;
    while tmpval != 0
      invariant ndigits + NumDigits(tmpval, base) == NumDigits(val, base)
    {
      Smaller(tmpval, base);
      tmpval := tmpval / base;
      ndigits := ndigits + 1;
    }
  }

  /** `b` is `a` with the characters of `t` from number `rem` on. */
  ghost predicate Tail(a: seq<char>, b: seq<char>, q: int, n: int, t: string, rem: int) {
    && |a| == |b|
    && forall i :: 0 <= i < |a| ==> b[i] == if q + rem <= i < q + n && 0 <= i - q < |t| then t[i - q] else a[i]
  }

  method PutAt(buffer: array<char>, n: int, qq: int, oo: int, c: char, ghost was: seq<char>, ghost q0: int, ghost o0: int, ghost t: string)
    requires q0 <= qq < q0 + |t| && qq - q0 == oo - o0 && t[qq - q0] == c
    requires Fits(buffer.Length, q0, Room(n, o0), |t|) && Tail(was, buffer[..], q0, Room(n, o0), t, qq - q0 + 1)
    modifies buffer
    ensures Tail(was, buffer[..], q0, Room(n, o0), t, qq - q0)
  {
    if oo < n {
      buffer[qq] := c;
    }
  }

  /** Lines 135-157: the digits and tick marks, from right to left. */
  method PutNumber(buffer: array<char>, n: int, q0: int, o0: int, v: nat, base: nat, upper: bool, ndigits0: nat, tickskip: nat)
    returns (q: int, o: int)
    requires 1 < base <= 16 && tickskip > 0 && ndigits0 > 0 && (ndigits0 - 1) % (tickskip + 1) != tickskip
    requires Fits(buffer.Length, q0, Room(n, o0), ndigits0)
    modifies buffer
    ensures q == q0 + ndigits0 && o == o0 + ndigits0
    ensures Shown(old(buffer[..]), buffer[..], q0, Room(n, o0), NumberText(v, base, upper, tickskip, ndigits0))
  {
    hide DigitChar, Shifted, DigitsIn, NumberChar, Tail, Fits, Room;
    q, o := q0 + ndigits0, o0 + ndigits0;
    var qq, oo, ndigits, b4tick := q, o, ndigits0, tickskip;
    var val: nat := v;
    ghost var text, room := NumberText(v, base, upper, tickskip, ndigits0), Room(n, o0);
    ghost var was := buffer[..];
    FirstDigits(v, base, tickskip);
    EmptyTail(was, q0, room, text);
    while ndigits > 0
      invariant 0 <= ndigits <= ndigits0 && qq == q0 + ndigits && oo == o0 + ndigits
      invariant b4tick == tickskip - (ndigits0 - ndigits) % (tickskip + 1)
      invariant val == Shifted(v, base, DigitsIn(ndigits0 - ndigits, tickskip))
      invariant Tail(was, buffer[..], q0, room, text, ndigits)
    {
      ghost var r := ndigits0 - ndigits;
      NextPlace(v, base, upper, tickskip, r);
      var tick := b4tick == 0;
      b4tick := b4tick - 1;
      if tick {
        qq, oo, ndigits := qq - 1, oo - 1, ndigits - 1;
        PutAt(buffer, n, qq, oo, '_', was, q0, o0, text);
        b4tick := tickskip - 1;
        r := r + 1;
        NextPlace(v, base, upper, tickskip, r);
      }
      qq, oo, ndigits := qq - 1, oo - 1, ndigits - 1;
      PutAt(buffer, n, qq, oo, DigitChar(val % base, upper), was, q0, o0, text);
      DivNonneg(val, base);
      val := val / base;
    }
    WholeTail(was, buffer[..], q0, room, text);
  }

  lemma EmptyTail(a: seq<char>, q: int, n: int, t: string)
    ensures Tail(a, a, q, n, t, |t|)
  {
  }

  lemma WholeTail(a: seq<char>, b: seq<char>, q: int, n: int, t: string)
    requires Tail(a, b, q, n, t, 0)
    ensures Shown(a, b, q, n, t)
  {
  }

  lemma FirstDigits(v: nat, base: nat, skip: nat)
    requires base > 1 && skip > 0
    ensures Shifted(v, base, DigitsIn(0, skip)) == v && 0 % (skip + 1) == 0
  {
    DivUnique(0, skip + 1, 0, 0);
  }

  /** The character `r` places before the end, and what that place means for the next. */
  lemma NextPlace(v: nat, base: nat, upper: bool, skip: nat, r: nat)
    requires 1 < base <= 16 && skip > 0
    ensures var m, x, c := skip + 1, Shifted(v, base, DigitsIn(r, skip)), NumberChar(v, base, upper, skip, r);
            && 0 <= r % m < m && 0 <= x % base < base
            && (if r % m == skip
                then c == '_' && (r + 1) % m == 0 && DigitsIn(r + 1, skip) == DigitsIn(r, skip)
                else (c == DigitChar(x % base, upper) && (r + 1) % m == r % m + 1
                      && Shifted(v, base, DigitsIn(r + 1, skip)) == x / base))
  {
    var m, q, x := skip + 1, r / (skip + 1), r % (skip + 1);
    DigitsNext(r, skip);
    Quotient(r, m);
    if x == skip {
      Distribute(q, 1, m);
      DivUnique(r + 1, m, q + 1, 0);
    } else {
      DivUnique(r + 1, m, q, x + 1);
    }
  }

  /** The text of an integer up to and with its sign, its prefix, its zeros, its digits. */
  function Opening(val: int, fl: Flags, base: nat, width: int, prec: int): string
    requires 0 <= val < INTMAX_SPAN && Base(base)
  {
    Times(' ', if fl.minus || fl.zero then 0 else width - NumChars(val, fl, base, prec))
    + Sign(val, fl) + Prefix(fl, base) + Zeros(val, fl, base, width, prec)
  }

  lemma NoMore(t: string, c: char, k: int)
    ensures t + "" == t && (k <= 0 ==> t + Times(c, k) == t)
  {
  }

  /** Lines 115-120. */
  method PutSign(buffer: array<char>, n: int, q0: int, o0: int, val: int, fl: Flags,
                 ghost a: seq<char>, ghost start: int, ghost t: string)
    returns (q: int, o: int)
    requires Out(a, buffer[..], start, n, t, q0, o0) && Fits(buffer.Length, start, n, |t + Sign(val, fl)|)
    modifies buffer
    ensures Out(a, buffer[..], start, n, t + Sign(val, fl), q, o)
  {
    hide Shown;
    NoMore(t, ' ', 0);
    q, o := q0, o0;
    if Negative(val, fl) {
      q, o := Emit(buffer, n, q, o, '-', a, start, t);
    } else if fl.plus {
      q, o := Emit(buffer, n, q, o, '+', a, start, t);
    } else if fl.space {
      q, o := Emit(buffer, n, q, o, ' ', a, start, t);
    }
  }

  /** Lines 122-125. */
  method PutPrefix(buffer: array<char>, n: int, q0: int, o0: int, fl: Flags, base: int,
                   ghost a: seq<char>, ghost start: int, ghost t: string)
    returns (q: int, o: int)
    requires Out(a, buffer[..], start, n, t, q0, o0) && Fits(buffer.Length, start, n, |t + Prefix(fl, base)|)
    modifies buffer
    ensures Out(a, buffer[..], start, n, t + Prefix(fl, base), q, o)
  {
    hide Shown;
    NoMore(t, ' ', 0);
    q, o := q0, o0;
    if fl.hash && base == 16 {
      q, o := Emit(buffer, n, q, o, '0', a, start, t);
      q, o := Emit(buffer, n, q, o, if fl.upper then 'X' else 'x', a, start, t + "0");
      assert t + "0" + [if fl.upper then 'X' else 'x'] == t + Prefix(fl, base);
    }
  }

  /** Lines 106-133: padding in front, sign, prefix, padding with zeros. */
  method PutOpening(buffer: array<char>, n: int, q0: int, val: int, fl: Flags, base: nat, width0: int, nchars: int, ghost prec: int)
    returns (q: int, o: int, width: int)
    requires 0 <= val < INTMAX_SPAN && Base(base) && nchars == NumChars(val, fl, base, prec)
    requires Fits(buffer.Length, q0, n, |Opening(val, fl, base, width0, prec)|)
    modifies buffer
    ensures Out(old(buffer[..]), buffer[..], q0, n, Opening(val, fl, base, width0, prec), q, o)
    ensures width == if !fl.minus && width0 > nchars then nchars else width0
  {
    hide Shown, NumChars, Number, Sign, Prefix, Times;
    ghost var a := buffer[..];
    q, o, width := q0, 0, width0;
    NothingShown(a, q0, n);
    ghost var pad := width0 - nchars;
    ghost var blanks := Times(' ', if fl.minus || fl.zero then 0 else pad);
    assert "" + blanks == blanks;
    if !fl.minus && !fl.zero && width > nchars {
      q, o, width := Pad(buffer, n, q, o, ' ', width, nchars, a, q0, "");
    }
    q, o := PutSign(buffer, n, q, o, val, fl, a, q0, blanks);
    q, o := PutPrefix(buffer, n, q, o, fl, base, a, q0, blanks + Sign(val, fl));
    ghost var t := blanks + Sign(val, fl) + Prefix(fl, base);
    NoMore(t, '0', if fl.zero && !fl.minus then pad else 0);
    if fl.zero && !fl.minus && width > nchars {
      q, o, width := Pad(buffer, n, q, o, '0', width, nchars, a, q0, t);
    }
  }

  lemma IntParts(val: int, fl: Flags, base: nat, width: int, prec: int)
    requires 0 <= val < INTMAX_SPAN && Base(base)
    ensures IntText(val, fl, base, width, prec)
         == Opening(val, fl, base, width, prec) + Number(val, fl, base, prec)
            + Times(' ', if fl.minus then width - NumChars(val, fl, base, prec) else 0)
  {
  }

  /** Lines 67-85: the digits of the number, then what precision, octal and zero ask for. */
  method CountWritten(val: nat, ghost val0: int, fl: Flags, base: nat, prec0: int) returns (ndigits: nat)
    requires 0 <= val0 < INTMAX_SPAN && Base(base) && val == Magnitude(val0, fl)
    ensures ndigits == DigitsWritten(val0, fl, base, prec0)
  {
    hide NumDigits;
    ndigits := CountDigits(val, base);
    var prec := prec0;
    if fl.hash && base == 8 && prec < ndigits + 1 {
      prec := ndigits + 1;
    }
    if ndigits < prec {
      ndigits := prec;
    } else if val == 0 {
      ndigits := 1;
    }
  }

  /** Line 95: tick marks count as digits. */
  method WithTicks(ndigits: nat, tickskip: nat) returns (n: int)
    requires tickskip > 0
    ensures n == TickedLength(ndigits, tickskip)
  {
    n := ndigits + (ndigits - 1) / tickskip;
  }

  /** Lines 58-104: sign and size of the number, the digits to write, all characters but the padding. */
  method Measure(val0: int, fl: Flags, base: nat, prec0: int) returns (val: int, ndigits: int, tickskip: int, nchars: int)
    requires 0 <= val0 < INTMAX_SPAN && Base(base)
    ensures val == Magnitude(val0, fl) && tickskip > 0 && ndigits > 0 && (ndigits - 1) % (tickskip + 1) != tickskip
    ensures Number(val0, fl, base, prec0) == NumberText(val, base, fl.upper, tickskip, ndigits)
    ensures nchars == NumChars(val0, fl, base, prec0)
  {
    hide NumberText, NumDigits, TickedLength, DigitsWritten;
    val := val0;
    var minus := 0;
    if fl.signed && val0 >= INTMAX_SPAN / 2 {
      minus := 1;
      val := INTMAX_SPAN - val;
    }
    ndigits := CountWritten(val, val0, fl, base, prec0);
    tickskip := if fl.tick then (if base == 16 then 4 else 3) else ndigits;
    assert tickskip == Skip(fl, base, ndigits);
    TickedDigits(ndigits, tickskip);
    ndigits := WithTicks(ndigits, tickskip);
    nchars := ndigits;
    if minus == 1 || fl.plus || fl.space {
      nchars := nchars + 1;
    }
    if fl.hash && base == 16 {
      nchars := nchars + 2;
    }
  }

  /** `format_int`, vsnprintf.c:44-166. */
  method FormatInt(buffer: array<char>, q0: int, n: int, val0: int, fl: Flags, base: nat, width0: int, prec0: int)
    returns (o: int)
    requires 0 <= val0 < INTMAX_SPAN && Base(base) && 0 <= n
    requires Fits(buffer.Length, q0, n, |IntText(val0, fl, base, width0, prec0)|)
    modifies buffer
    ensures o == |IntText(val0, fl, base, width0, prec0)|
    ensures Shown(old(buffer[..]), buffer[..], q0, n, IntText(val0, fl, base, width0, prec0))
  {
    hide Shown, NumberText, Opening, IntText, Number, NumChars, Times;
    ghost var a := buffer[..];
    var val, ndigits, tickskip, nchars := Measure(val0, fl, base, prec0);
    ghost var number := Number(val0, fl, base, prec0);
    IntParts(val0, fl, base, width0, prec0);
    ghost var t := Opening(val0, fl, base, width0, prec0);
    NoMore(t + number, ' ', if fl.minus then width0 - nchars else 0);
    var q, width;
    q, o, width := PutOpening(buffer, n, q0, val0, fl, base, width0, nchars, prec0);
    ghost var mid := buffer[..];
    ghost var q1 := q;
    q, o := PutNumber(buffer, n, q, o, val, base, fl.upper, ndigits, tickskip);
    Compose(a, mid, buffer[..], q0, n, t, q1, number);
    if fl.minus && width > nchars {
      q, o, width := Pad(buffer, n, q, o, ' ', width, nchars, a, q0, t + number);
    }
  }
}
