/**
 Whole formats, as callers write them: which widths arguments have, where blanks and zeros
 go, and what signs, prefixes and digits the text shows.
 */
module Formats {
  import opened Printf
  import opened Vsnprintf
  import opened Shift

  // ---------- integer conversions and their length modifiers

  /** Printed with format `f`, the argument reads back as the number in the range that differs from it by a multiple of the range. */
  predicate Prints(f: string, base: nat, v: int, lo: int, hi: int)
    requires hi > lo
  {
    var o := Rendered(f, [Num(v)], 0);
    && o.Done? && o.counts == []
    && (var r := ReadBack(o.text, false, base); lo <= r < hi && (v - r) % (hi - lo) == 0)
  }

  predicate Ranks(mods: string) { forall i :: 0 <= i < |mods| ==> IsRank(mods[i]) }

  function RankOf(mods: string, rank: int): int
    decreases |mods|
  {
    if mods == "" then rank else RankOf(mods[1..], NextRank(rank, mods[0]))
  }

  lemma {:induction false} RankRead(mods: string, conv: char, rank: int, fl: Flags, width: int, prec: int, args: seq<Arg>)
    requires Ranks(mods) && !IsRank(conv)
    ensures ReadRank(mods + [conv], rank, prec, width, fl, args) == Read(Directive(fl, width, prec, Canonical(RankOf(mods, rank)), conv), "", args)
    decreases |mods|
  {
    var f := mods + [conv];
    if mods == "" {
      assert f == [conv] && f[1..] == "";
    } else {
      assert f[1..] == mods[1..] + [conv];
      RankRead(mods[1..], conv, NextRank(rank, mods[0]), fl, width, prec, args);
    }
  }

  lemma RankIsNothingElse(c: char)
    requires IsRank(c) || IsInteger(c)
    ensures !IsFlag(c) && !IsDigit(c) && c != '*' && c != '.' && c != '%'
  {
  }

  /** A directive without flags, width and precision. */
  lemma BareDirective(mods: string, conv: char, args: seq<Arg>)
    requires Ranks(mods) && IsInteger(conv)
    ensures Rendered("%" + mods + [conv], args, 0) == Resumed(Read(Directive(NO_FLAGS, 0, -1, Canonical(RankOf(mods, 0)), conv), "", args), 0)
  {
    hide IsRank, IsInteger, IsFlag, IsDigit, ReadRank, Converted;
    var f := mods + [conv];
    assert !IsRank(conv) by { NoRank(conv); }
    assert "%" + mods + [conv] == "%" + f && ("%" + f)[1..] == f;
    RankIsNothingElse(f[0]);
    RankRead(mods, conv, 0, NO_FLAGS, 0, -1, args);
  }

  lemma NoRank(conv: char)
    requires IsInteger(conv)
    ensures !IsRank(conv)
  {
  }

  lemma IntegerPrinted(mods: string, conv: char, v: int)
    requires Ranks(mods) && IsInteger(conv) && conv != 'p' && conv != 'P'
    ensures var o := Rendered("%" + mods + [conv], [Num(v)], 0);
            var d := Directive(NO_FLAGS, 0, -1, Canonical(RankOf(mods, 0)), conv);
            o.Done? && o.counts == [] && ReadBack(o.text, false, BaseOf(conv)) == Shows(d, v)
  {
    hide Shows, ReadBack, IntConversion, IsInteger;
    var d := Directive(NO_FLAGS, 0, -1, Canonical(RankOf(mods, 0)), conv);
    BareDirective(mods, conv, [Num(v)]);
    IntegerReadsBack(d, v);
    var t := IntConversion(d, v);
    assert Resumed(Read(d, "", [Num(v)]), 0) == Converted(Made(t, [], []), "", 0) by { assert [Num(v)][1..] == []; }
    assert Rendered("", [], |t|) == Done("", []);
    assert t + "" == t;
  }

  lemma Cut(v: int, bits: int)
    requires bits == 8 || bits == 16 || bits == 32 || bits == 64
    ensures var r, span := Signed(v, bits), Span(bits); -(span / 2) <= r < span / 2 && (v - r) % span == 0
    ensures var r, span := v % Span(bits), Span(bits); 0 <= r < span && (v - r) % span == 0
  {
    var span := Span(bits);
    var q := v / span;
    assert v == q * span + v % span;
    var r := Signed(v, bits);
    DivMul(q, span);
    if r != v % span {
      Distribute(q, 1, span);
      DivMul(q + 1, span);
    }
  }

  lemma SignedWidth(mods: string, conv: char, v: int, bits: int)
    requires (conv == 'd' || conv == 'i') && Ranks(mods) && (bits == 8 || bits == 16 || bits == 32 || bits == 64)
    requires Bits(Canonical(RankOf(mods, 0))) == bits
    ensures Prints("%" + mods + [conv], 10, v, -(Span(bits) / 2), Span(bits) / 2)
  {
    hide ReadBack, Rendered;
    IntegerPrinted(mods, conv, v);
    Cut(v, bits);
  }

  lemma UnsignedWidth(mods: string, conv: char, v: int, bits: int)
    requires (conv == 'u' || conv == 'x' || conv == 'X' || conv == 'o') && Ranks(mods)
    requires (bits == 8 || bits == 16 || bits == 32 || bits == 64) && Bits(Canonical(RankOf(mods, 0))) == bits
    ensures Prints("%" + mods + [conv], BaseOf(conv), v, 0, Span(bits))
  {
    hide ReadBack, Rendered;
    IntegerPrinted(mods, conv, v);
    Cut(v, bits);
  }

  lemma NoModifier()
    ensures Ranks("") && RankOf("", 0) == 0
  {
    NoRanks("");
  }

  lemma NoRanks(mods: string)
    requires |mods| == 0
    ensures Ranks(mods) && RankOf(mods, 0) == 0
  {
  }

  lemma OneModifier(c: char, rank: int)
    requires IsRank(c)
    ensures Ranks([c]) && RankOf([c], rank) == NextRank(rank, c)
  {
    assert [c][1..] == "";
  }

  lemma TwoModifiers(c: char)
    requires c == 'h' || c == 'l'
    ensures Ranks([c, c]) && RankOf([c, c], 0) == if c == 'h' then -2 else 2
  {
    assert [c, c][1..] == [c];
    OneModifier(c, NextRank(0, c));
  }

  /** What each format for a signed number prints, for every argument. */
  lemma SignedWidths(v: int)
    ensures Prints("%hhd", 10, v, -0x80, 0x80)
    ensures Prints("%hd", 10, v, -0x8000, 0x8000)
    ensures Prints("%d", 10, v, -0x8000_0000, 0x8000_0000) && Prints("%i", 10, v, -0x8000_0000, 0x8000_0000)
    ensures Prints("%ld", 10, v, -0x8000_0000, 0x8000_0000)
    ensures Prints("%lld", 10, v, -0x8000_0000_0000_0000, 0x8000_0000_0000_0000)
  {
    hide Prints, RankOf, Ranks;
    TwoModifiers('h');
    assert "%hhd" == "%" + "hh" + ['d'];
    SignedWidth("hh", 'd', v, 8);
    OneModifier('h', 0);
    assert "%hd" == "%" + "h" + ['d'];
    SignedWidth("h", 'd', v, 16);
    NoModifier();
    assert "%d" == "%" + "" + ['d'];
    SignedWidth("", 'd', v, 32);
    NoModifier();
    assert "%i" == "%" + "" + ['i'];
    SignedWidth("", 'i', v, 32);
    OneModifier('l', 0);
    assert "%ld" == "%" + "l" + ['d'];
    SignedWidth("l", 'd', v, 32);
    TwoModifiers('l');
    assert "%lld" == "%" + "ll" + ['d'];
    SignedWidth("ll", 'd', v, 64);
  }

  /** The modifiers of other types. */
  lemma OtherWidths(v: int)
    ensures Prints("%jd", 10, v, -0x8000_0000_0000_0000, 0x8000_0000_0000_0000)
    ensures Prints("%Ld", 10, v, -0x8000_0000_0000_0000, 0x8000_0000_0000_0000)
    ensures Prints("%qd", 10, v, -0x8000_0000_0000_0000, 0x8000_0000_0000_0000)
    ensures Prints("%zd", 10, v, -0x8000_0000, 0x8000_0000) && Prints("%td", 10, v, -0x8000_0000, 0x8000_0000)
  {
    hide Prints, RankOf, Ranks;
    OneModifier('j', 0);
    assert "%jd" == "%" + "j" + ['d'];
    SignedWidth("j", 'd', v, 64);
    OneModifier('L', 0);
    assert "%Ld" == "%" + "L" + ['d'];
    SignedWidth("L", 'd', v, 64);
    OneModifier('q', 0);
    assert "%qd" == "%" + "q" + ['d'];
    SignedWidth("q", 'd', v, 64);
    OneModifier('z', 0);
    assert "%zd" == "%" + "z" + ['d'];
    SignedWidth("z", 'd', v, 32);
    OneModifier('t', 0);
    assert "%td" == "%" + "t" + ['d'];
    SignedWidth("t", 'd', v, 32);
  }

  /** What each format for an unsigned number prints. */
  lemma UnsignedWidths(v: int)
    ensures Prints("%hhu", 10, v, 0, 0x100)
    ensures Prints("%hu", 10, v, 0, 0x1_0000)
    ensures Prints("%u", 10, v, 0, 0x1_0000_0000) && Prints("%lu", 10, v, 0, 0x1_0000_0000)
    ensures Prints("%x", 16, v, 0, 0x1_0000_0000) && Prints("%X", 16, v, 0, 0x1_0000_0000)
    ensures Prints("%o", 8, v, 0, 0x1_0000_0000)
    ensures Prints("%llu", 10, v, 0, 0x1_0000_0000_0000_0000) && Prints("%llx", 16, v, 0, 0x1_0000_0000_0000_0000)
  {
    hide Prints, RankOf, Ranks;
    TwoModifiers('h');
    assert "%hhu" == "%" + "hh" + ['u'];
    UnsignedWidth("hh", 'u', v, 8);
    OneModifier('h', 0);
    assert "%hu" == "%" + "h" + ['u'];
    UnsignedWidth("h", 'u', v, 16);
    NoModifier();
    assert "%u" == "%" + "" + ['u'];
    UnsignedWidth("", 'u', v, 32);
    OneModifier('l', 0);
    assert "%lu" == "%" + "l" + ['u'];
    UnsignedWidth("l", 'u', v, 32);
    NoModifier();
    assert "%x" == "%" + "" + ['x'];
    UnsignedWidth("", 'x', v, 32);
    NoModifier();
    assert "%X" == "%" + "" + ['X'];
    UnsignedWidth("", 'X', v, 32);
    NoModifier();
    assert "%o" == "%" + "" + ['o'];
    UnsignedWidth("", 'o', v, 32);
    TwoModifiers('l');
    assert "%llu" == "%" + "ll" + ['u'];
    UnsignedWidth("ll", 'u', v, 64);
    TwoModifiers('l');
    assert "%llx" == "%" + "ll" + ['x'];
    UnsignedWidth("ll", 'x', v, 64);
  }

  // ---------- how numbers look

  /** The sign and the prefix of a number. */
  lemma SignAndPrefix(val: int, fl: Flags, base: nat, prec: int)
    requires 0 <= val < INTMAX_SPAN && Base(base)
    ensures IntText(val, fl, base, 0, prec)
         == (if Meant(val, fl) < 0 then "-" else if fl.plus then "+" else if fl.space then " " else "")
          + (if fl.hash && base == 16 then if fl.upper then "0X" else "0x" else "")
          + Number(val, fl, base, prec)
  {
    var t := Sign(val, fl) + Prefix(fl, base) + Number(val, fl, base, prec);
    assert "" + Sign(val, fl) == Sign(val, fl);
    assert Sign(val, fl) + Prefix(fl, base) + "" == Sign(val, fl) + Prefix(fl, base);
    assert t + "" == t;
  }

  /** Where a field that is wider than the text is filled up: behind, between prefix and digits, or in front. */
  lemma Padded(val: int, fl: Flags, base: nat, width: int, prec: int)
    requires 0 <= val < INTMAX_SPAN && Base(base)
    ensures var t, bare := IntText(val, fl, base, width, prec), IntText(val, fl, base, 0, prec);
            var k, n := |bare| - |Number(val, fl, base, prec)|, width - |bare|;
            0 <= k && t == if n <= 0 then bare
                           else if fl.minus then bare + seq(n, _ => ' ')
                           else if fl.zero then bare[..k] + seq(n, _ => '0') + bare[k..]
                           else seq(n, _ => ' ') + bare
  {
    hide *;
    var s, p, number := Sign(val, fl), Prefix(fl, base), Number(val, fl, base, prec);
    BareParts(val, fl, base, prec);
    TextFilled(val, fl, base, width, prec);
    assert |s + p + number| == |s| + |p| + |number|;
    FilledParts(s, p, number, width - |s + p + number|, fl.minus, fl.zero);
  }

  lemma TextFilled(val: int, fl: Flags, base: nat, width: int, prec: int)
    requires 0 <= val < INTMAX_SPAN && Base(base)
    ensures var s, p, number := Sign(val, fl), Prefix(fl, base), Number(val, fl, base, prec);
            IntText(val, fl, base, width, prec) == Filled(s, p, number, width - |s + p + number|, fl.minus, fl.zero)
  {
    hide Number, Sign, Prefix, Times;
    assert NumChars(val, fl, base, prec) == |Sign(val, fl) + Prefix(fl, base) + Number(val, fl, base, prec)|;
  }

  lemma BareParts(val: int, fl: Flags, base: nat, prec: int)
    requires 0 <= val < INTMAX_SPAN && Base(base)
    ensures IntText(val, fl, base, 0, prec) == Sign(val, fl) + Prefix(fl, base) + Number(val, fl, base, prec)
  {
    hide Number, Sign, Prefix;
    var s, p, n := Sign(val, fl), Prefix(fl, base), Number(val, fl, base, prec);
    assert "" + s + p + "" + n + "" == s + p + n;
  }

  function Filled(s: string, p: string, number: string, n: int, minus: bool, zero: bool): string {
    Times(' ', if minus || zero then 0 else n) + s + p + Times('0', if zero && !minus then n else 0) + number + Times(' ', if minus then n else 0)
  }

  lemma FilledParts(s: string, p: string, number: string, n: int, minus: bool, zero: bool)
    ensures var bare, k := s + p + number, |s| + |p|;
            Filled(s, p, number, n, minus, zero)
            == if n <= 0 then bare
               else if minus then bare + seq(n, _ => ' ')
               else if zero then bare[..k] + seq(n, _ => '0') + bare[k..]
               else seq(n, _ => ' ') + bare
  {
    var bare, k := s + p + number, |s| + |p|;
    assert bare[..k] == s + p && bare[k..] == number;
    if n > 0 {
      assert Times(' ', n) == seq(n, _ => ' ') && Times('0', n) == seq(n, _ => '0');
    }
    assert Times(' ', 0) == "" && Times('0', 0) == "";
    Pieces(Times(' ', if minus || zero then 0 else n), s, p, Times('0', if zero && !minus then n else 0), number,
           Times(' ', if minus then n else 0), bare);
  }

  lemma Pieces(a: string, s: string, p: string, z: string, n: string, b: string, bare: string)
    requires bare == s + p + n
    ensures a == "" && z == "" ==> a + s + p + z + n + b == bare + b
    ensures a == "" && b == "" ==> a + s + p + z + n + b == (s + p) + z + n
    ensures z == "" && b == "" ==> a + s + p + z + n + b == a + bare
  {
    assert "" + s == s && s + p + "" == s + p;
    if b == "" {
      assert a + s + p + z + n + b == a + s + p + z + n;
    }
    if z == "" && b == "" {
      assert a + s + p + z + n == a + (s + p + n);
    }
  }

  /** The characters of a number: digits of its base in the case asked for, and a mark before each group of three or four. */
  lemma DigitsLook(val: int, fl: Flags, base: nat, prec: int, i: nat)
    requires 0 <= val < INTMAX_SPAN && Base(base) && i < |Number(val, fl, base, prec)|
    ensures var c, r, group := Number(val, fl, base, prec)[i], |Number(val, fl, base, prec)| - 1 - i, (if base == 16 then 4 else 3);
            && (c == '_' <==> fl.tick && r % (group + 1) == group)
            && (c != '_' ==> DigitValue(c) < base && ('0' <= c <= '9' || if fl.upper then 'A' <= c <= 'F' else 'a' <= c <= 'f'))
  {
    hide NumDigits;
    var d := DigitsWritten(val, fl, base, prec);
    var k := Skip(fl, base, d);
    var s := Number(val, fl, base, prec);
    var r := |s| - 1 - i;
    if !fl.tick {
      DivUnique(d - 1, d, 0, d - 1);
      DivUnique(r, k + 1, 0, r);
    }
    var v := Magnitude(val, fl);
    assert s[i] == NumberChar(v, base, fl.upper, k, r);
    var x := Shifted(v, base, DigitsIn(r, k)) % base;
    assert 0 <= x < base;
    ShownDigit(x, base, fl.upper);
  }

  lemma ShownDigit(d: nat, base: nat, upper: bool)
    requires d < base <= 16
    ensures var c := DigitChar(d, upper);
            c != '_' && DigitValue(c) < base && ('0' <= c <= '9' || if upper then 'A' <= c <= 'F' else 'a' <= c <= 'f')
  {
  }

  /** How many digits there are: the precision, or as many as the number needs and no zero in front. */
  lemma DigitsCount(val: int, fl: Flags, base: nat, prec: int)
    requires 0 <= val < INTMAX_SPAN && Base(base) && !fl.tick
    ensures var s := Number(val, fl, base, prec);
            && |s| >= prec && |s| >= 1
            && (fl.hash && base == 8 ==> s[0] == '0')
            && (!(fl.hash && base == 8) && |s| > prec && |s| > 1 ==> s[0] != '0')
  {
    hide Number, NumDigits, Shifted, Magnitude, DigitChar;
    var d, v := DigitsWritten(val, fl, base, prec), Magnitude(val, fl);
    FirstDigit(val, fl, base, prec);
    var top := Shifted(v, base, d - 1);
    TopDigit(v, base, d);
    if top < base { DivUnique(top, base, 0, top); }
    ShownZero(top % base, fl.upper);
  }

  lemma FirstDigit(val: int, fl: Flags, base: nat, prec: int)
    requires 0 <= val < INTMAX_SPAN && Base(base) && !fl.tick
    ensures var s, d := Number(val, fl, base, prec), DigitsWritten(val, fl, base, prec);
            0 <= Shifted(Magnitude(val, fl), base, d - 1) % base < 16
            && |s| == d && s[0] == DigitChar(Shifted(Magnitude(val, fl), base, d - 1) % base, fl.upper)
  {
    hide NumDigits, DigitsWritten, Magnitude, Shifted, DigitChar;
    var d, v := DigitsWritten(val, fl, base, prec), Magnitude(val, fl);
    DivUnique(d - 1, d, 0, d - 1);
    DivUnique(d - 1, d + 1, 0, d - 1);
    var s := Number(val, fl, base, prec);
    assert |s| == d && s[0] == NumberChar(v, base, fl.upper, d, d - 1);
    assert DigitsIn(d - 1, d) == d - 1;
  }

  lemma ShownZero(d: nat, upper: bool)
    requires d < 16
    ensures DigitChar(d, upper) == '0' <==> d == 0
  {
  }

  /** The digit in front is zero exactly if there are more digits than needed. */
  lemma {:induction false} TopDigit(v: nat, base: nat, d: nat)
    requires base > 1 && d > 0
    ensures d > NumDigits(v, base) ==> Shifted(v, base, d - 1) % base == 0
    ensures d == NumDigits(v, base) ==> 0 < Shifted(v, base, d - 1) < base
    decreases d
  {
    hide NumDigits;
    if d > NumDigits(v, base) {
      AllShifted(v, base, d - 1);
      DivUnique(0, base, 0, 0);
    } else if d == NumDigits(v, base) {
      OneDigitMore(v, base);
      if d == 1 {
        Quotient(v, base);
      } else {
        ShiftedFirst(v, base, d - 1);
        TopDigit(v / base, base, d - 1);
      }
    }
  }

  lemma OneDigitMore(v: nat, base: nat)
    requires base > 1 && NumDigits(v, base) > 0
    ensures v > 0 && 0 <= v / base < v && NumDigits(v, base) == 1 + NumDigits(v / base, base)
    ensures NumDigits(v, base) == 1 ==> v / base == 0
  {
    Smaller(v, base);
  }

  // ---------- strings and characters

  /** A string in its field: cut to the precision, at the left or right end, blanks or zeros in the rest. */
  lemma StringLooks(s: string, fl: Flags, width: int, prec: int)
    requires prec >= -1
    ensures ShownLength(|s|, prec) >= 0
    ensures var t := StringText(s, fl, width, prec);
            var k := if prec >= 0 && prec < |s| then prec else |s|;
            && |t| == (if width > k then width else k)
            && (fl.minus ==> t[..k] == s[..k] && forall i :: k <= i < |t| ==> t[i] == ' ')
            && (!fl.minus ==> t[|t| - k..] == s[..k] && forall i :: 0 <= i < |t| - k ==> t[i] == if fl.zero then '0' else ' ')
  {
  }

  /** Strings, characters, per cent signs and %n on their own. */
  lemma SimpleFormats(s: string, c: int)
    ensures Rendered("%s", [Str(s)], 0) == Done(s, [])
    ensures Rendered("%s", [NullStr], 0) == Done("(null)", [])
    ensures Rendered("%c", [Num(c)], 0) == Done([(c % 256) as char], [])
    ensures Rendered("%%", [], 0) == Done("%", [])
  {
    hide StringText;
    Simple('s', [Str(s)]);
    Simple('s', [NullStr]);
    Simple('c', [Num(c)]);
    Simple('%', []);
    assert "%" + ['s'] == "%s" && "%" + ['c'] == "%c" && "%" + ['%'] == "%%";
    StringLooks(s, NO_FLAGS, 0, -1);
    StringLooks("(null)", NO_FLAGS, 0, -1);
    StringLooks([(c % 256) as char], NO_FLAGS, 0, -1);
    Whole(s);
    Whole("(null)");
    Whole([(c % 256) as char]);
  }

  lemma Whole(s: string)
    ensures StringText(s, NO_FLAGS, 0, -1) == s
  {
    StringLooks(s, NO_FLAGS, 0, -1);
    var t := StringText(s, NO_FLAGS, 0, -1);
    assert t[|t| - |s|..] == t && s[..|s|] == s;
  }

  lemma Simple(conv: char, args: seq<Arg>)
    requires conv == 's' || conv == 'c' || conv == '%'
    requires Convert(Directive(NO_FLAGS, 0, -1, 0, conv), args, 0).Made?
    requires Convert(Directive(NO_FLAGS, 0, -1, 0, conv), args, 0).args == []
    ensures Rendered("%" + [conv], args, 0)
         == Done(Convert(Directive(NO_FLAGS, 0, -1, 0, conv), args, 0).text, Convert(Directive(NO_FLAGS, 0, -1, 0, conv), args, 0).counts)
  {
    hide Convert, Rendered;
    var d := Directive(NO_FLAGS, 0, -1, 0, conv);
    var f: string := [conv];
    var c := Convert(d, args, 0);
    assert ("%" + f)[1..] == f && f[1..] == "";
    SimpleRead(f, conv, args);
    Started("%" + f, args, 0);
    assert Resumed(Read(d, "", args), 0) == Converted(c, "", 0);
    Ended(c.args, |c.text|);
    assert c.text + "" == c.text && c.counts + [] == c.counts;
  }

  lemma SimpleRead(f: string, conv: char, args: seq<Arg>)
    requires f == [conv] && (conv == 's' || conv == 'c' || conv == '%')
    ensures ReadFlags(f, NO_FLAGS, args) == Read(Directive(NO_FLAGS, 0, -1, 0, conv), "", args)
  {
    assert f[1..] == "";
    assert ReadRank(f, 0, -1, 0, NO_FLAGS, args) == Read(Directive(NO_FLAGS, 0, -1, 0, conv), "", args);
  }

  lemma Started(f: string, args: seq<Arg>, at: int)
    requires f != "" && f[0] == '%'
    ensures Rendered(f, args, at) == Resumed(ReadFlags(f[1..], NO_FLAGS, args), at)
  {
  }

  lemma Ended(args: seq<Arg>, at: int)
    ensures Rendered("", args, at) == Done("", [])
  {
  }

  // ---------- widths and precisions

  /** A number in decimal, as the formatter itself writes it. */
  function Decimal(n: nat): (s: string)
    requires n < INTMAX_SPAN
  {
    Number(n, NO_FLAGS, 10, -1)
  }

  lemma DecimalIs(n: nat)
    requires n < INTMAX_SPAN
    ensures Digits(Decimal(n)) && ValueOf(Decimal(n), 10) == n && Decimal(n) != "" && (n > 0 ==> Decimal(n)[0] != '0')
  {
    hide Number, ValueOf;
    NumberEnds(n, NO_FLAGS, 10, -1);
    DigitsCount(n, NO_FLAGS, 10, -1);
    forall i | 0 <= i < |Decimal(n)| ensures IsDigit(Decimal(n)[i]) {
      DigitsLook(n, NO_FLAGS, 10, -1, i);
    }
    if n > 0 && |Decimal(n)| == 1 && Decimal(n)[0] == '0' {
      ZeroAlone(Decimal(n));
    }
  }

  lemma ZeroAlone(s: string)
    requires |s| == 1 && s[0] == '0'
    ensures ValueOf(s, 10) == 0
  {
    assert s[..0] == "";
  }

  lemma {:induction false} ExtendedIs(v: int, ds: string)
    requires Digits(ds)
    ensures Extended(v, ds) == v * Power(|ds|) + ValueOf(ds, 10)
    decreases |ds|
  {
    if ds != "" {
      var n := |ds| - 1;
      ExtendedLast(v, ds);
      ExtendedIs(v, ds[..n]);
      assert ds[n] != '_';
      assert (v * Power(n)) * 10 == v * (Power(n) * 10);
    }
  }

  function Power(k: nat): nat { if k == 0 then 1 else Power(k - 1) * 10 }

  lemma {:induction false} ExtendedLast(v: int, ds: string)
    requires Digits(ds) && ds != ""
    ensures Digits(ds[..|ds| - 1])
    ensures Extended(v, ds) == Extended(v, ds[..|ds| - 1]) * 10 + (ds[|ds| - 1] as int - '0' as int)
    decreases |ds|
  {
    var n := |ds| - 1;
    if n == 0 {
      assert ds[1..] == "" && ds[..0] == "";
    } else {
      ExtendedLast(v * 10 + (ds[0] as int - '0' as int), ds[1..]);
      assert ds[1..][..n - 1] == ds[..n][1..] && ds[1..][n - 1] == ds[n] && ds[..n][0] == ds[0];
    }
  }

  lemma {:induction false} WidthDigits(ds: string, f: string, width: int, fl: Flags, args: seq<Arg>)
    requires Digits(ds)
    ensures ReadWidth(ds + f, width, fl, args) == ReadWidth(f, Extended(width, ds), fl, args)
    decreases |ds|
  {
    if ds == "" {
      assert ds + f == f;
    } else {
      assert (ds + f)[1..] == ds[1..] + f;
      WidthDigits(ds[1..], f, width * 10 + (ds[0] as int - '0' as int), fl, args);
    }
  }

  /** A width written in decimal is that width, and so is a precision. */
  lemma NumbersRead(n: nat, f: string, fl: Flags, width: int, args: seq<Arg>)
    requires n < INTMAX_SPAN
    ensures ReadWidth(Decimal(n) + f, 0, fl, args) == ReadWidth(f, n, fl, args)
    ensures ReadPrec(Decimal(n) + f, 0, width, fl, args) == ReadPrec(f, n, width, fl, args)
    ensures n > 0 ==> ReadFlags(Decimal(n) + f, fl, args) == ReadWidth(f, n, fl, args)
  {
    hide ReadWidth, ReadPrec, Number, ValueOf;
    DecimalIs(n);
    ExtendedIs(0, Decimal(n));
    WidthDigits(Decimal(n), f, 0, fl, args);
    DigitsRead(Decimal(n), f, 0, width, fl, args);
    if n > 0 {
      assert (Decimal(n) + f)[0] == Decimal(n)[0];
      NoFlagDigit(Decimal(n)[0]);
    }
  }

  lemma NoFlagDigit(c: char)
    requires IsDigit(c) && c != '0'
    ensures !IsFlag(c)
  {
  }

  /** An asterisk takes the width from the arguments; a negative one means the left end. */
  lemma StarWidth(v: int, f: string, fl: Flags, args: seq<Arg>)
    requires -0x8000_0000 <= v < 0x8000_0000
    ensures ReadWidth("*" + f, 0, fl, [Num(v)] + args)
         == ReadWidth(f, if v < 0 then -v else v, if v < 0 then fl.(minus := true) else fl, args)
  {
    assert ("*" + f)[1..] == f && ([Num(v)] + args)[1..] == args;
    Cut(v, 32);
    assert Signed(v, 32) == v;
  }
}
