/**
 vsnprintf.c:168-454: the format state machine, against a reader that takes one directive
 at a time and knows nothing of buffers.
 */
module Vsnprintf {
  import opened Printf

  /** What a caller passes: numbers as they are, strings as their characters. */
  datatype Arg = Num(v: int) | Str(s: string) | NullStr | Place

  // ---------- the reader

  datatype Directive = Directive(flags: Flags, width: int, prec: int, rank: int, conv: char)

  /** The format may end inside a directive, or an argument be missing. */
  datatype Reading = Cut | Missing | Read(d: Directive, rest: string, args: seq<Arg>)

  predicate IsFlag(c: char) { c == '-' || c == '+' || c == '\'' || c == ' ' || c == '#' || c == '0' }

  predicate IsDigit(c: char) { '0' <= c <= '9' }

  function WithFlag(fl: Flags, c: char): Flags {
    match c
    case '-' => fl.(minus := true)
    case '+' => fl.(plus := true)
    case '\'' => fl.(tick := true)
    case ' ' => fl.(space := true)
    case '#' => fl.(hash := true)
    case '0' => fl.(zero := true)
    case _ => fl
  }

  /** `v` taken as a signed integer of `bits` bits. */
  function Signed(v: int, bits: int): int
    requires bits == 8 || bits == 16 || bits == 32 || bits == 64
  {
    var span := Span(bits);
    if v % span >= span / 2 then v % span - span else v % span
  }

  function Span(bits: int): int
    requires bits == 8 || bits == 16 || bits == 32 || bits == 64
  {
    if bits == 8 then 0x100 else if bits == 16 then 0x1_0000 else if bits == 32 then 0x1_0000_0000 else INTMAX_SPAN
  }

  predicate IsRank(c: char) { c in "hljztLq" }

  function NextRank(rank: int, c: char): int {
    match c
    case 'h' => rank - 1
    case 'l' => rank + 1
    case 'j' => 2
    case 'z' => 1
    case 't' => 1
    case 'L' => rank + 2
    case 'q' => rank + 2
    case _ => rank
  }

  function Canonical(rank: int): int { if rank < -2 then -2 else if rank > 2 then 2 else rank }

  /** The width of an argument of rank `rank`: char, short, int, long or long long. */
  function Bits(rank: int): int {
    if rank == -2 then 8 else if rank == -1 then 16 else if rank == 2 then 64 else 32
  }

  function ReadFlags(f: string, fl: Flags, args: seq<Arg>): (r: Reading)
    ensures r.Read? ==> |r.rest| < |f|
  {
    if f == "" then Cut
    else if IsFlag(f[0]) then ReadFlags(f[1..], WithFlag(fl, f[0]), args)
    else ReadWidth(f, 0, fl, args)
  }

  function ReadWidth(f: string, width: int, fl: Flags, args: seq<Arg>): (r: Reading)
    ensures r.Read? ==> |r.rest| < |f|
  {
    if f == "" then Cut
    else if IsDigit(f[0]) then ReadWidth(f[1..], width * 10 + (f[0] as int - '0' as int), fl, args)
    else if f[0] == '*' then
      if args == [] || !args[0].Num? then Missing
      else
        var w := Signed(args[0].v, 32);
        ReadWidth(f[1..], if w < 0 then -w else w, if w < 0 then fl.(minus := true) else fl, args[1..])
    else if f[0] == '.' then ReadPrec(f[1..], 0, width, fl, args)
    else ReadRank(f, 0, -1, width, fl, args)
  }

  function ReadPrec(f: string, prec: int, width: int, fl: Flags, args: seq<Arg>): (r: Reading)
    ensures r.Read? ==> |r.rest| < |f|
  {
    if f == "" then Cut
    else if IsDigit(f[0]) then ReadPrec(f[1..], prec * 10 + (f[0] as int - '0' as int), width, fl, args)
    else if f[0] == '*' then
      if args == [] || !args[0].Num? then Missing
      else
        var p := Signed(args[0].v, 32);
        ReadPrec(f[1..], if p < 0 then -1 else p, width, fl, args[1..])
    else ReadRank(f, 0, prec, width, fl, args)
  }

  function ReadRank(f: string, rank: int, prec: int, width: int, fl: Flags, args: seq<Arg>): (r: Reading)
    ensures r.Read? ==> |r.rest| < |f|
  {
    if f == "" then Cut
    else if IsRank(f[0]) then ReadRank(f[1..], NextRank(rank, f[0]), prec, width, fl, args)
    else Read(Directive(fl, width, prec, Canonical(rank), f[0]), f[1..], args)
  }

  // ---------- what one conversion yields

  /** No text for an argument of the wrong kind; `counts` is what %n stores. */
  datatype Conversion = Bad | Made(text: string, counts: seq<int>, args: seq<Arg>)

  /** How often the loop in lines 404-407 is to run; a negative number takes it out of the string. */
  function ShownLength(length: nat, prec: int): int {
    if prec != -1 && length > prec then prec else length
  }

  /** A string in its field; a precision cuts it (lines 389-415). */
  function StringText(s: string, fl: Flags, width: int, prec: int): string
    requires ShownLength(|s|, prec) >= 0
  {
    var shown := s[..ShownLength(|s|, prec)];
    if fl.minus then shown + Times(' ', width - |shown|)
    else Times(if fl.zero then '0' else ' ', width - |shown|) + shown
  }

  /** The 64-bit pattern of a signed argument, sign-extended (lines 309-333). */
  function SignedVal(v: int, rank: int): (val: int)
    ensures 0 <= val < INTMAX_SPAN
  {
    Signed(v, Bits(rank)) % INTMAX_SPAN
  }

  function UnsignedVal(v: int, rank: int): (val: int)
    ensures 0 <= val < INTMAX_SPAN
  {
    v % Span(Bits(rank))
  }

  predicate IsInteger(c: char) { c == 'P' || c == 'p' || c == 'd' || c == 'i' || c == 'o' || c == 'u' || c == 'X' || c == 'x' }

  function IntConversion(d: Directive, v: int): (text: string)
    requires IsInteger(d.conv)
  {
    match d.conv
    case 'P' => IntText(v % Span(32), d.flags.(upper := true, hash := true), 16, d.width, 8)
    case 'p' => IntText(v % Span(32), d.flags.(hash := true), 16, d.width, 8)
    case 'd' => IntText(SignedVal(v, d.rank), d.flags.(signed := true), 10, d.width, d.prec)
    case 'i' => IntText(SignedVal(v, d.rank), d.flags.(signed := true), 10, d.width, d.prec)
    case 'o' => IntText(UnsignedVal(v, d.rank), d.flags, 8, d.width, d.prec)
    case 'u' => IntText(UnsignedVal(v, d.rank), d.flags, 10, d.width, d.prec)
    case 'X' => IntText(UnsignedVal(v, d.rank), d.flags.(upper := true), 16, d.width, d.prec)
    case _ => IntText(UnsignedVal(v, d.rank), d.flags, 16, d.width, d.prec)
  }

  function StringOf(arg: Arg): string
    requires arg.Str? || arg.NullStr?
  {
    if arg.Str? then arg.s else "(null)"
  }

  /** The conversion of `d`, when `at` characters have been produced before it. */
  function Convert(d: Directive, args: seq<Arg>, at: int): Conversion {
    if IsInteger(d.conv) then
      if args == [] || !args[0].Num? then Bad else Made(IntConversion(d, args[0].v), [], args[1..])
    else if d.conv == 'c' then
      if args == [] || !args[0].Num? || ShownLength(1, d.prec) < 0 then Bad
      else Made(StringText([(args[0].v % 256) as char], d.flags, d.width, d.prec), [], args[1..])
    else if d.conv == 's' then
      if args == [] || args[0].Num? || args[0].Place? || ShownLength(|StringOf(args[0])|, d.prec) < 0 then Bad
      else Made(StringText(StringOf(args[0]), d.flags, d.width, d.prec), [], args[1..])
    else if d.conv == 'n' then
      if args == [] || !args[0].Place? then Bad else Made("", [Signed(at, Bits(d.rank))], args[1..])
    else Made([d.conv], [], args)
  }

  /** `fl` with every flag whose character occurs in `h`. */
  function FlagSet(h: string, fl: Flags): Flags {
    Flags(fl.zero || '0' in h, fl.minus || '-' in h, fl.plus || '+' in h, fl.tick || '\'' in h,
          fl.space || ' ' in h, fl.hash || '#' in h, fl.signed, fl.upper)
  }

  lemma OneFlag(c: char, h: string, fl: Flags)
    requires IsFlag(c)
    ensures FlagSet([c] + h, fl) == FlagSet(h, WithFlag(fl, c))
  {
    assert forall x :: x in [c] + h <==> x == c || x in h;
  }

  /** The flags at the head of a directive count as a set: order and repetition do not matter. */
  lemma {:induction false} FlagsAreSet(h: string, f: string, fl: Flags, args: seq<Arg>)
    requires (f == "" || !IsFlag(f[0])) && forall i :: 0 <= i < |h| ==> IsFlag(h[i])
    ensures ReadFlags(h + f, fl, args) == if f == "" then Cut else ReadWidth(f, 0, FlagSet(h, fl), args)
    decreases |h|
  {
    hide ReadWidth, IsFlag, FlagSet;
    if h == "" {
      assert h + f == f;
      NoFlag(fl);
    } else {
      assert (h + f)[1..] == h[1..] + f && h == [h[0]] + h[1..];
      OneFlag(h[0], h[1..], fl);
      FlagsAreSet(h[1..], f, WithFlag(fl, h[0]), args);
    }
  }

  lemma NoFlag(fl: Flags)
    ensures FlagSet("", fl) == fl
  {
  }

  // ---------- precisions that run away

  /** A precision with the digits `ds` behind it. */
  function Extended(prec: int, ds: string): int
    decreases |ds|
  {
    if ds == "" then prec else Extended(prec * 10 + (ds[0] as int - '0' as int), ds[1..])
  }

  predicate Digits(ds: string) { forall i :: 0 <= i < |ds| ==> IsDigit(ds[i]) }

  predicate Nines(ds: string) { forall i :: 0 <= i < |ds| ==> ds[i] == '9' }

  lemma {:induction false} ExtendedSign(prec: int, ds: string)
    requires Digits(ds)
    ensures prec >= 0 ==> Extended(prec, ds) >= 0
    ensures prec < -1 ==> Extended(prec, ds) < -1
    ensures prec == -1 ==> if Nines(ds) then Extended(prec, ds) == -1 else Extended(prec, ds) < -1
    decreases |ds|
  {
    if ds != "" {
      ExtendedSign(prec * 10 + (ds[0] as int - '0' as int), ds[1..]);
      assert Nines(ds) <==> ds[0] == '9' && Nines(ds[1..]);
    }
  }

  lemma {:induction false} DigitsRead(ds: string, f: string, prec: int, width: int, fl: Flags, args: seq<Arg>)
    requires Digits(ds)
    ensures ReadPrec(ds + f, prec, width, fl, args) == ReadPrec(f, Extended(prec, ds), width, fl, args)
    decreases |ds|
  {
    if ds == "" {
      assert ds + f == f;
    } else {
      assert (ds + f)[1..] == ds[1..] + f;
      DigitsRead(ds[1..], f, prec * 10 + (ds[0] as int - '0' as int), width, fl, args);
    }
  }

  /** A precision that is given by an argument `p` and followed by the digits `ds`. */
  function PrecisionOf(p: int, ds: string): int {
    Extended(if Signed(p, 32) < 0 then -1 else Signed(p, 32), ds)
  }

  /**
     A string or character whose precision is an asterisk with digits behind it is converted
     exactly if the argument is not negative or the digits are all nines; otherwise the loop
     runs out of the string.
   */
  lemma PrecisionExact(p: int, ds: string, conv: char, f: string, width: int, fl: Flags, arg: Arg, args: seq<Arg>, at: int)
    requires Digits(ds) && if conv == 'c' then arg.Num? else conv == 's' && (arg.Str? || arg.NullStr?)
    ensures var d := Directive(fl, width, PrecisionOf(p, ds), 0, conv);
            && ReadPrec("*" + ds + [conv] + f, 0, width, fl, [Num(p), arg] + args) == Read(d, f, [arg] + args)
            && (Convert(d, [arg] + args, at).Made? <==> Signed(p, 32) >= 0 || Nines(ds))
  {
    hide Signed, StringText;
    var all := "*" + ds + [conv] + f;
    assert all[1..] == ds + ([conv] + f) && ([conv] + f)[1..] == f;
    assert ([Num(p), arg] + args)[1..] == [arg] + args;
    DigitsRead(ds, [conv] + f, if Signed(p, 32) < 0 then -1 else Signed(p, 32), width, fl, [arg] + args);
    ExtendedSign(if Signed(p, 32) < 0 then -1 else Signed(p, 32), ds);
  }

  /** So the format "%.*5s" is not converted for the precision -1. */
  lemma RunawayPrecision(s: string)
    ensures PrecisionOf(-1, "5") == -5 && ShownLength(|s|, -5) == -5
    ensures Rendered("%.*5s", [Num(-1), Str(s)], 0) == Undefined
  {
    var ap := [Num(-1), Str(s)];
    assert Signed(-1, 32) == -1;
    assert "%.*5s"[1..] == ".*5s" && ".*5s"[1..] == "*5s" && "*5s" == "*" + "5" + ['s'] + "";
    assert Extended(-1, "5") == Extended(-5, "5"[1..]) && "5"[1..] == "";
    PrecisionExact(-1, "5", 's', "", 0, NO_FLAGS, Str(s), [], 0);
    assert [Num(-1), Str(s)] + [] == ap && [Str(s)] + [] == [Str(s)];
    assert ReadFlags(".*5s", NO_FLAGS, ap) == ReadWidth(".*5s", 0, NO_FLAGS, ap) == ReadPrec("*5s", 0, 0, NO_FLAGS, ap);
  }

  function BaseOf(conv: char): nat {
    if conv == 'o' then 8 else if conv == 'd' || conv == 'i' || conv == 'u' then 10 else 16
  }

  /** The number a conversion shows: the argument cut to the width of its rank, with or without a sign. */
  function Shows(d: Directive, v: int): int {
    if d.conv == 'd' || d.conv == 'i' then Signed(v, Bits(d.rank))
    else if d.conv == 'p' || d.conv == 'P' then v % Span(32)
    else v % Span(Bits(d.rank))
  }

  /** What an integer conversion prints, a reader takes for the argument's value. */
  lemma IntegerReadsBack(d: Directive, v: int)
    requires IsInteger(d.conv) && !d.flags.signed
    ensures var prefixed := BaseOf(d.conv) == 16 && (d.flags.hash || d.conv == 'p' || d.conv == 'P');
            ReadBack(IntConversion(d, v), prefixed, BaseOf(d.conv)) == Shows(d, v)
  {
    hide IntText, ReadBack;
    var fl := d.flags;
    if d.conv == 'd' || d.conv == 'i' {
      SignMeant(v, d.rank, fl.(signed := true));
      IntReadsBack(SignedVal(v, d.rank), fl.(signed := true), 10, d.width, d.prec);
    } else if d.conv == 'p' {
      IntReadsBack(v % Span(32), fl.(hash := true), 16, d.width, 8);
    } else if d.conv == 'P' {
      IntReadsBack(v % Span(32), fl.(upper := true, hash := true), 16, d.width, 8);
    } else {
      IntReadsBack(UnsignedVal(v, d.rank), if d.conv == 'X' then fl.(upper := true) else fl, BaseOf(d.conv), d.width, d.prec);
    }
  }

  /** Sign extension to 64 bits keeps the number. */
  lemma SignMeant(v: int, rank: int, fl: Flags)
    requires fl.signed
    ensures Meant(SignedVal(v, rank), fl) == Signed(v, Bits(rank))
  {
    var s := Signed(v, Bits(rank));
    assert -(INTMAX_SPAN / 2) <= s < INTMAX_SPAN / 2;
    if s < 0 {
      assert s % INTMAX_SPAN == s + INTMAX_SPAN;
    } else {
      assert s % INTMAX_SPAN == s;
    }
  }

  // ---------- the whole format

  datatype Outcome = Undefined | Done(text: string, counts: seq<int>)

  function Behind(text: string, counts: seq<int>, o: Outcome): Outcome {
    match o
    case Undefined => Undefined
    case Done(t, c) => Done(text + t, counts + c)
  }

  /** The text of format `f`, and what its %n directives store. */
  function Rendered(f: string, args: seq<Arg>, at: int): Outcome
    decreases |f|, 0
  {
    if f == "" then Done("", [])
    else if f[0] != '%' then Behind([f[0]], [], Rendered(f[1..], args, at + 1))
    else Resumed(ReadFlags(f[1..], NO_FLAGS, args), at)
  }

  /** The text from a directive on that is being read. */
  function Resumed(r: Reading, at: int): Outcome
    decreases if r.Read? then |r.rest| + 1 else 0
  {
    match r
    case Cut => Done("", [])
    case Missing => Undefined
    case Read(d, rest, args) => Converted(Convert(d, args, at), rest, at)
  }

  function Converted(c: Conversion, rest: string, at: int): Outcome
    decreases |rest|, 1
  {
    match c
    case Bad => Undefined
    case Made(text, counts, args) => Behind(text, counts, Rendered(rest, args, at + |text|))
  }

  lemma BehindBehind(t: string, c: seq<int>, u: string, d: seq<int>, o: Outcome)
    ensures Behind(t, c, Behind(u, d, o)) == Behind(t + u, c + d, o)
  {
    if o.Done? {
      assert t + (u + o.text) == t + u + o.text && c + (d + o.counts) == c + d + o.counts;
    }
  }

  // ---------- the code

  /** The five states of the machine. */
  datatype State = Normal | InFlags | InWidth | InPrec | InModifiers

  function Order(s: State): nat {
    match s
    case InFlags => 3
    case InWidth => 2
    case InPrec => 1
    case _ => 0
  }

  /** What the rest of the format means to a machine in a given state. */
  function Pending(s: State, f: string, fl: Flags, width: int, prec: int, rank: int, args: seq<Arg>, at: int): Outcome {
    match s
    case Normal => Rendered(f, args, at)
    case InFlags => Resumed(ReadFlags(f, fl, args), at)
    case InWidth => Resumed(ReadWidth(f, width, fl, args), at)
    case InPrec => Resumed(ReadPrec(f, prec, width, fl, args), at)
    case InModifiers => Resumed(ReadRank(f, rank, prec, width, fl, args), at)
  }

  /** Lines 404-407. */
  method PutChars(buffer: array<char>, n: int, q0: int, o0: int, sarg: string, slen: nat, ghost a: seq<char>, ghost t: string)
    returns (q: int, o: int)
    requires slen <= |sarg| && Out(a, buffer[..], 0, n, t, q0, o0) && Fits(buffer.Length, 0, n, |t| + slen)
    modifies buffer
    ensures Out(a, buffer[..], 0, n, t + sarg[..slen], q, o)
  {
    hide Shown;
    q, o := q0, o0;
    assert t + sarg[..0] == t;
    for i := 0 to slen
      invariant Out(a, buffer[..], 0, n, t + sarg[..i], q, o)
    {
      q, o := Emit(buffer, n, q, o, sarg[i], a, 0, t + sarg[..i]);
      assert t + sarg[..i] + [sarg[i]] == t + sarg[..i + 1];
    }
  }

  /** Lines 389-415: a string, cut and padded. */
  method PutString(buffer: array<char>, n: int, q0: int, o0: int, sarg: string, fl: Flags, width0: int, prec: int,
                   ghost a: seq<char>, ghost t: string)
    returns (q: int, o: int)
    requires ShownLength(|sarg|, prec) >= 0 && Out(a, buffer[..], 0, n, t, q0, o0)
    requires Fits(buffer.Length, 0, n, |t + StringText(sarg, fl, width0, prec)|)
    modifies buffer
    ensures Out(a, buffer[..], 0, n, t + StringText(sarg, fl, width0, prec), q, o)
  {
    hide Shown, Times;
    var slen, width := |sarg|, width0;
    if prec != -1 && slen > prec {
      slen := prec;
    }
    q, o := q0, o0;
    ghost var w := t;
    ghost var pad := Times(if fl.zero then '0' else ' ', width - slen);
    NoMore(t, if fl.zero then '0' else ' ', width - slen);
    if width > slen && !fl.minus {
      q, o, width := Pad(buffer, n, q, o, if fl.zero then '0' else ' ', width, slen, a, 0, t);
    }
    if !fl.minus {
      w := t + pad;
    }
    q, o := PutChars(buffer, n, q, o, sarg, slen, a, w);
    w := w + sarg[..slen];
    NoMore(w, ' ', width0 - slen);
    if width > slen && fl.minus {
      q, o, width := Pad(buffer, n, q, o, ' ', width, slen, a, 0, w);
    }
    StringParts(t, sarg, fl, width0, prec, slen);
  }

  lemma StringParts(t: string, s: string, fl: Flags, width: int, prec: int, slen: int)
    requires 0 <= slen == ShownLength(|s|, prec)
    ensures t + StringText(s, fl, width, prec)
         == if fl.minus then t + s[..slen] + Times(' ', width - slen)
            else t + Times(if fl.zero then '0' else ' ', width - slen) + s[..slen]
  {
  }

  /** Lines 286-443: the conversion character `ch`; it takes its argument from `ap`. */
  method Output(buffer: array<char>, n: int, q0: int, o0: int, ch: char, fl0: Flags, width: int, prec0: int, rank0: int, ap0: seq<Arg>,
                ghost a: seq<char>, ghost t: string)
    returns (q: int, o: int, ap: seq<Arg>, stored: seq<int>)
    requires 0 <= n && Out(a, buffer[..], 0, n, t, q0, o0)
    requires var c := Convert(Directive(fl0, width, prec0, Canonical(rank0), ch), ap0, o0);
             c.Made? && Fits(buffer.Length, 0, n, |t| + |c.text|)
    modifies buffer
    ensures var c := Convert(Directive(fl0, width, prec0, Canonical(rank0), ch), ap0, o0);
            Out(a, buffer[..], 0, n, t + c.text, q, o) && stored == c.counts && ap == c.args
  {
    hide Shown, IntText, StringText;
    var rank := if rank0 < -2 then -2 else if rank0 > 2 then 2 else rank0;
    q, o, ap, stored := q0, o0, ap0, [];
    if IsInteger(ch) {
      var fl, base, prec, val := fl0, 16, prec0, 0;
      if ch == 'P' || ch == 'p' {
        fl := fl.(upper := fl.upper || ch == 'P', hash := true);
        prec := 8;
        val := ap[0].v % 0x1_0000_0000;
      } else if ch == 'd' || ch == 'i' {
        base := 10;
        fl := fl.(signed := true);
        val := SignedVal(ap[0].v, rank);
      } else {
        base := if ch == 'o' then 8 else if ch == 'u' then 10 else 16;
        fl := fl.(upper := fl.upper || ch == 'X');
        val := UnsignedVal(ap[0].v, rank);
      }
      assert IntConversion(Directive(fl0, width, prec0, rank, ch), ap[0].v) == IntText(val, fl, base, width, prec);
      q, o := PutInt(buffer, n, q, o, val, fl, base, width, prec, a, t);
      ap := ap[1..];
    } else if ch == 'c' {
      q, o := PutString(buffer, n, q, o, [(ap[0].v % 256) as char], fl0, width, prec0, a, t);
      ap := ap[1..];
    } else if ch == 's' {
      q, o := PutString(buffer, n, q, o, StringOf(ap[0]), fl0, width, prec0, a, t);
      ap := ap[1..];
    } else if ch == 'n' {
      stored := [Signed(o, Bits(rank))];
      ap := ap[1..];
      NoMore(t, ' ', 0);
    } else {
      q, o := Emit(buffer, n, q, o, ch, a, 0, t);
    }
  }

  /** Lines 371-376: the call of `format_int` with the room that is left. */
  method PutInt(buffer: array<char>, n: int, q0: int, o0: int, val: int, fl: Flags, base: nat, width: int, prec: int,
                ghost a: seq<char>, ghost t: string)
    returns (q: int, o: int)
    requires 0 <= val < INTMAX_SPAN && Base(base) && 0 <= n && Out(a, buffer[..], 0, n, t, q0, o0)
    requires Fits(buffer.Length, 0, n, |t| + |IntText(val, fl, base, width, prec)|)
    modifies buffer
    ensures Out(a, buffer[..], 0, n, t + IntText(val, fl, base, width, prec), q, o)
  {
    hide Shown, IntText;
    ghost var mid := buffer[..];
    var sz := FormatInt(buffer, q0, if o0 < n then n - o0 else 0, val, fl, base, width, prec);
    Compose(a, mid, buffer[..], 0, n, t, q0, IntText(val, fl, base, width, prec));
    q, o := q0 + sz, o0 + sz;
  }

  // ---------- the loop

  /** The machine has produced `t` and `counts`, and the rest of the format will complete the text. */
  ghost predicate Underway(whole: Outcome, t: string, counts: seq<int>, rest: Outcome) {
    whole == Behind(t, counts, rest)
  }

  lemma Produced(whole: Outcome, t: string, counts: seq<int>, u: string, c: seq<int>, rest: Outcome)
    requires Underway(whole, t, counts, Behind(u, c, rest))
    ensures Underway(whole, t + u, counts + c, rest)
    ensures whole.Done? ==> rest.Done? && |t| + |u| <= |whole.text|
  {
    BehindBehind(t, counts, u, c, rest);
  }

  /** One turn of the machine, except for the conversions and for plain characters. */
  method Turn(ch: char, s0: State, fl0: Flags, width0: int, prec0: int, rank0: int, ap0: seq<Arg>, ghost f: string, ghost at: int)
    returns (s: State, fl: Flags, width: int, prec: int, rank: int, ap: seq<Arg>, again: bool)
    requires f != "" && ch == f[0] && (s0.InFlags? || s0.InWidth? || s0.InPrec? || (s0.InModifiers? && IsRank(ch)))
    requires s0.InWidth? ==> prec0 == -1
    requires (s0.InWidth? || s0.InFlags? || s0.InPrec?) ==> rank0 == 0
    requires s0.InFlags? ==> width0 == 0 && prec0 == -1
    requires Pending(s0, f, fl0, width0, prec0, rank0, ap0, at).Done?
    ensures Pending(s, if again then f else f[1..], fl, width, prec, rank, ap, at) == Pending(s0, f, fl0, width0, prec0, rank0, ap0, at)
    ensures !s.Normal? && (again ==> Order(s) < Order(s0))
    ensures s.InWidth? ==> prec == -1
    ensures (s.InWidth? || s.InFlags? || s.InPrec?) ==> rank == 0
    ensures s.InFlags? ==> width == 0 && prec == -1
  {
    s, fl, width, prec, rank, ap, again := s0, fl0, width0, prec0, rank0, ap0, false;
    match s0
    case InFlags =>
      if IsFlag(ch) {
        fl := WithFlag(fl, ch);
      } else {
        s, again := InWidth, true;
      }
    case InWidth =>
      if IsDigit(ch) {
        width := width * 10 + (ch as int - '0' as int);
      } else if ch == '*' {
        width, ap := Signed(ap[0].v, 32), ap[1..];
        if width < 0 {
          width := -width;
          fl := fl.(minus := true);
        }
      } else if ch == '.' {
        prec := 0;
        s := InPrec;
      } else {
        s, again := InModifiers, true;
      }
    case InPrec =>
      if IsDigit(ch) {
        prec := prec * 10 + (ch as int - '0' as int);
      } else if ch == '*' {
        prec, ap := Signed(ap[0].v, 32), ap[1..];
        if prec < 0 {
          prec := -1;
        }
      } else {
        s, again := InModifiers, true;
      }
    case InModifiers =>
      rank := NextRank(rank, ch);
  }

  /** The characters that are kept when there is room for `n` with the end mark. */
  function Kept(text: string, n: int): string
    requires n > 0
  {
    if |text| < n then text else text[..n - 1]
  }

  /** Lines 447-451. */
  method Terminate(buffer: array<char>, n: int, q: int, o: int, ghost a: seq<char>, ghost t: string)
    requires 0 <= n && Out(a, buffer[..], 0, n, t, q, o) && (n <= buffer.Length || |t| < buffer.Length)
    modifies buffer
    ensures n == 0 ==> buffer[..] == a
    ensures n > 0 ==> Shown(a, buffer[..], 0, n, Kept(t, n) + ['\0'])
  {
    if o < n {
      buffer[q] := '\0';
    } else if n > 0 {
      buffer[n - 1] := '\0';
    }
  }

  lemma RestDone(whole: Outcome, t: string, counts: seq<int>, rest: Outcome)
    requires Underway(whole, t, counts, rest) && whole.Done?
    ensures rest.Done?
  {
  }

  lemma Begin(format: string, args: seq<Arg>)
    ensures Underway(Rendered(format, args, 0), "", [], Pending(Normal, format[0..], NO_FLAGS, 0, -1, 0, args, 0))
  {
    hide Rendered;
    var whole := Rendered(format, args, 0);
    assert format[0..] == format;
    if whole.Done? {
      assert "" + whole.text == whole.text && [] + whole.counts == whole.counts;
    }
  }

  lemma DirectiveStarts(f: string, fl: Flags, width: int, prec: int, rank: int, ap: seq<Arg>, at: int)
    requires f != "" && f[0] == '%'
    ensures Pending(Normal, f, fl, width, prec, rank, ap, at) == Pending(InFlags, f[1..], NO_FLAGS, 0, -1, 0, ap, at)
  {
  }

  lemma PlainChar(f: string, fl: Flags, width: int, prec: int, rank: int, ap: seq<Arg>, at: int)
    requires f != "" && f[0] != '%'
    ensures Pending(Normal, f, fl, width, prec, rank, ap, at)
         == Behind([f[0]], [], Pending(Normal, f[1..], fl, width, prec, rank, ap, at + 1))
  {
  }

  lemma DirectiveEnds(f: string, fl: Flags, width: int, prec: int, rank: int, ap: seq<Arg>, at: int)
    requires f != "" && !IsRank(f[0]) && Pending(InModifiers, f, fl, width, prec, rank, ap, at).Done?
    ensures var c := Convert(Directive(fl, width, prec, Canonical(rank), f[0]), ap, at);
            && c.Made?
            && Pending(InModifiers, f, fl, width, prec, rank, ap, at)
               == Behind(c.text, c.counts, Pending(Normal, f[1..], fl, width, prec, rank, c.args, at + |c.text|))
  {
    hide Rendered, Convert;
    var d := Directive(fl, width, prec, Canonical(rank), f[0]);
    var c := Convert(d, ap, at);
    assert ReadRank(f, rank, prec, width, fl, ap) == Read(d, f[1..], ap);
    assert Resumed(Read(d, f[1..], ap), at) == Converted(c, f[1..], at);
    assert c.Made?;
    assert Converted(c, f[1..], at) == Behind(c.text, c.counts, Rendered(f[1..], c.args, at + |c.text|));
  }

  lemma End(whole: Outcome, t: string, counts: seq<int>, s: State, fl: Flags, width: int, prec: int, rank: int, ap: seq<Arg>, at: int)
    requires Underway(whole, t, counts, Pending(s, "", fl, width, prec, rank, ap, at))
    ensures whole == Done(t, counts)
  {
    assert t + "" == t && counts + [] == counts;
  }

  /** `vsnprintf`, vsnprintf.c:168-454.  Returns the length that the whole text has. */
  method Vsnprintf(buffer: array<char>, n: int, format: string, args: seq<Arg>) returns (r: int, counts: seq<int>)
    requires 0 <= n <= SIZE_MAX
    requires var whole := Rendered(format, args, 0);
             whole.Done? && |whole.text| <= INT_MAX && (n <= buffer.Length || |whole.text| < buffer.Length)
    modifies buffer
    ensures r == |Rendered(format, args, 0).text| && counts == Rendered(format, args, 0).counts
    ensures n == 0 ==> buffer[..] == old(buffer[..])
    ensures n > 0 ==> Shown(old(buffer[..]), buffer[..], 0, n, Kept(Rendered(format, args, 0).text, n) + ['\0'])
  {
    hide Rendered, Pending, Convert, Shown, Behind, Resumed, Canonical;
    ghost var whole, a := Rendered(format, args, 0), buffer[..];
    ghost var t: string := "";
    var p, q, o, ap := 0, 0, 0, args;
    var state, flags, width, prec, rank := Normal, NO_FLAGS, 0, -1, 0;
    counts := [];
    NothingShown(a, 0, n);
    Begin(format, args);
    while p < |format|
      invariant 0 <= p <= |format| && Out(a, buffer[..], 0, n, t, q, o)
      invariant Underway(whole, t, counts, Pending(state, format[p..], flags, width, prec, rank, ap, o))
      invariant state.InWidth? ==> prec == -1
      invariant (state.InWidth? || state.InFlags? || state.InPrec?) ==> rank == 0
      invariant state.InFlags? ==> width == 0 && prec == -1
      decreases |format| - p, Order(state)
    {
      var ch := format[p];
      ghost var f := format[p..];
      assert f[1..] == format[p + 1..];
      p := p + 1;
      RestDone(whole, t, counts, Pending(state, f, flags, width, prec, rank, ap, o));
      if state == Normal {
        if ch == '%' {
          DirectiveStarts(f, flags, width, prec, rank, ap, o);
          state, flags, rank, width, prec := InFlags, NO_FLAGS, 0, 0, -1;
        } else {
          PlainChar(f, flags, width, prec, rank, ap, o);
          Produced(whole, t, counts, [ch], [], Pending(Normal, format[p..], flags, width, prec, rank, ap, o + 1));
          assert counts + [] == counts;
          q, o := Emit(buffer, n, q, o, ch, a, 0, t);
          t := t + [ch];
        }
      } else if state == InModifiers && !IsRank(ch) {
        ghost var c := Convert(Directive(flags, width, prec, Canonical(rank), ch), ap, o);
        DirectiveEnds(f, flags, width, prec, rank, ap, o);
        Produced(whole, t, counts, c.text, c.counts, Pending(Normal, format[p..], flags, width, prec, rank, c.args, o + |c.text|));
        var stored;
        q, o, ap, stored := Output(buffer, n, q, o, ch, flags, width, prec, rank, ap, a, t);
        t, counts := t + c.text, counts + stored;
        state := Normal;
      } else {
        var again;
        state, flags, width, prec, rank, ap, again := Turn(ch, state, flags, width, prec, rank, ap, f, o);
        if again {
          p := p - 1;
        }
      }
    }
    assert format[p..] == "";
    End(whole, t, counts, state, flags, width, prec, rank, ap, o);
    Terminate(buffer, n, q, o, a, t);
    r := o;
  }
}
