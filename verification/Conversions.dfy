/** The integer, character and string conversions of lib/printf.c: the text each one produces, and
    how it compares with section 7.19.6.1 of ISO C99. */
module Conversions {
  import opened Machine
  import opened Digits

  datatype Flags = Flags(
    zeropad: bool, left: bool, plus: bool, space: bool, hash: bool, uppercase: bool, precision: bool)

  // --- _ntoa_format: the buffer is written backwards, so its growing end is the front of the text ---

  /** Zeros in front until the text is n long or the buffer is full. */
  function FillZeros(t: string, n: nat): string {
    var m := if n < BUFFER_SIZE then n else BUFFER_SIZE;
    if |t| < m then Repeat('0', m - |t|) + t else t
  }

  /** The width left for digits when zeros fill it and a sign takes one place. */
  function DigitWidth(negative: bool, width: nat, flags: Flags): nat {
    if !flags.left && width > 0 && flags.zeropad && (negative || flags.plus || flags.space) then width - 1 else width
  }

  function Push(c: char, t: string): string {
    if |t| < BUFFER_SIZE then [c] + t else t
  }

  /** A digit, or for base 16 two, gives way when the text already is as long as the precision or width. */
  function MakeRoom(t: string, base: nat, prec: nat, width: nat, flags: Flags): string {
    if !flags.precision && t != "" && (|t| == prec || |t| == width) then
      if |t| > 1 && base == 16 then t[2..] else t[1..]
    else t
  }

  function HashMark(t: string, base: nat, prec: nat, width: nat, flags: Flags): string {
    var t := MakeRoom(t, base, prec, width, flags);
    var t := if base == 16 then Push(if flags.uppercase then 'X' else 'x', t)
             else if base == 2 then Push('b', t)
             else t;
    Push('0', t)
  }

  function Signed(t: string, negative: bool, flags: Flags): string {
    if negative then Push('-', t)
    else if flags.plus then Push('+', t)
    else if flags.space then Push(' ', t)
    else t
  }

  /** _out_rev: spaces on the side the flags ask for. */
  function Padded(t: string, width: nat, flags: Flags): string {
    var spaces := Repeat(' ', if |t| < width then width - |t| else 0);
    if flags.left then t + spaces else if flags.zeropad then t else spaces + t
  }

  function Filled(digits: string, negative: bool, prec: nat, width: nat, flags: Flags): string {
    if flags.left then digits
    else
      var t := FillZeros(digits, prec);
      if flags.zeropad then FillZeros(t, DigitWidth(negative, width, flags)) else t
  }

  function NtoaFormat(digits: string, negative: bool, base: nat, prec: nat, width: nat, flags: Flags): string {
    var t := Filled(digits, negative, prec, width, flags);
    var w := DigitWidth(negative, width, flags);
    var t := if flags.hash then HashMark(t, base, prec, w, flags) else t;
    Padded(Signed(t, negative, flags), w, flags)
  }

  /** No hash for 0 values; no digits for 0 with a precision. */
  function NtoaFlags(v: u64, flags: Flags): Flags {
    if v == 0 then flags.(hash := false) else flags
  }

  function NtoaDigits(v: u64, base: nat, flags: Flags): string
    requires Numeric(base)
  {
    if flags.precision && v == 0 then "" else LowDigits(v, base, flags.uppercase, BUFFER_SIZE)
  }

  /** _ntoa_long and _ntoa_long_long, which are the same on a machine with 64-bit long. */
  function Ntoa(v: u64, negative: bool, base: nat, prec: nat, width: nat, flags: Flags): string
    requires Numeric(base)
  {
    NtoaFormat(NtoaDigits(v, base, flags), negative, base, prec, width, NtoaFlags(v, flags))
  }

  // --- ISO C99, section 7.19.6.1 ---

  function AtLeast(n: nat, m: nat): nat {
    if n < m then m - n else 0
  }

  /** The precision is the least number of digits, 1 if absent; zero with precision 0 has no digits. */
  function C99Digits(v: nat, base: nat, upper: bool, minDigits: nat): string
    requires Numeric(base)
  {
    var digits := if v == 0 then "" else Numeral(v, base, upper);
    Repeat('0', AtLeast(|digits|, minDigits)) + digits
  }

  function C99Sign(negative: bool, flags: Flags): string {
    if negative then "-" else if flags.plus then "+" else if flags.space then " " else ""
  }

  /** The # flag: a leading zero for octal unless there is one, 0x for nonzero hexadecimal. */
  function C99Octal(digits: string, base: nat, flags: Flags): string {
    if flags.hash && base == 8 && (digits == "" || digits[0] != '0') then "0" + digits else digits
  }

  function C99Prefix(v: nat, base: nat, flags: Flags): string {
    if flags.hash && base == 16 && v != 0 then (if flags.uppercase then "0X" else "0x") else ""
  }

  /** The field: padded with spaces on the left, or on the right (-), or with zeros after sign and
      prefix (0, unless - or a precision is given). */
  function C99Field(head: string, digits: string, width: nat, flags: Flags): string {
    var fill := AtLeast(|head| + |digits|, width);
    if flags.left then head + digits + Repeat(' ', fill)
    else if flags.zeropad && !flags.precision then head + (Repeat('0', fill) + digits)
    else Repeat(' ', fill) + (head + digits)
  }

  function C99Integer(v: nat, negative: bool, base: nat, prec: nat, width: nat, flags: Flags): string
    requires Numeric(base)
  {
    var digits := C99Octal(C99Digits(v, base, flags.uppercase, if flags.precision then prec else 1), base, flags);
    C99Field(C99Sign(negative, flags) + C99Prefix(v, base, flags), digits, width, flags)
  }

  /** What _vsnprintf passes on for d, i, u, x, X and o: no zero padding next to a precision, signs
      only in base 10, no # there, and precision 0 when none was given. */
  predicate AsPassed(negative: bool, base: nat, prec: nat, flags: Flags) {
    && (base == 8 || base == 10 || base == 16)
    && (flags.precision ==> !flags.zeropad) && (!flags.precision ==> prec == 0)
    && (base == 10 ==> !flags.hash)
    && (base != 10 ==> !negative && !flags.plus && !flags.space)
  }

  /** Where the code agrees with the standard when # plays no part; d is the number of digits. */
  predicate PlainAgrees(d: nat, sign: string, prec: nat, width: nat, flags: Flags) {
    if flags.left then prec <= d
    else if flags.precision then prec <= 31 || (prec == 32 && (sign == "" || (sign == " " && width >= 33)))
    else flags.zeropad ==> width <= 32
  }

  predicate OctalAgrees(d: nat, prec: nat, width: nat, flags: Flags) {
    if flags.precision then (if flags.left then prec <= d + 1 else prec <= d || prec == 32)
    else d != width && (!flags.left && flags.zeropad ==> width <= 32)
  }

  predicate HexAgrees(d: nat, prec: nat, width: nat, flags: Flags) {
    if flags.precision then (if flags.left then prec <= d else prec <= 30)
    else if !flags.left && flags.zeropad then width < d || d + 2 <= width <= 32
    else d != width
  }

  /** The leading digit of a nonzero number is no zero. */
  predicate Leads(digits: string) {
    digits == "" || digits[0] != '0'
  }

  lemma PlainLeftText(digits: string, negative: bool, base: nat, prec: nat, width: nat, flags: Flags)
    requires |digits| <= 22 && flags.left && !flags.hash
    ensures var sign := C99Sign(negative, flags);
      NtoaFormat(digits, negative, base, prec, width, flags)
        == sign + digits + Repeat(' ', AtLeast(|sign| + |digits|, width))
  {
  }

  /** Zeros owed to the precision show up behind the sign. */
  lemma ZerosOwed(digits: string, sign: string, prec: nat, width: nat)
    requires prec > |digits| && Leads(digits)
    ensures sign + digits + Repeat(' ', AtLeast(|sign| + |digits|, width))
         != sign + (Repeat('0', AtLeast(|digits|, prec)) + digits) + Repeat(' ', AtLeast(|sign| + prec, width))
  {
    var code := sign + digits + Repeat(' ', AtLeast(|sign| + |digits|, width));
    var spec := sign + (Repeat('0', AtLeast(|digits|, prec)) + digits) + Repeat(' ', AtLeast(|sign| + prec, width));
    assert spec[|sign|] == '0';
    if |code| > |sign| {
      assert code[|sign|] == if digits == "" then ' ' else digits[0];
    }
  }

  lemma PlainLeft(digits: string, negative: bool, base: nat, prec: nat, width: nat, flags: Flags)
    requires |digits| <= 22 && flags.left && !flags.hash && (prec > |digits| ==> Leads(digits))
    ensures NtoaFormat(digits, negative, base, prec, width, flags)
         == C99Field(C99Sign(negative, flags), Repeat('0', AtLeast(|digits|, prec)) + digits, width, flags)
      <==> prec <= |digits|
  {
    PlainLeftText(digits, negative, base, prec, width, flags);
    if prec > |digits| {
      ZerosOwed(digits, C99Sign(negative, flags), prec, width);
      assert |Repeat('0', AtLeast(|digits|, prec)) + digits| == prec;
    } else {
      assert Repeat('0', AtLeast(|digits|, prec)) + digits == digits;
    }
  }

  /** A precision that fills the buffer leaves no room for a sign, and a larger one is cut to 32. */
  lemma FullBuffer(digits: string, sign: string, prec: nat, width: nat)
    requires |digits| <= 22 && prec >= 32 && Leads(digits)
    requires sign == "" || sign == " " || sign == "+" || sign == "-"
    ensures Repeat(' ', AtLeast(32, width)) + (Repeat('0', 32 - |digits|) + digits)
         == Repeat(' ', AtLeast(|sign| + prec, width)) + (sign + (Repeat('0', prec - |digits|) + digits))
      <==> prec == 32 && (sign == "" || (sign == " " && width >= 33))
  {
    var code := Repeat(' ', AtLeast(32, width)) + (Repeat('0', 32 - |digits|) + digits);
    var spec := Repeat(' ', AtLeast(|sign| + prec, width)) + (sign + (Repeat('0', prec - |digits|) + digits));
    if width >= |sign| + prec && width >= 33 {
      assert code[width - 33] == ' ';
      assert spec[width - 33] == if prec > 32 then '0' else if sign == "" then ' ' else sign[0];
    } else {
      assert |spec| == |sign| + prec;
      assert |code| == if width > 32 then width else 32;
    }
  }

  /** A right-justified number with a precision: digits filled up to it, the sign, the spaces. */
  lemma FilledToPrecision(digits: string, negative: bool, base: nat, prec: nat, width: nat, flags: Flags)
    requires !flags.left && !flags.zeropad && !flags.hash
    ensures var t := Signed(FillZeros(digits, prec), negative, flags);
      NtoaFormat(digits, negative, base, prec, width, flags) == Repeat(' ', AtLeast(|t|, width)) + t
  {
  }

  lemma PrecisionFits(digits: string, negative: bool, prec: nat, flags: Flags)
    requires |digits| <= 22 && prec <= 31
    ensures Signed(FillZeros(digits, prec), negative, flags)
         == C99Sign(negative, flags) + (Repeat('0', AtLeast(|digits|, prec)) + digits)
  {
    var t := FillZeros(digits, prec);
    assert t == Repeat('0', AtLeast(|digits|, prec)) + digits;
  }

  lemma PrecisionCut(digits: string, negative: bool, prec: nat, flags: Flags)
    requires |digits| <= 22 && prec >= 32
    ensures Signed(FillZeros(digits, prec), negative, flags) == Repeat('0', 32 - |digits|) + digits
  {
    assert FillZeros(digits, prec) == Repeat('0', 32 - |digits|) + digits;
  }

  lemma ShortPrecision(digits: string, negative: bool, base: nat, prec: nat, width: nat, flags: Flags)
    requires |digits| <= 22 && !flags.left && !flags.zeropad && flags.precision && !flags.hash && prec <= 31
    ensures NtoaFormat(digits, negative, base, prec, width, flags)
         == C99Field(C99Sign(negative, flags), Repeat('0', AtLeast(|digits|, prec)) + digits, width, flags)
  {
    FilledToPrecision(digits, negative, base, prec, width, flags);
    PrecisionFits(digits, negative, prec, flags);
  }

  lemma LongPrecision(digits: string, negative: bool, base: nat, prec: nat, width: nat, flags: Flags)
    requires |digits| <= 22 && !flags.left && !flags.zeropad && flags.precision && !flags.hash && prec >= 32
    ensures NtoaFormat(digits, negative, base, prec, width, flags)
         == Repeat(' ', AtLeast(32, width)) + (Repeat('0', 32 - |digits|) + digits)
  {
    FilledToPrecision(digits, negative, base, prec, width, flags);
    PrecisionCut(digits, negative, prec, flags);
  }

  lemma LongField(digits: string, sign: string, prec: nat, width: nat, flags: Flags)
    requires |digits| <= 22 && !flags.left && flags.precision && prec >= 32
    ensures C99Field(sign, Repeat('0', AtLeast(|digits|, prec)) + digits, width, flags)
         == Repeat(' ', AtLeast(|sign| + prec, width)) + (sign + (Repeat('0', prec - |digits|) + digits))
  {
  }

  lemma PlainPrecision(digits: string, negative: bool, base: nat, prec: nat, width: nat, flags: Flags)
    requires |digits| <= 22 && !flags.left && !flags.zeropad && flags.precision && !flags.hash && Leads(digits)
    ensures NtoaFormat(digits, negative, base, prec, width, flags)
         == C99Field(C99Sign(negative, flags), Repeat('0', AtLeast(|digits|, prec)) + digits, width, flags)
      <==> PlainAgrees(|digits|, C99Sign(negative, flags), prec, width, flags)
  {
    if prec <= 31 {
      ShortPrecision(digits, negative, base, prec, width, flags);
    } else {
      LongPrecision(digits, negative, base, prec, width, flags);
      LongField(digits, C99Sign(negative, flags), prec, width, flags);
      FullBuffer(digits, C99Sign(negative, flags), prec, width);
    }
  }

  lemma ZerosUpToWidth(digits: string, negative: bool, base: nat, width: nat, flags: Flags)
    requires |digits| <= 22 && !flags.left && flags.zeropad && !flags.hash
    ensures NtoaFormat(digits, negative, base, 0, width, flags)
         == Signed(FillZeros(digits, DigitWidth(negative, width, flags)), negative, flags)
  {
    assert FillZeros(digits, 0) == digits;
  }

  /** Zeros up to the width less the sign, then the sign: the field of the standard. */
  lemma ZerosThenSign(digits: string, negative: bool, width: nat, flags: Flags)
    requires |digits| <= 22 && !flags.left && flags.zeropad && !flags.precision && width <= 32
    ensures Signed(FillZeros(digits, DigitWidth(negative, width, flags)), negative, flags)
         == C99Field(C99Sign(negative, flags), digits, width, flags)
  {
    var sign := C99Sign(negative, flags);
    var filled := FillZeros(digits, DigitWidth(negative, width, flags));
    assert filled == Repeat('0', AtLeast(|sign| + |digits|, width)) + digits;
    assert Signed(filled, negative, flags) == sign + filled;
  }

  lemma ZerosTooWide(digits: string, negative: bool, width: nat, flags: Flags)
    requires |digits| <= 22 && !flags.left && flags.zeropad && !flags.precision && width > 32
    ensures |Signed(FillZeros(digits, DigitWidth(negative, width, flags)), negative, flags)| == 32
    ensures |C99Field(C99Sign(negative, flags), digits, width, flags)| == width
  {
    assert |FillZeros(digits, DigitWidth(negative, width, flags))| == 32;
  }

  /** The shape of a field that zeros fill up to the width. */
  lemma PlainZeros(digits: string, negative: bool, base: nat, width: nat, flags: Flags)
    requires |digits| <= 22 && !flags.left && flags.zeropad && !flags.precision && !flags.hash
    ensures NtoaFormat(digits, negative, base, 0, width, flags)
         == C99Field(C99Sign(negative, flags), digits, width, flags)
      <==> width <= 32
  {
    ZerosUpToWidth(digits, negative, base, width, flags);
    if width <= 32 {
      ZerosThenSign(digits, negative, width, flags);
    } else {
      ZerosTooWide(digits, negative, width, flags);
    }
  }

  lemma PlainSpaces(digits: string, negative: bool, base: nat, width: nat, flags: Flags)
    requires |digits| <= 22 && !flags.left && !flags.zeropad && !flags.precision && !flags.hash
    ensures NtoaFormat(digits, negative, base, 0, width, flags)
         == C99Field(C99Sign(negative, flags), digits, width, flags)
  {
    assert FillZeros(digits, 0) == digits;
  }

  // --- The # flag, for nonzero values ---

  predicate Unsigned(negative: bool, flags: Flags) {
    !negative && !flags.plus && !flags.space
  }

  /** Without a sign the text is filled, marked and padded, all to the same width. */
  lemma UnsignedText(digits: string, base: nat, prec: nat, width: nat, flags: Flags)
    requires flags.hash && Unsigned(false, flags)
    ensures NtoaFormat(digits, false, base, prec, width, flags)
         == Padded(HashMark(Filled(digits, false, prec, width, flags), base, prec, width, flags), width, flags)
  {
  }

  lemma NothingToFill(digits: string, flags: Flags)
    ensures FillZeros(digits, 0) == digits
  {
  }

  /** With no zeros to fill the digits themselves are marked. */
  lemma UnfilledText(digits: string, base: nat, width: nat, flags: Flags)
    requires flags.hash && Unsigned(false, flags) && (flags.left || !flags.zeropad)
    ensures NtoaFormat(digits, false, base, 0, width, flags)
         == Padded(HashMark(digits, base, 0, width, flags), width, flags)
  {
    UnsignedText(digits, base, 0, width, flags);
    NothingToFill(digits, flags);
  }

  lemma OctalWidth(digits: string, width: nat, flags: Flags)
    requires 1 <= |digits| <= 22 && Leads(digits) && flags.hash && !flags.precision && Unsigned(false, flags)
    requires flags.left || !flags.zeropad
    ensures NtoaFormat(digits, false, 8, 0, width, flags) == C99Field("", "0" + digits, width, flags)
      <==> |digits| != width
  {
    UnfilledText(digits, 8, width, flags);
    var marked := HashMark(digits, 8, 0, width, flags);
    if |digits| == width {
      assert |marked| == width;
    } else {
      assert marked == "0" + digits;
      NoHead("0" + digits);
    }
  }

  lemma OctalZeros(digits: string, width: nat, flags: Flags)
    requires 1 <= |digits| <= 22 && Leads(digits) && flags.hash && !flags.precision && Unsigned(false, flags)
    requires !flags.left && flags.zeropad
    ensures NtoaFormat(digits, false, 8, 0, width, flags) == C99Field("", "0" + digits, width, flags)
      <==> |digits| != width && width <= 32
  {
    UnsignedText(digits, 8, 0, width, flags);
    NothingToFill(digits, flags);
    var t := FillZeros(digits, width);
    var code := HashMark(t, 8, 0, width, flags);
    if |digits| == width {
      assert |code| == width;
    } else if |digits| < width <= 32 {
      assert t == "0" + (Repeat('0', width - |digits| - 1) + digits);
      assert code == t;
      assert t == Repeat('0', width - |digits| - 1) + ("0" + digits);
    } else if width > 32 {
      assert |t| == 32 && code == t;
    }
  }

  function OctalLength(prec: nat): nat {
    if prec < 32 then prec + 1 else 32
  }

  lemma OctalMarked(digits: string, prec: nat, width: nat, flags: Flags)
    requires 1 <= |digits| <= 22 && flags.hash && flags.precision && prec > |digits|
    ensures HashMark(FillZeros(digits, prec), 8, prec, width, flags) == Repeat('0', OctalLength(prec) - |digits|) + digits
  {
    assert FillZeros(digits, prec) == Repeat('0', (if prec < 32 then prec else 32) - |digits|) + digits;
  }

  lemma OctalPrecisionText(digits: string, prec: nat, width: nat, flags: Flags)
    requires 1 <= |digits| <= 22 && flags.hash && flags.precision && Unsigned(false, flags) && prec > |digits|
    requires !flags.left && !flags.zeropad
    ensures NtoaFormat(digits, false, 8, prec, width, flags)
         == Repeat(' ', AtLeast(OctalLength(prec), width)) + (Repeat('0', OctalLength(prec) - |digits|) + digits)
  {
    UnsignedText(digits, 8, prec, width, flags);
    OctalMarked(digits, prec, width, flags);
  }

  lemma OctalShortPrecision(digits: string, prec: nat, width: nat, flags: Flags)
    requires 1 <= |digits| <= 22 && Leads(digits) && flags.hash && flags.precision && Unsigned(false, flags)
    requires !flags.left && !flags.zeropad && prec <= |digits|
    ensures NtoaFormat(digits, false, 8, prec, width, flags) == C99Field("", C99Octal(digits, 8, flags), width, flags)
  {
    UnsignedText(digits, 8, prec, width, flags);
    var marked := HashMark(digits, 8, prec, width, flags);
    assert marked == "0" + digits == C99Octal(digits, 8, flags);
    NoHead(marked);
  }

  lemma OctalLongPrecision(digits: string, prec: nat, width: nat, flags: Flags)
    requires 1 <= |digits| <= 22 && flags.hash && flags.precision && !flags.left && prec > |digits|
    ensures C99Field("", C99Octal(Repeat('0', AtLeast(|digits|, prec)) + digits, 8, flags), width, flags)
         == Repeat(' ', AtLeast(prec, width)) + (Repeat('0', prec - |digits|) + digits)
  {
    var body := Repeat('0', AtLeast(|digits|, prec)) + digits;
    assert C99Octal(body, 8, flags) == body;
    assert "" + body == body;
  }

  lemma OctalPrecision(digits: string, prec: nat, width: nat, flags: Flags)
    requires 1 <= |digits| <= 22 && Leads(digits) && flags.hash && flags.precision && Unsigned(false, flags)
    requires !flags.left && !flags.zeropad
    ensures NtoaFormat(digits, false, 8, prec, width, flags)
         == C99Field("", C99Octal(Repeat('0', AtLeast(|digits|, prec)) + digits, 8, flags), width, flags)
      <==> prec <= |digits| || prec == 32
  {
    if prec <= |digits| {
      assert Repeat('0', AtLeast(|digits|, prec)) + digits == digits;
      OctalShortPrecision(digits, prec, width, flags);
    } else {
      OctalPrecisionText(digits, prec, width, flags);
      OctalLongPrecision(digits, prec, width, flags);
      DifferentFill(digits, OctalLength(prec), prec, width);
    }
  }

  /** Fields with the same last digits but a different number of zeros in front are different. */
  lemma DifferentFill(digits: string, m: nat, n: nat, width: nat)
    requires |digits| <= m && |digits| <= n
    ensures Repeat(' ', AtLeast(m, width)) + (Repeat('0', m - |digits|) + digits)
         == Repeat(' ', AtLeast(n, width)) + (Repeat('0', n - |digits|) + digits)
      <==> m == n
  {
    var a := Repeat(' ', AtLeast(m, width)) + (Repeat('0', m - |digits|) + digits);
    var b := Repeat(' ', AtLeast(n, width)) + (Repeat('0', n - |digits|) + digits);
    if m < n && n <= width {
      assert a[width - n] == ' ' && b[width - n] == '0';
    } else if n < m && m <= width {
      assert b[width - m] == ' ' && a[width - m] == '0';
    }
  }

  /** Left-justified digits get their mark and, behind it, the spaces; no zeros from the precision. */
  lemma LeftText(digits: string, base: nat, prec: nat, width: nat, flags: Flags)
    requires |digits| <= 22 && flags.hash && flags.precision && Unsigned(false, flags) && flags.left
    requires base == 8 || base == 16
    ensures var head := if base == 8 then "0" else C99Prefix(1, 16, flags);
      NtoaFormat(digits, false, base, prec, width, flags)
        == (head + digits) + Repeat(' ', AtLeast(|head| + |digits|, width))
  {
    UnsignedText(digits, base, prec, width, flags);
  }

  lemma OctalLeftPrecision(digits: string, prec: nat, width: nat, flags: Flags)
    requires 1 <= |digits| <= 22 && Leads(digits) && flags.hash && flags.precision && Unsigned(false, flags)
    requires flags.left
    ensures NtoaFormat(digits, false, 8, prec, width, flags)
         == C99Field("", C99Octal(Repeat('0', AtLeast(|digits|, prec)) + digits, 8, flags), width, flags)
      <==> prec <= |digits| + 1
  {
    LeftText(digits, 8, prec, width, flags);
    OctalLeftDiffers(digits, prec, width, flags);
  }

  lemma OctalLeftDiffers(digits: string, prec: nat, width: nat, flags: Flags)
    requires 1 <= |digits| && Leads(digits) && flags.hash && flags.left
    ensures ("0" + digits) + Repeat(' ', AtLeast(1 + |digits|, width))
         == C99Field("", C99Octal(Repeat('0', AtLeast(|digits|, prec)) + digits, 8, flags), width, flags)
      <==> prec <= |digits| + 1
  {
    var body := Repeat('0', AtLeast(|digits|, prec)) + digits;
    var octal := C99Octal(body, 8, flags);
    NoHead(octal);
    if prec <= |digits| {
      assert body == digits;
    } else if prec == |digits| + 1 {
      assert octal == body == "0" + digits;
    } else {
      assert octal == body && body[1] == '0';
      assert (("0" + digits) + Repeat(' ', AtLeast(1 + |digits|, width)))[1] == digits[0];
    }
  }

  function HexMarked(t: string, flags: Flags): string {
    if |t| <= 30 then C99Prefix(1, 16, flags) + t
    else if |t| == 31 then (if flags.uppercase then "X" else "x") + t
    else t
  }

  lemma HexMark(t: string, prec: nat, width: nat, flags: Flags)
    requires flags.hash
    ensures HashMark(t, 16, prec, width, flags) == HexMarked(MakeRoom(t, 16, prec, width, flags), flags)
  {
  }

  lemma HexWidth(digits: string, width: nat, flags: Flags)
    requires 1 <= |digits| <= 16 && flags.hash && !flags.precision && Unsigned(false, flags)
    requires flags.left || !flags.zeropad
    ensures NtoaFormat(digits, false, 16, 0, width, flags) == C99Field(C99Prefix(1, 16, flags), digits, width, flags)
      <==> |digits| != width
  {
    UnfilledText(digits, 16, width, flags);
    HexMark(digits, 0, width, flags);
    var marked := HexMarked(MakeRoom(digits, 16, 0, width, flags), flags);
    if |digits| == width {
      assert |marked| <= |digits| + 1;
    } else {
      assert marked == C99Prefix(1, 16, flags) + digits;
    }
  }

  lemma HexZerosMarked(digits: string, width: nat, flags: Flags)
    requires 1 <= |digits| <= 16 && flags.hash && !flags.precision && |digits| + 2 <= width <= 32
    ensures HashMark(FillZeros(digits, width), 16, 0, width, flags)
         == C99Prefix(1, 16, flags) + (Repeat('0', width - |digits| - 2) + digits)
  {
    var t := FillZeros(digits, width);
    HexMark(t, 0, width, flags);
    assert t == Repeat('0', width - |digits|) + digits;
    assert MakeRoom(t, 16, 0, width, flags) == Repeat('0', width - |digits| - 2) + digits;
  }

  lemma HexZerosCut(digits: string, width: nat, flags: Flags)
    requires 1 <= |digits| <= 16 && flags.hash && !flags.precision && width >= |digits|
    requires width <= |digits| + 1 || width > 32
    ensures |HashMark(FillZeros(digits, width), 16, 0, width, flags)| < |digits| + 2
         || |HashMark(FillZeros(digits, width), 16, 0, width, flags)| == 32 < width
  {
    HexMark(FillZeros(digits, width), 0, width, flags);
  }

  lemma HexZeros(digits: string, width: nat, flags: Flags)
    requires 1 <= |digits| <= 16 && flags.hash && !flags.precision && Unsigned(false, flags)
    requires !flags.left && flags.zeropad
    ensures NtoaFormat(digits, false, 16, 0, width, flags) == C99Field(C99Prefix(1, 16, flags), digits, width, flags)
      <==> width < |digits| || |digits| + 2 <= width <= 32
  {
    UnsignedText(digits, 16, 0, width, flags);
    NothingToFill(digits, flags);
    if width < |digits| {
      HexMark(digits, 0, width, flags);
      assert Repeat('0', 0) + digits == digits;
    } else if |digits| + 2 <= width <= 32 {
      HexZerosMarked(digits, width, flags);
    } else {
      HexZerosCut(digits, width, flags);
    }
  }

  /** A hexadecimal precision above 30 leaves no room for the whole prefix. */
  lemma HexPrecisionText(digits: string, prec: nat, width: nat, flags: Flags)
    requires 1 <= |digits| <= 16 && flags.hash && flags.precision && Unsigned(false, flags)
    requires !flags.left && !flags.zeropad
    ensures var t := HexMarked(Repeat('0', AtLeast(|digits|, if prec < 32 then prec else 32)) + digits, flags);
      NtoaFormat(digits, false, 16, prec, width, flags) == Repeat(' ', AtLeast(|t|, width)) + t
  {
    UnsignedText(digits, 16, prec, width, flags);
    HexMark(FillZeros(digits, prec), prec, width, flags);
    assert FillZeros(digits, prec) == Repeat('0', AtLeast(|digits|, if prec < 32 then prec else 32)) + digits;
  }

  lemma HexRoom(digits: string, prec: nat, flags: Flags)
    requires |digits| <= 16 && flags.hash && prec <= 30
    ensures HexMarked(Repeat('0', AtLeast(|digits|, prec)) + digits, flags)
         == C99Prefix(1, 16, flags) + (Repeat('0', AtLeast(|digits|, prec)) + digits)
  {
  }

  lemma HexFits(digits: string, prec: nat, width: nat, flags: Flags)
    requires 1 <= |digits| <= 16 && flags.hash && flags.precision && Unsigned(false, flags)
    requires !flags.left && !flags.zeropad && prec <= 30
    ensures NtoaFormat(digits, false, 16, prec, width, flags)
         == C99Field(C99Prefix(1, 16, flags), Repeat('0', AtLeast(|digits|, prec)) + digits, width, flags)
  {
    HexPrecisionText(digits, prec, width, flags);
    HexRoom(digits, prec, flags);
  }

  lemma HexField(digits: string, prec: nat, width: nat, flags: Flags)
    requires |digits| <= 16 && flags.hash && flags.precision && !flags.left && prec >= 31
    ensures C99Field(C99Prefix(1, 16, flags), Repeat('0', AtLeast(|digits|, prec)) + digits, width, flags)
         == Repeat(' ', AtLeast(prec + 2, width)) + (C99Prefix(1, 16, flags) + (Repeat('0', prec - |digits|) + digits))
  {
    assert |C99Prefix(1, 16, flags)| + |Repeat('0', AtLeast(|digits|, prec)) + digits| == prec + 2;
  }

  function HexCut(digits: string, prec: nat, flags: Flags): string
    requires |digits| <= 16 && prec >= 31
  {
    if prec == 31 then (if flags.uppercase then "X" else "x") + (Repeat('0', 31 - |digits|) + digits)
    else Repeat('0', 32 - |digits|) + digits
  }

  lemma HexFull(digits: string, prec: nat, flags: Flags)
    requires |digits| <= 16 && prec >= 31
    ensures HexMarked(Repeat('0', AtLeast(|digits|, if prec < 32 then prec else 32)) + digits, flags)
         == HexCut(digits, prec, flags)
    ensures |HexCut(digits, prec, flags)| == 32
  {
  }

  /** A hexadecimal precision above 30 leaves no room for the whole prefix. */
  lemma HexCrowded(digits: string, prec: nat, width: nat, flags: Flags)
    requires |digits| <= 16 && flags.hash && prec >= 31
    ensures Repeat(' ', AtLeast(32, width)) + HexCut(digits, prec, flags)
         != Repeat(' ', AtLeast(prec + 2, width)) + (C99Prefix(1, 16, flags) + (Repeat('0', prec - |digits|) + digits))
  {
    var code := Repeat(' ', AtLeast(32, width)) + HexCut(digits, prec, flags);
    var spec := Repeat(' ', AtLeast(prec + 2, width))
      + (C99Prefix(1, 16, flags) + (Repeat('0', prec - |digits|) + digits));
    if width >= prec + 2 {
      assert spec[width - prec - 2] == '0' && code[width - prec - 2] == ' ';
    } else {
      assert |code| < |spec|;
    }
  }

  lemma HexOverflowText(digits: string, prec: nat, width: nat, flags: Flags)
    requires 1 <= |digits| <= 16 && flags.hash && flags.precision && Unsigned(false, flags)
    requires !flags.left && !flags.zeropad && prec >= 31
    ensures NtoaFormat(digits, false, 16, prec, width, flags)
         == Repeat(' ', AtLeast(32, width)) + HexCut(digits, prec, flags)
  {
    HexFull(digits, prec, flags);
    HexPrecisionText(digits, prec, width, flags);
  }

  lemma HexOverflows(digits: string, prec: nat, width: nat, flags: Flags)
    requires 1 <= |digits| <= 16 && flags.hash && flags.precision && Unsigned(false, flags)
    requires !flags.left && !flags.zeropad && prec >= 31
    ensures NtoaFormat(digits, false, 16, prec, width, flags)
         != C99Field(C99Prefix(1, 16, flags), Repeat('0', AtLeast(|digits|, prec)) + digits, width, flags)
  {
    HexOverflowText(digits, prec, width, flags);
    HexField(digits, prec, width, flags);
    HexCrowded(digits, prec, width, flags);
  }

  lemma HexPrecision(digits: string, prec: nat, width: nat, flags: Flags)
    requires 1 <= |digits| <= 16 && flags.hash && flags.precision && Unsigned(false, flags)
    requires !flags.left && !flags.zeropad
    ensures NtoaFormat(digits, false, 16, prec, width, flags)
         == C99Field(C99Prefix(1, 16, flags), Repeat('0', AtLeast(|digits|, prec)) + digits, width, flags)
      <==> prec <= 30
  {
    if prec <= 30 {
      HexFits(digits, prec, width, flags);
    } else {
      HexOverflows(digits, prec, width, flags);
    }
  }

  lemma HexLeftPrecision(digits: string, prec: nat, width: nat, flags: Flags)
    requires 1 <= |digits| <= 16 && Leads(digits) && flags.hash && flags.precision && Unsigned(false, flags)
    requires flags.left
    ensures NtoaFormat(digits, false, 16, prec, width, flags)
         == C99Field(C99Prefix(1, 16, flags), Repeat('0', AtLeast(|digits|, prec)) + digits, width, flags)
      <==> prec <= |digits|
  {
    LeftText(digits, 16, prec, width, flags);
    HexLeftDiffers(digits, prec, width, flags);
  }

  lemma HexLeftDiffers(digits: string, prec: nat, width: nat, flags: Flags)
    requires 1 <= |digits| && Leads(digits) && flags.hash && flags.left
    ensures (C99Prefix(1, 16, flags) + digits) + Repeat(' ', AtLeast(2 + |digits|, width))
         == C99Field(C99Prefix(1, 16, flags), Repeat('0', AtLeast(|digits|, prec)) + digits, width, flags)
      <==> prec <= |digits|
  {
    var head := C99Prefix(1, 16, flags);
    var body := Repeat('0', AtLeast(|digits|, prec)) + digits;
    if prec <= |digits| {
      assert body == digits;
    } else {
      assert C99Field(head, body, width, flags)[2] == '0';
      assert ((head + digits) + Repeat(' ', AtLeast(2 + |digits|, width)))[2] == digits[0];
    }
  }

  // --- The theorem: where the code agrees with the standard, and nowhere else ---

  function DigitCount(v: nat, base: nat, flags: Flags): nat
    requires Numeric(base)
  {
    if v == 0 && flags.precision then 0 else |Numeral(v, base, flags.uppercase)|
  }

  predicate Agrees(v: nat, negative: bool, base: nat, prec: nat, width: nat, flags: Flags)
    requires Numeric(base)
  {
    var d := DigitCount(v, base, flags);
    if !flags.hash then PlainAgrees(d, C99Sign(negative, flags), prec, width, flags)
    else if v == 0 then PlainAgrees(d, "", prec, width, flags) && !(base == 8 && flags.precision && prec == 0)
    else if base == 8 then OctalAgrees(d, prec, width, flags)
    else HexAgrees(d, prec, width, flags)
  }

  lemma NoHead(s: string)
    ensures s + "" == s == "" + s
  {
  }

  /** Digits of the code's buffer and of the standard. */
  lemma SameDigits(v: u64, base: nat, prec: nat, flags: Flags)
    requires base == 8 || base == 10 || base == 16
    requires !flags.precision ==> prec == 0
    ensures var digits := if flags.precision && v == 0 then "" else LowDigits(v, base, flags.uppercase, BUFFER_SIZE);
      && |digits| == DigitCount(v, base, flags) <= 22
      && (v != 0 || flags.precision ==> Leads(digits))
      && C99Digits(v, base, flags.uppercase, if flags.precision then prec else 1)
           == Repeat('0', AtLeast(|digits|, prec)) + digits
      && (!flags.precision ==> Repeat('0', AtLeast(|digits|, prec)) + digits == digits)
  {
    NumeralFits(v, base, flags.uppercase);
    NumeralLeads(v, base, flags.uppercase);
    var digits := if flags.precision && v == 0 then "" else LowDigits(v, base, flags.uppercase, BUFFER_SIZE);
    if v == 0 && !flags.precision {
      assert C99Digits(v, base, flags.uppercase, 1) == "0" == digits;
    }
  }

  lemma PlainExactly(digits: string, negative: bool, base: nat, prec: nat, width: nat, flags: Flags)
    requires |digits| <= 22 && !flags.hash && (flags.precision ==> !flags.zeropad && Leads(digits))
    requires !flags.precision ==> prec == 0
    ensures NtoaFormat(digits, negative, base, prec, width, flags)
         == C99Field(C99Sign(negative, flags), Repeat('0', AtLeast(|digits|, prec)) + digits, width, flags)
      <==> PlainAgrees(|digits|, C99Sign(negative, flags), prec, width, flags)
  {
    NoHead(digits);
    assert !flags.precision ==> Repeat('0', AtLeast(|digits|, prec)) + digits == digits;
    if flags.left {
      PlainLeft(digits, negative, base, prec, width, flags);
    } else if flags.precision {
      PlainPrecision(digits, negative, base, prec, width, flags);
    } else if flags.zeropad {
      PlainZeros(digits, negative, base, width, flags);
    } else {
      PlainSpaces(digits, negative, base, width, flags);
    }
  }

  lemma OctalExactly(digits: string, prec: nat, width: nat, flags: Flags)
    requires 1 <= |digits| <= 22 && Leads(digits) && flags.hash && Unsigned(false, flags)
    requires (flags.precision ==> !flags.zeropad) && (!flags.precision ==> prec == 0)
    ensures NtoaFormat(digits, false, 8, prec, width, flags)
         == C99Field("", C99Octal(Repeat('0', AtLeast(|digits|, prec)) + digits, 8, flags), width, flags)
      <==> OctalAgrees(|digits|, prec, width, flags)
  {
    assert !flags.precision ==> Repeat('0', AtLeast(|digits|, prec)) + digits == digits;
    if flags.precision {
      if flags.left {
        OctalLeftPrecision(digits, prec, width, flags);
      } else {
        OctalPrecision(digits, prec, width, flags);
      }
    } else if !flags.left && flags.zeropad {
      OctalZeros(digits, width, flags);
    } else {
      OctalWidth(digits, width, flags);
    }
  }

  lemma HexExactly(digits: string, prec: nat, width: nat, flags: Flags)
    requires 1 <= |digits| <= 16 && Leads(digits) && flags.hash && Unsigned(false, flags)
    requires (flags.precision ==> !flags.zeropad) && (!flags.precision ==> prec == 0)
    ensures NtoaFormat(digits, false, 16, prec, width, flags)
         == C99Field(C99Prefix(1, 16, flags), Repeat('0', AtLeast(|digits|, prec)) + digits, width, flags)
      <==> HexAgrees(|digits|, prec, width, flags)
  {
    assert !flags.precision ==> Repeat('0', AtLeast(|digits|, prec)) + digits == digits;
    if flags.precision {
      if flags.left {
        HexLeftPrecision(digits, prec, width, flags);
      } else {
        HexPrecision(digits, prec, width, flags);
      }
    } else if !flags.left && flags.zeropad {
      HexZeros(digits, width, flags);
    } else {
      HexWidth(digits, width, flags);
    }
  }

  lemma HexShort(v: u64, upper: bool)
    ensures |Numeral(v, 16, upper)| <= 16
  {
    assert Pow(16, 8) == 0x1_0000_0000;
    PowAdd(16, 8, 8);
    NumeralBelow(v, 16, upper, 16);
  }

  /** The octal zero with precision 0 must still show a digit; the code prints none. */
  lemma OctalZeroMissing(width: nat, flags: Flags)
    requires flags.hash && flags.precision && !flags.zeropad && Unsigned(false, flags)
    ensures Ntoa(0, false, 8, 0, width, flags) != C99Integer(0, false, 8, 0, width, flags)
  {
    var code, spec := Ntoa(0, false, 8, 0, width, flags), C99Integer(0, false, 8, 0, width, flags);
    assert C99Digits(0, 8, flags.uppercase, 0) == "";
    assert C99Octal("", 8, flags) == "0";
    var at := if flags.left then 0 else |spec| - 1;
    assert spec[at] == '0';
    assert at < |code| ==> code[at] == ' ';
  }

  /** # with zero: only the octal zero with precision 0 is special, and the code misses it. */
  lemma ZeroHash(base: nat, prec: nat, width: nat, flags: Flags)
    requires (base == 8 || base == 16) && flags.hash && Unsigned(false, flags)
    requires (flags.precision ==> !flags.zeropad) && (!flags.precision ==> prec == 0)
    ensures Ntoa(0, false, base, prec, width, flags) == C99Integer(0, false, base, prec, width, flags)
      <==> Agrees(0, false, base, prec, width, flags)
  {
    if base == 8 && flags.precision && prec == 0 {
      OctalZeroMissing(width, flags);
    } else {
      ZeroHashIgnored(base, prec, width, flags);
    }
  }

  lemma ZeroDigits(base: nat, prec: nat, flags: Flags)
    requires base == 8 || base == 16
    requires !flags.precision ==> prec == 0
    ensures var digits := if flags.precision then "" else "0";
      C99Digits(0, base, flags.uppercase, if flags.precision then prec else 1)
        == Repeat('0', AtLeast(|digits|, prec)) + digits
  {
  }

  /** Elsewhere # changes nothing for zero, in the standard as in the code. */
  lemma ZeroField(base: nat, prec: nat, width: nat, flags: Flags)
    requires (base == 8 || base == 16) && Unsigned(false, flags)
    requires !flags.precision ==> prec == 0
    requires !(base == 8 && flags.precision && prec == 0)
    ensures var digits := if flags.precision then "" else "0";
      C99Integer(0, false, base, prec, width, flags)
        == C99Field("", Repeat('0', AtLeast(|digits|, prec)) + digits, width, flags.(hash := false))
  {
    var digits := if flags.precision then "" else "0";
    var body := Repeat('0', AtLeast(|digits|, prec)) + digits;
    ZeroDigits(base, prec, flags);
    NoHead("");
    assert C99Octal(body, base, flags) == body;
  }

  lemma ZeroHashIgnored(base: nat, prec: nat, width: nat, flags: Flags)
    requires (base == 8 || base == 16) && flags.hash && Unsigned(false, flags)
    requires (flags.precision ==> !flags.zeropad) && (!flags.precision ==> prec == 0)
    requires !(base == 8 && flags.precision && prec == 0)
    ensures Ntoa(0, false, base, prec, width, flags) == C99Integer(0, false, base, prec, width, flags)
      <==> PlainAgrees(DigitCount(0, base, flags), "", prec, width, flags)
  {
    NumeralFits(0, base, flags.uppercase);
    NumeralLeads(0, base, flags.uppercase);
    ZeroField(base, prec, width, flags);
    PlainExactly(if flags.precision then "" else "0", false, base, prec, width, flags.(hash := false));
  }

  /** For every value, sign, base, width, precision and set of flags the field is the one the
      standard describes exactly when Agrees holds. */
  lemma MeetsC99Exactly(v: u64, negative: bool, base: nat, prec: nat, width: nat, flags: Flags)
    requires AsPassed(negative, base, prec, flags)
    ensures Ntoa(v, negative, base, prec, width, flags) == C99Integer(v, negative, base, prec, width, flags)
      <==> Agrees(v, negative, base, prec, width, flags)
  {
    SameDigits(v, base, prec, flags);
    if flags.hash && v == 0 {
      ZeroHash(base, prec, width, flags);
    } else {
      var digits := if flags.precision && v == 0 then "" else LowDigits(v, base, flags.uppercase, BUFFER_SIZE);
      NoHead(C99Sign(negative, flags));
      NoHead(C99Prefix(v, base, flags));
      if !flags.hash {
        PlainExactly(digits, negative, base, prec, width, flags);
      } else if base == 8 {
        OctalExactly(digits, prec, width, flags);
      } else {
        HexShort(v, flags.uppercase);
        HexExactly(digits, prec, width, flags);
      }
    }
  }
}
