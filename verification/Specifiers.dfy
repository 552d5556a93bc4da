/** What each specifier prints, said of the format string as it is written and of the argument. */
module Specifiers {
  import opened Machine
  import opened Digits
  import opened Conversions
  import opened Formats
  import opened FormatLaws
  import opened StandardFormats

  // --- One directive as a format ---

  /** A format of one directive prints that directive. */
  lemma OneDirective(item: Item, s: string, args: seq<Arg>)
    requires WellFormed(item) && Fits(item, args) && s == Written(item)
    ensures Output(s, args) == Text(ItemText(item, args))
  {
    FormatPrintsAll([item], [args]);
    OnePart(Written(item), ItemText(item, args));
    assert seq(1, k requires 0 <= k < 1 => Written([item][k])) == [Written(item)];
    assert seq(1, k requires 0 <= k < 1 => ItemText([item][k], [args][k])) == [ItemText(item, args)];
    assert Flatten([args]) == args + Flatten([]) == args;
  }

  lemma OnePart(part: string, text: string)
    ensures Concat([part]) == part && Concat([text]) == text
  {
    assert Concat([part]) == part + Concat([]);
    assert Concat([text]) == text + Concat([]);
  }

  // --- Integers without flags, width and precision ---

  /** Each length modifier as it is written, with the bits of the integer it announces. */
  predicate Announces(modifier: string, bits: nat) {
    || (modifier == "hh" && bits == 8)
    || (modifier == "h" && bits == 16)
    || (modifier == "" && bits == 32)
    || ((modifier == "l" || modifier == "ll" || modifier == "j" || modifier == "z" || modifier == "t") && bits == 64)
  }

  function ModifierOf(modifier: string): Modifier {
    if modifier == "hh" then HH else if modifier == "h" then H else if modifier == "l" then L
    else if modifier == "ll" then LL else if modifier == "j" then J else if modifier == "z" then Z
    else if modifier == "t" then T else NoModifier
  }

  lemma ModifierIs(modifier: string, bits: nat)
    requires Announces(modifier, bits)
    ensures ModifierText(ModifierOf(modifier)) == modifier && Bits(ModifierOf(modifier)) == bits
  {
  }

  function BaseOf(conv: char): nat {
    if conv == 'o' then 8 else if conv == 'x' || conv == 'X' then 16 else 10
  }

  lemma PlainField(v: int, base: nat, f: Flags)
    requires base == 8 || base == 10 || base == 16
    requires !f.left && !f.zeropad && !f.plus && !f.space && !f.hash && !f.precision
    ensures C99Integer(if v < 0 then -v else v, v < 0, base, 0, 0, f)
         == (if v < 0 then "-" else "") + Numeral(if v < 0 then -v else v, base, f.uppercase)
  {
    var m := if v < 0 then -v else v;
    assert C99Digits(m, base, f.uppercase, 1) == Numeral(m, base, f.uppercase);
  }

  lemma PlainAgreement(item: Item, args: seq<Arg>)
    requires item.Spec? && item.flags == "" && item.width == NoWidth && item.precision == NoPrecision
    requires IntegerSpecifier(item.conv) && Fits(item, args)
    ensures IntegerAgrees(item, args)
  {
  }

  lemma PlainInteger(item: Item, args: seq<Arg>)
    requires item.Spec? && item.flags == "" && item.width == NoWidth && item.precision == NoPrecision
    requires IntegerSpecifier(item.conv) && Fits(item, args)
    ensures var v := IntegerValue(item, args);
      StandardText(item, args)
        == (if v < 0 then "-" else "") + Numeral(if v < 0 then -v else v, BaseOf(item.conv), item.conv == 'X')
  {
    var f := NO_FLAGS;
    assert GivenFlags(item, args) == f;
    PlainField(IntegerValue(item, args), BaseOf(item.conv), if item.conv == 'X' then f.(uppercase := true) else f);
  }

  lemma PlainItem(item: Item, args: seq<Arg>, v: int)
    requires item.Spec? && item.flags == "" && item.width == NoWidth && item.precision == NoPrecision
    requires IntegerSpecifier(item.conv) && Fits(item, args) && v == IntegerValue(item, args)
    ensures ItemText(item, args)
         == (if v < 0 then "-" else "") + Numeral(if v < 0 then -v else v, BaseOf(item.conv), item.conv == 'X')
  {
    PlainAgreement(item, args);
    ItemMeetsC99Exactly(item, args);
    PlainInteger(item, args);
  }

  /** d, i, u, o, x and X behind any length modifier print the number the argument stands for as an
      integer of that many bits: sign and digits in the specifier's base and case. */
  lemma IntegersPrint(modifier: string, bits: nat, conv: char, w: u64, v: int)
    requires Announces(modifier, bits) && IntegerSpecifier(conv)
    requires bits > 0 && StandsFor(v, w, bits, conv == 'd' || conv == 'i')
    ensures Output("%" + (modifier + [conv]), [Word(w)])
         == Text((if v < 0 then "-" else "")
                   + Numeral(if v < 0 then -v else v,
                             if conv == 'o' then 8 else if conv == 'x' || conv == 'X' then 16 else 10, conv == 'X'))
  {
    var item := PlainSpec(modifier, bits, conv, w, v);
    PlainItem(item, [Word(w)], v);
    OneDirective(item, "%" + (modifier + [conv]), [Word(w)]);
  }

  lemma PlainSpec(modifier: string, bits: nat, conv: char, w: u64, v: int) returns (item: Item)
    requires Announces(modifier, bits) && IntegerSpecifier(conv)
    requires bits > 0 && StandsFor(v, w, bits, conv == 'd' || conv == 'i')
    ensures item.Spec? && item.flags == "" && item.width == NoWidth && item.precision == NoPrecision && item.conv == conv
    ensures WellFormed(item) && Written(item) == "%" + (modifier + [conv]) && Fits(item, [Word(w)])
    ensures IntegerValue(item, [Word(w)]) == v
  {
    item := Spec("", NoWidth, NoPrecision, ModifierOf(modifier), conv);
    ModifierIs(modifier, bits);
    PlainWritten(item, modifier);
    StandsForExactly(v, w, item.size, conv == 'd' || conv == 'i');
  }

  /** A directive of a modifier and a specifier only. */
  lemma PlainWritten(item: Item, modifier: string)
    requires item.Spec? && item.flags == "" && item.width == NoWidth && item.precision == NoPrecision
    requires ModifierText(item.size) == modifier && !PartOfHead(item.conv)
    ensures WellFormed(item) && Written(item) == "%" + (modifier + [item.conv])
  {
    var z := modifier + [item.conv];
    assert z[0] == if modifier == "" then item.conv else modifier[0];
    assert PrecisionText(item.precision) + z == z && WidthText(item.width) + z == z && item.flags + z == z;
  }

  // --- Other characters ---

  predicate PartOfHead(c: char) {
    || '0' <= c <= '9'
    || c == '+' || c == '-' || c == ' ' || c == '#' || c == '*' || c == '.'
    || c == 'l' || c == 'h' || c == 't' || c == 'j' || c == 'z'
  }

  /** A character the code knows neither as part of a head nor as a specifier prints itself. */
  lemma UnknownPrintsItself(c: char)
    requires !PartOfHead(c) && c != 'd' && c != 'i' && c != 'u' && c != 'o' && c != 'x' && c != 'X'
    requires c != 'b' && c != 'c' && c != 's' && c != 'p'
    ensures Output("%" + [c], []) == Text([c])
  {
    var item := Spec("", NoWidth, NoPrecision, NoModifier, c);
    PlainWritten(item, "");
    assert "" + [c] == [c];
    OneDirective(item, "%" + [c], []);
  }

  // --- Flags, widths and precisions, one at a time ---

  function Sign(v: int): string {
    if v < 0 then "-" else ""
  }

  function Abs(v: int): nat {
    if v < 0 then -v else v
  }

  /** A decimal directive that agrees with the standard prints the standard's field. */
  lemma DecimalField(item: Item, args: seq<Arg>, v: int)
    requires WellFormed(item) && item.Spec? && item.conv == 'd' && item.size == NoModifier && Fits(item, args)
    requires v == IntegerValue(item, args) && IntegerAgrees(item, args)
    ensures Output(Written(item), args)
         == Text(C99Integer(Abs(v), v < 0, 10, GivenPrecision(item, args), FieldWidth(item, args),
                            GivenFlags(item, args).(hash := false)))
  {
    OneDirective(item, Written(item), args);
    ItemMeetsC99Exactly(item, args);
  }

  /** A number as it is written: digits only, no zero in front. */
  lemma NumeralForm(n: nat)
    requires n > 0
    ensures var ds := Numeral(n, 10, false);
      ds != "" && AllDigits(ds) && !IsFlag(ds[0]) && Value(ds, 10) == n
  {
    NumeralReadsBack(n, 10, false);
    NumeralIsDigits(n, false);
    NumeralLeads(n, 10, false);
  }

  /** The digits the standard takes for a number without a precision. */
  lemma PlainDigits(m: nat, base: nat, upper: bool)
    requires Numeric(base)
    ensures C99Digits(m, base, upper, 1) == Numeral(m, base, upper)
  {
  }

  lemma SignItem(flag: char, w: u64) returns (item: Item)
    requires flag == '+' || flag == ' '
    ensures item == Spec([flag], NoWidth, NoPrecision, NoModifier, 'd')
    ensures WellFormed(item) && Written(item) == "%" + [flag] + "d" && Fits(item, [Word(w)])
    ensures IntegerAgrees(item, [Word(w)])
  {
    item := Spec([flag], NoWidth, NoPrecision, NoModifier, 'd');
    assert "" + "d" == "d";
  }

  /** + and space print themselves before a number that is not negative. */
  lemma SignFlagsPrint(flag: char, w: u64, v: int)
    requires (flag == '+' || flag == ' ') && StandsFor(v, w, 32, true)
    ensures Output("%" + [flag] + "d", [Word(w)])
         == Text((if v < 0 then "-" else [flag]) + Numeral(Abs(v), 10, false))
  {
    var item := SignItem(flag, w);
    StandsForExactly(v, w, NoModifier, true);
    DecimalField(item, [Word(w)], v);
    PlainDigits(Abs(v), 10, false);
    SignField(flag, v);
  }

  lemma SignField(flag: char, v: int)
    requires flag == '+' || flag == ' '
    ensures C99Integer(Abs(v), v < 0, 10, 0, 0, NO_FLAGS.(plus := flag == '+', space := flag == ' '))
         == (if v < 0 then "-" else [flag]) + Numeral(Abs(v), 10, false)
  {
    PlainDigits(Abs(v), 10, false);
  }

  /** The ways to justify a field: nothing, - and 0. */
  predicate Justifies(flag: string) {
    flag == "" || flag == "-" || flag == "0"
  }

  lemma WidthEnds(flag: string, ds: string)
    requires Justifies(flag) && ds != "" && AllDigits(ds) && !IsFlag(ds[0])
    ensures WellFormed(Spec(flag, Fixed(ds), NoPrecision, NoModifier, 'd'))
  {
    assert "" + "d" == "d" && (ds + "d")[0] == ds[0];
  }

  lemma WidthWritten(flag: string, ds: string)
    ensures Written(Spec(flag, Fixed(ds), NoPrecision, NoModifier, 'd')) == "%" + flag + ds + "d"
  {
    assert "" + "d" == "d";
  }

  lemma WidthItem(flag: string, width: nat, w: u64) returns (item: Item)
    requires Justifies(flag) && 0 < width
    ensures item == Spec(flag, Fixed(Numeral(width, 10, false)), NoPrecision, NoModifier, 'd')
    ensures WellFormed(item) && Written(item) == "%" + flag + Numeral(width, 10, false) + "d"
    ensures Fits(item, [Word(w)]) && FieldWidth(item, [Word(w)]) == width
  {
    var ds := Numeral(width, 10, false);
    NumeralForm(width);
    WidthEnds(flag, ds);
    WidthWritten(flag, ds);
    item := Spec(flag, Fixed(ds), NoPrecision, NoModifier, 'd');
  }

  lemma WidthAgrees(item: Item, flag: string, width: nat, args: seq<Arg>)
    requires Justifies(flag) && (if flag == "0" then width <= 32 else width < 0x1_0000_0000)
    requires item.Spec? && item.flags == flag && item.width.Fixed? && item.precision == NoPrecision && item.conv == 'd'
    requires Fits(item, args) && FieldWidth(item, args) == width
    ensures IntegerAgrees(item, args)
    ensures GivenFlags(item, args).(hash := false) == NO_FLAGS.(left := flag == "-", zeropad := flag == "0")
    ensures GivenPrecision(item, args) == 0
  {
  }

  /** A width pads with spaces before the number, with - behind it, and with 0 between sign and
      digits by zeros, as far as the scratch buffer reaches. */
  lemma WidthsPrint(flag: string, width: nat, w: u64, v: int)
    requires Justifies(flag) && 0 < width && (if flag == "0" then width <= 32 else width < 0x1_0000_0000)
    requires StandsFor(v, w, 32, true)
    ensures var digits := Numeral(Abs(v), 10, false);
      var fill := if |Sign(v) + digits| < width then width - |Sign(v) + digits| else 0;
      Output("%" + flag + Numeral(width, 10, false) + "d", [Word(w)]) == Text(
        if flag == "-" then Sign(v) + digits + Repeat(' ', fill)
        else if flag == "0" then Sign(v) + (Repeat('0', fill) + digits)
        else Repeat(' ', fill) + (Sign(v) + digits))
  {
    var item := WidthItem(flag, width, w);
    WidthAgrees(item, flag, width, [Word(w)]);
    StandsForExactly(v, w, NoModifier, true);
    DecimalField(item, [Word(w)], v);
    WidthField(flag, width, v);
  }

  lemma WidthField(flag: string, width: nat, v: int)
    requires Justifies(flag)
    ensures var digits := Numeral(Abs(v), 10, false);
      var fill := if |Sign(v) + digits| < width then width - |Sign(v) + digits| else 0;
      C99Integer(Abs(v), v < 0, 10, 0, width, NO_FLAGS.(left := flag == "-", zeropad := flag == "0")) ==
        if flag == "-" then Sign(v) + digits + Repeat(' ', fill)
        else if flag == "0" then Sign(v) + (Repeat('0', fill) + digits)
        else Repeat(' ', fill) + (Sign(v) + digits)
  {
    PlainDigits(Abs(v), 10, false);
  }

  lemma PrecisionItem(precision: nat, w: u64) returns (item: Item)
    requires 0 < precision <= 31
    ensures item == Spec("", NoWidth, Dot(Numeral(precision, 10, false)), NoModifier, 'd')
    ensures WellFormed(item) && Written(item) == "%." + Numeral(precision, 10, false) + "d"
    ensures Fits(item, [Word(w)]) && GivenPrecision(item, [Word(w)]) == precision && IntegerAgrees(item, [Word(w)])
  {
    var ds := Numeral(precision, 10, false);
    NumeralForm(precision);
    item := Spec("", NoWidth, Dot(ds), NoModifier, 'd');
    assert "" + "d" == "d" && "" + ("." + ds + "d") == "." + ds + "d";
  }

  lemma PrecisionField(precision: nat, v: int)
    requires precision > 0
    ensures var digits := Numeral(Abs(v), 10, false);
      C99Integer(Abs(v), v < 0, 10, precision, 0, NO_FLAGS.(precision := true))
        == Sign(v) + (Repeat('0', if |digits| < precision then precision - |digits| else 0) + digits)
  {
    var digits := Numeral(Abs(v), 10, false);
    if v == 0 {
      assert digits == "0" && Repeat('0', precision) + "" == Repeat('0', precision - 1) + "0";
    }
  }

  /** A precision prints zeros behind the sign up to that many digits. */
  lemma PrecisionsPrint(precision: nat, w: u64, v: int)
    requires 0 < precision <= 31 && StandsFor(v, w, 32, true)
    ensures var digits := Numeral(Abs(v), 10, false);
      Output("%." + Numeral(precision, 10, false) + "d", [Word(w)])
        == Text(Sign(v) + (Repeat('0', if |digits| < precision then precision - |digits| else 0) + digits))
  {
    var item := PrecisionItem(precision, w);
    StandsForExactly(v, w, NoModifier, true);
    DecimalField(item, [Word(w)], v);
    PrecisionField(precision, v);
    assert GivenFlags(item, [Word(w)]).(hash := false) == NO_FLAGS.(precision := true);
  }

  lemma HashItem(conv: char, w: u64) returns (item: Item)
    requires conv == 'o' || conv == 'x' || conv == 'X'
    ensures item == Spec("#", NoWidth, NoPrecision, NoModifier, conv)
    ensures WellFormed(item) && Written(item) == "%#" + [conv] && Fits(item, [Word(w)])
  {
    item := Spec("#", NoWidth, NoPrecision, NoModifier, conv);
    assert "" + [conv] == [conv];
  }

  lemma HashAgrees(item: Item, w: u64)
    requires item.Spec? && item == Spec("#", NoWidth, NoPrecision, NoModifier, item.conv) && Fits(item, [Word(w)])
    requires item.conv == 'o' || item.conv == 'x' || item.conv == 'X'
    ensures IntegerAgrees(item, [Word(w)])
    ensures GivenFlags(item, [Word(w)]) == NO_FLAGS.(hash := true)
  {
  }

  lemma HashField(conv: char, v: nat)
    requires (conv == 'o' || conv == 'x' || conv == 'X') && v != 0
    ensures StandardInteger(conv, v, 0, 0, NO_FLAGS.(hash := true))
         == (if conv == 'o' then "0" else if conv == 'x' then "0x" else "0X") + Numeral(v, BaseOf(conv), conv == 'X')
  {
    PlainDigits(v, BaseOf(conv), conv == 'X');
    NumeralLeads(v, BaseOf(conv), conv == 'X');
  }

  /** # puts 0 before octal and 0x or 0X before hexadecimal digits, unless the number is 0. */
  lemma HashPrints(conv: char, w: u64, v: int)
    requires (conv == 'o' || conv == 'x' || conv == 'X') && StandsFor(v, w, 32, false) && v != 0
    ensures Output("%#" + [conv], [Word(w)])
         == Text((if conv == 'o' then "0" else if conv == 'x' then "0x" else "0X")
                   + Numeral(v, if conv == 'o' then 8 else 16, conv == 'X'))
  {
    var item := HashItem(conv, w);
    HashAgrees(item, w);
    StandsForExactly(v, w, NoModifier, false);
    OneDirective(item, "%#" + [conv], [Word(w)]);
    ItemMeetsC99Exactly(item, [Word(w)]);
    HashField(conv, v);
  }

  // --- b and p ---

  /** The last n characters of a text, or all of it. */
  function LastOf(s: string, n: nat): string {
    if |s| <= n then s else s[|s| - n..]
  }

  /** The digits that fit are the last ones. */
  lemma {:induction false} LowDigitsAreLast(v: nat, base: nat, upper: bool, n: nat)
    requires 2 <= base <= 16 && n >= 1
    ensures LowDigits(v, base, upper, n) == LastOf(Numeral(v, base, upper), n)
    decreases n
  {
    SmallQuotient(v, base);
    if v >= base {
      var high, low := Numeral(v / base, base, upper), [DigitChar(v % base, upper)];
      assert Numeral(v, base, upper) == high + low;
      if n > 1 {
        LowDigitsAreLast(v / base, base, upper, n - 1);
        LastOfMore(high, low, n);
      }
    }
  }

  lemma LastOfMore(s: string, c: string, n: nat)
    requires |c| == 1 && n > 1
    ensures LastOf(s + c, n) == LastOf(s, n - 1) + c
  {
  }

  /** b prints the last 32 binary digits, and with # the prefix 0b before them as far as 32 characters
      have room for it. */
  lemma BinaryText(v: u64, hash: bool)
    ensures var digits := LastOf(Numeral(v, 2, false), 32);
      Ntoa(v, false, 2, 0, 0, NO_FLAGS.(hash := hash)) ==
        if !hash || v == 0 || |digits| == 32 then digits
        else if |digits| == 31 then "b" + digits
        else "0b" + digits
  {
    LowDigitsAreLast(v, 2, false, 32);
    var digits := LastOf(Numeral(v, 2, false), 32);
    if hash && v != 0 {
      MarkedBinary(digits);
    } else {
      UnmarkedBinary(digits);
    }
  }

  lemma MarkedBinary(digits: string)
    requires 1 <= |digits| <= 32
    ensures NtoaFormat(digits, false, 2, 0, 0, NO_FLAGS.(hash := true)) ==
      if |digits| == 32 then digits else if |digits| == 31 then "b" + digits else "0b" + digits
  {
    assert Push('0', Push('b', digits)) ==
      if |digits| == 32 then digits else if |digits| == 31 then "b" + digits else "0b" + digits;
    assert Repeat(' ', 0) + Push('0', Push('b', digits)) == Push('0', Push('b', digits));
  }

  lemma UnmarkedBinary(digits: string)
    requires 1 <= |digits| <= 32
    ensures NtoaFormat(digits, false, 2, 0, 0, NO_FLAGS) == digits
  {
    assert Repeat(' ', 0) + digits == digits;
  }

  lemma BinaryPrints(modifier: string, bits: nat, w: u64, v: u64)
    requires Announces(modifier, bits) && bits > 0 && StandsFor(v, w, bits, false)
    ensures Output("%" + (modifier + "b"), [Word(w)]) == Text(LastOf(Numeral(v, 2, false), 32))
  {
    var item, args := Spec("", NoWidth, NoPrecision, ModifierOf(modifier), 'b'), [Word(w)];
    ModifierIs(modifier, bits);
    PlainWritten(item, modifier);
    StandsForExactly(v, w, item.size, false);
    CodeConvertsUnsigned(w, item.size);
    BinaryText(v, false);
    OneDirective(item, "%" + (modifier + "b"), args);
    BinaryItem(item, args);
  }

  lemma CodeConvertsUnsigned(w: u64, m: Modifier)
    ensures UnsignedArg(w, SizeOf(m)) == StandardValue(w, m, false)
  {
  }

  lemma BinaryItem(item: Item, args: seq<Arg>)
    requires item.Spec? && item.flags == "" && item.width == NoWidth && item.precision == NoPrecision
    requires item.conv == 'b' && Fits(item, args)
    ensures ItemText(item, args) == Ntoa(UnsignedArg(args[0].w, SizeOf(item.size)), false, 2, 0, 0, NO_FLAGS)
  {
    assert FlagsOf("") == NO_FLAGS;
  }

  /** Filling twice is filling to the larger length. */
  lemma FilledTwice(digits: string, a: nat, b: nat)
    requires |digits| <= 16
    ensures FillZeros(FillZeros(digits, a), b) == FillZeros(digits, Larger(a, b))
  {
    var t := FillZeros(digits, a);
    if |digits| < a && |t| < b && |t| < 32 {
      assert Repeat('0', (if b < 32 then b else 32) - |t|) + t == Repeat('0', (if b < 32 then b else 32) - |digits|) + digits;
    }
  }

  lemma FilledText(digits: string, n: nat)
    requires |digits| <= 16
    ensures FillZeros(digits, n) == Repeat('0', AtLeast(|digits|, if n < 32 then n else 32)) + digits
  {
  }

  lemma ZeroPaddedText(digits: string, prec: nat, flags: Flags)
    requires |digits| <= 16 && !flags.left && flags.zeropad && !flags.hash
    ensures var sign := C99Sign(false, flags);
      var m := Larger(prec, 16 - |sign|);
      NtoaFormat(digits, false, 16, prec, 16, flags)
        == (if m < 32 then sign else "") + (Repeat('0', AtLeast(|digits|, if m < 32 then m else 32)) + digits)
  {
    var m := Larger(prec, DigitWidth(false, 16, flags));
    FilledTwice(digits, prec, DigitWidth(false, 16, flags));
    FilledText(digits, m);
  }

  /** p prints 16 hexadecimal digits in capitals, whatever width is given; a precision beyond 16 makes
      them more, up to 32, and a sign takes the place of one. */
  lemma PointerShown(w: u64, d: Directive)
    requires !d.flags.left && !d.flags.hash && (d.flags.precision ==> w != 0)
    ensures var digits, sign := Numeral(w, 16, true), C99Sign(false, d.flags);
      var m := Larger(d.precision, 16 - |sign|);
      PointerText(w, d) == (if m < 32 then sign else "") + (Repeat('0', AtLeast(|digits|, if m < 32 then m else 32)) + digits)
  {
    NumeralFits(w, 16, true);
    HexShort(w, true);
    ZeroPaddedText(Numeral(w, 16, true), d.precision, d.flags.(zeropad := true, uppercase := true));
  }

  lemma PointerPrints(w: u64)
    ensures Output("%p", [Word(w)]) == Text(Repeat('0', AtLeast(|Numeral(w, 16, true)|, 16)) + Numeral(w, 16, true))
  {
    var item, args := Spec("", NoWidth, NoPrecision, NoModifier, 'p'), [Word(w)];
    PlainWritten(item, "");
    OneDirective(item, "%p", args);
    PointerShown(w, Meaning(item, args));
    assert FlagsOf("") == NO_FLAGS;
    var text := Repeat('0', AtLeast(|Numeral(w, 16, true)|, 16)) + Numeral(w, 16, true);
    assert "" + text == text;
  }

  // --- Digits lost to # ---

  /** With # and a width of just the number of digits, the prefix takes the place of digits. */
  lemma HashEatsDigits(digits: string, base: nat, flags: Flags)
    requires 1 <= |digits| <= 22 && (base == 8 || base == 16) && Unsigned(false, flags)
    requires flags.hash && !flags.precision
    ensures NtoaFormat(digits, false, base, 0, |digits|, flags)
         == if base == 8 then "0" + digits[1..]
            else (if flags.uppercase then "0X" else "0x") + digits[if |digits| == 1 then 1 else 2..]
  {
    assert Filled(digits, false, 0, |digits|, flags) == digits;
    var t := HashMark(digits, base, 0, |digits|, flags);
    assert t == if base == 8 then "0" + digits[1..]
                else (if flags.uppercase then "0X" else "0x") + digits[if |digits| == 1 then 1 else 2..];
    assert t + "" == t == "" + t;
  }
}
