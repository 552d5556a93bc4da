/** Directives as section 7.19.6.1 of ISO C99 describes them, and where the code prints the same. */
module StandardFormats {
  import opened Arithmetic
  import opened Machine
  import opened Digits
  import opened Conversions
  import opened Formats
  import opened FormatLaws

  // --- What the standard says about a directive and its arguments ---

  predicate IntegerSpecifier(conv: char) {
    conv == 'd' || conv == 'i' || conv == 'u' || conv == 'o' || conv == 'x' || conv == 'X'
  }

  predicate SignedSpecifier(conv: char) {
    conv == 'd' || conv == 'i'
  }

  /** The directives the standard describes: no b, no wide characters, and p left to implementations. */
  predicate Standard(item: Item) {
    match item
    case Plain(_) => true
    case Spec(_, _, _, size, conv) =>
      || IntegerSpecifier(conv)
      || ((conv == 'c' || conv == 's') && size == NoModifier)
      || conv == '%'
  }

  /** The value an argument word stands for; StandsForExactly says what it is. */
  function StandardValue(w: u64, m: Modifier, signed: bool): int {
    match m
    case HH => var x := w % 0x100; if signed && x >= 0x80 then x - 0x100 else x
    case H => var x := w % 0x1_0000; if signed && x >= 0x8000 then x - 0x1_0000 else x
    case NoModifier => var x := w % 0x1_0000_0000; if signed && x >= 0x8000_0000 then x - 0x1_0000_0000 else x
    case L | LL | T | J | Z => if signed && w >= 0x8000_0000_0000_0000 then w - 0x1_0000_0000_0000_0000 else w
  }

  function StarValue(arg: Arg): int {
    if arg.Word? then StandardValue(arg.w, NoModifier, true) else 0
  }

  /** A number of any size; a negative argument is a - flag and a positive width. */
  function FieldWidth(item: Item, args: seq<Arg>): nat
    requires item.Spec? && Fits(item, args)
  {
    match item.width
    case NoWidth => 0
    case Fixed(ds) => Value(ds, 10)
    case Star => var w := StarValue(args[0]); if w < 0 then -w else w
  }

  /** A negative argument is taken as if the precision were omitted. */
  predicate Omitted(item: Item, args: seq<Arg>)
    requires item.Spec? && Fits(item, args)
  {
    item.precision.NoPrecision? || NegativeStar(item, args)
  }

  predicate NegativeStar(item: Item, args: seq<Arg>)
    requires item.Spec? && Fits(item, args)
  {
    item.precision.DotStar? && StarValue(args[StarCount(item) - 1]) < 0
  }

  /** The precision that is given, and 0 if it is omitted. */
  function GivenPrecision(item: Item, args: seq<Arg>): nat
    requires item.Spec? && Fits(item, args)
  {
    match item.precision
    case NoPrecision => 0
    case Dot(ds) => Value(ds, 10)
    case DotStar => var p := StarValue(args[StarCount(item) - 1]); if p < 0 then 0 else p
  }

  function GivenFlags(item: Item, args: seq<Arg>): Flags
    requires item.Spec? && Fits(item, args)
  {
    var left := '-' in item.flags || (item.width.Star? && StarValue(args[0]) < 0);
    Flags('0' in item.flags, left, '+' in item.flags, ' ' in item.flags, '#' in item.flags, false, !Omitted(item, args))
  }

  /** Text in a field of at least that width. */
  function Field(text: string, width: nat, left: bool): string {
    var pad := Repeat(' ', if |text| < width then width - |text| else 0);
    if left then text + pad else pad + text
  }

  /** The characters of the string the standard prints: those up to the precision, if there is one. */
  function StandardString(item: Item, args: seq<Arg>): string
    requires item.Spec? && item.conv == 's' && Fits(item, args)
  {
    var p := args[StarCount(item)].s;
    if !Omitted(item, args) && GivenPrecision(item, args) < |p| then p[..GivenPrecision(item, args)] else p
  }

  function IntegerValue(item: Item, args: seq<Arg>): (v: int)
    requires item.Spec? && IntegerSpecifier(item.conv) && Fits(item, args)
    ensures v < 0 ==> SignedSpecifier(item.conv)
  {
    StandardValue(args[StarCount(item)].w, item.size, SignedSpecifier(item.conv))
  }

  /** Each integer specifier: its base and letter case, and the flags that mean nothing next to it. */
  function StandardInteger(conv: char, v: int, prec: nat, width: nat, f: Flags): string
    requires IntegerSpecifier(conv) && (v < 0 ==> SignedSpecifier(conv))
  {
    var unsigned := f.(plus := false, space := false);
    match conv
    case 'd' | 'i' => C99Integer(if v < 0 then -v else v, v < 0, 10, prec, width, f.(hash := false))
    case 'o' => C99Integer(v, false, 8, prec, width, unsigned)
    case 'x' => C99Integer(v, false, 16, prec, width, unsigned)
    case 'X' => C99Integer(v, false, 16, prec, width, unsigned.(uppercase := true))
    case _ => C99Integer(v, false, 10, prec, width, unsigned.(hash := false))
  }

  function StandardText(item: Item, args: seq<Arg>): string
    requires Standard(item) && Fits(item, args)
  {
    match item
    case Plain(c) => [c]
    case Spec(_, _, _, _, conv) =>
      var width, flags := FieldWidth(item, args), GivenFlags(item, args);
      if IntegerSpecifier(conv) then
        StandardInteger(conv, IntegerValue(item, args), GivenPrecision(item, args), width, flags)
      else if conv == 'c' then Field([(args[StarCount(item)].w % 0x100) as char], width, flags.left)
      else if conv == 's' then Field(StandardString(item, args), width, flags.left)
      else "%"
  }

  // --- Where the code agrees ---

  /** Integers: a width beyond 32 bits is cut.  A negative * precision is taken for precision 0, which
      prints no zero and switches zero padding off; that shows unless the number is not zero and the
      field would need no zero padding. */
  predicate IntegerAgrees(item: Item, args: seq<Arg>)
    requires item.Spec? && IntegerSpecifier(item.conv) && Fits(item, args)
  {
    var v, width, flags := IntegerValue(item, args), FieldWidth(item, args), GivenFlags(item, args);
    && width < 0x1_0000_0000
    && if NegativeStar(item, args) then
         v != 0 && (flags.left || !flags.zeropad || width <= |StandardInteger(item.conv, v, 0, 0, flags)|)
       else GivenAgrees(item, args)
  }

  /** The condition on precision, width and flags as they are given. */
  predicate GivenAgrees(item: Item, args: seq<Arg>)
    requires item.Spec? && IntegerSpecifier(item.conv) && Fits(item, args)
  {
    var v := IntegerValue(item, args);
    Agrees(if v < 0 then -v else v, v < 0, Base(item.conv), GivenPrecision(item, args), FieldWidth(item, args),
           IntegerFlags(item.conv, GivenFlags(item, args)))
  }

  /** How many characters of a string the code prints: the precision is cut to 32 bits, and 0 for a
      negative argument. */
  function Cut(item: Item, args: seq<Arg>): (r: nat)
    requires item.Spec? && item.conv == 's' && Fits(item, args)
    ensures r <= |StandardString(item, args)|
  {
    var p := args[StarCount(item)].s;
    var precision := GivenPrecision(item, args) % 0x1_0000_0000;
    if item.precision.NoPrecision? || |p| <= precision then |p| else precision
  }

  predicate Blank(s: string) {
    forall k :: 0 <= k < |s| ==> s[k] == ' '
  }

  /** Strings: all characters are printed, and the padding is right in 32 bits; or what is not printed
      cannot be told from the padding. */
  predicate StringAgrees(text: string, cut: nat, width: nat, left: bool)
    requires cut <= |text|
  {
    if cut == |text| then PaddingAgrees(|text|, width)
    else |text| <= width < 0x1_0000_0000 && Blank(if left then text[cut..] else text)
  }

  /** Padding n characters to a width, with both numbers cut to 32 bits. */
  predicate PaddingAgrees(n: nat, width: nat) {
    || width / 0x1_0000_0000 == n / 0x1_0000_0000
    || (width <= n && width % 0x1_0000_0000 <= n % 0x1_0000_0000)
  }

  predicate ItemAgrees(item: Item, args: seq<Arg>)
    requires Standard(item) && Fits(item, args)
  {
    match item
    case Plain(_) => true
    case Spec(_, _, _, _, conv) =>
      if IntegerSpecifier(conv) then IntegerAgrees(item, args)
      else if conv == 'c' then FieldWidth(item, args) < 0x1_0000_0000
      else if conv == 's' then
        StringAgrees(StandardString(item, args), Cut(item, args), FieldWidth(item, args), GivenFlags(item, args).left)
      else true
  }

  // --- What arguments stand for ---

  /** The powers of two that matter, b being the bits. */
  function Power(b: nat): nat {
    if b == 7 then 0x80 else if b == 8 then 0x100 else if b == 15 then 0x8000 else if b == 16 then 0x1_0000
    else if b == 31 then 0x8000_0000 else if b == 32 then 0x1_0000_0000
    else if b == 63 then 0x8000_0000_0000_0000 else 0x1_0000_0000_0000_0000
  }

  lemma SmallPowers()
    ensures Pow2(7) == 0x80 && Pow2(8) == 0x100 && Pow2(15) == 0x8000 && Pow2(16) == 0x1_0000
  {
    assert Pow2(7) == 0x80;
    Pow2Add(8, 7);
    Pow2Add(8, 8);
  }

  lemma LargePowers()
    ensures Pow2(31) == 0x8000_0000 && Pow2(32) == 0x1_0000_0000
    ensures Pow2(63) == 0x8000_0000_0000_0000 && Pow2(64) == 0x1_0000_0000_0000_0000
  {
    SmallPowers();
    Pow2Add(16, 15);
    Pow2Add(16, 16);
    Pow2Add(32, 31);
    Pow2Add(32, 32);
  }

  lemma PowersOf(m: Modifier)
    ensures Pow2(Bits(m)) == Power(Bits(m)) && Pow2(Bits(m) - 1) == Power(Bits(m) - 1)
  {
    SmallPowers();
    LargePowers();
  }

  /** Numbers in the same range that differ by a multiple of its length are the same. */
  lemma OnlyOne(v: int, x: int, low: int, n: int, w: int)
    requires n > 0 && low <= v < low + n && low <= x < low + n && (v - w) % n == 0 && (x - w) % n == 0
    ensures v == x
  {
    var i, j := (v - w) / n, (x - w) / n;
    assert v - w == n * i && x - w == n * j;
    assert v - x == n * (i - j);
    if i != j {
      MulAtLeast(n, if i > j then i - j else j - i);
      assert false;
    }
  }

  lemma Congruent(v: int, w: int, n: int)
    requires n > 0 && (v == w % n || v == w % n - n)
    ensures (v - w) % n == 0
  {
    var q := w / n;
    var k := if v == w % n then -q else -q - 1;
    assert v - w == n * k;
    DivModUnique(v - w, n, k, 0);
  }

  lemma ValueInRange(w: u64, m: Modifier, signed: bool)
    ensures var v, n := StandardValue(w, m, signed), Power(Bits(m));
      && (if signed then -(n / 2) <= v < n / 2 else 0 <= v < n)
      && (v == w % n || v == w % n - n)
  {
    match m
    case HH => assert Power(8) == 0x100;
    case H => assert Power(16) == 0x1_0000;
    case NoModifier => assert Power(32) == 0x1_0000_0000;
    case L | LL | T | J | Z => assert Power(64) == 0x1_0000_0000_0000_0000 && w % 0x1_0000_0000_0000_0000 == w;
  }

  lemma ValueStandsFor(w: u64, m: Modifier, signed: bool)
    ensures StandsFor(StandardValue(w, m, signed), w, Bits(m), signed)
  {
    PowersOf(m);
    ValueInRange(w, m, signed);
    HalfPower(m);
    Congruent(StandardValue(w, m, signed), w, Power(Bits(m)));
  }

  lemma HalfPower(m: Modifier)
    ensures Power(Bits(m) - 1) == Power(Bits(m)) / 2
  {
  }

  /** The value is the one number of that many bits that differs from the word by a multiple of 2^b. */
  lemma StandsForExactly(v: int, w: u64, m: Modifier, signed: bool)
    ensures StandsFor(v, w, Bits(m), signed) <==> v == StandardValue(w, m, signed)
  {
    PowersOf(m);
    ValueStandsFor(w, m, signed);
    if StandsFor(v, w, Bits(m), signed) {
      var half: int, whole: int := Pow2(Bits(m) - 1), Pow2(Bits(m));
      OnlyOne(v, StandardValue(w, m, signed), if signed then -half else 0, whole, w);
    }
  }

  /** The code converts this value. */
  lemma CodeConverts(conv: char, w: u64, m: Modifier)
    requires IntegerSpecifier(conv)
    ensures Converted(conv, w, SizeOf(m)) == StandardValue(w, m, SignedSpecifier(conv))
  {
  }

  /** The table of specifiers, in the code's terms. */
  lemma TableOfSpecifiers(conv: char, v: int, prec: nat, width: nat, f: Flags)
    requires IntegerSpecifier(conv) && (v < 0 ==> SignedSpecifier(conv)) && !f.uppercase
    ensures IsInteger(conv) && conv != 'b'
    ensures StandardInteger(conv, v, prec, width, f) == C99Conversion(conv, v, prec, width, f)
  {
    var unsigned := f.(plus := false, space := false);
    match conv
    case 'd' | 'i' => assert C99Flags(conv, f) == f.(hash := false);
    case 'o' | 'x' => assert C99Flags(conv, f) == unsigned;
    case 'X' => assert C99Flags(conv, f) == unsigned.(uppercase := true);
    case _ => assert C99Flags(conv, f) == unsigned.(hash := false);
  }

  // --- How the code reads a directive, in the standard's terms ---

  lemma MeaningReads(item: Item, args: seq<Arg>)
    requires item.Spec? && Fits(item, args)
    ensures Meaning(item, args).width == FieldWidth(item, args) % 0x1_0000_0000
    ensures Meaning(item, args).precision == GivenPrecision(item, args) % 0x1_0000_0000
    ensures Meaning(item, args).flags == GivenFlags(item, args).(precision := !item.precision.NoPrecision?)
  {
  }

  // --- Integers ---

  function Larger(m: nat, n: nat): nat {
    if m < n then n else m
  }

  lemma NtoaFits(digits: string, negative: bool, base: nat, prec: nat, width: nat, flags: Flags)
    requires |digits| <= 32
    ensures |NtoaFormat(digits, negative, base, prec, width, flags)| <= Larger(32, width)
  {
  }

  /** The code's field is short. */
  lemma CodeFits(conv: char, w: u64, d: Directive)
    requires IsInteger(conv)
    ensures |IntegerText(conv, w, d)| < 0x1_0000_0000
  {
    var v, flags := IntegerMagnitude(conv, w, d.size), IntegerFlags(conv, d.flags);
    NtoaFits(NtoaDigits(v, Base(conv), flags), IntegerNegative(conv, w, d.size), Base(conv), d.precision, d.width,
             NtoaFlags(v, flags));
  }

  lemma FieldFills(head: string, digits: string, width: nat, flags: Flags)
    ensures |C99Field(head, digits, width, flags)| == Larger(|head| + |digits|, width)
  {
  }

  /** The standard's field has room for width and precision. */
  lemma StandardFills(conv: char, v: int, prec: nat, width: nat, f: Flags)
    requires IsInteger(conv) && (f.precision || prec == 0)
    ensures |C99Conversion(conv, v, prec, width, f)| >= width
    ensures |C99Conversion(conv, v, prec, width, f)| >= prec
  {
    var m, flags := if v < 0 then -v else v, C99Flags(conv, f);
    var digits := C99Digits(m, Base(conv), flags.uppercase, if f.precision then prec else 1);
    FieldFills(C99Sign(v < 0, flags) + C99Prefix(m, Base(conv), flags), C99Octal(digits, Base(conv), flags), width, flags);
  }

  /** Agreement needs a precision far below 2^32. */
  lemma AgreesBounded(v: u64, negative: bool, base: nat, prec: nat, width: nat, flags: Flags)
    requires (base == 8 || base == 10 || base == 16) && flags.precision
    requires Agrees(v, negative, base, prec, width, flags)
    ensures prec <= 32
  {
    SameDigits(v, base, prec, flags);
  }

  lemma IntegerItem(item: Item, args: seq<Arg>)
    requires item.Spec? && IntegerSpecifier(item.conv) && Fits(item, args)
    ensures ItemText(item, args) == IntegerText(item.conv, args[StarCount(item)].w, Meaning(item, args))
    ensures StandardText(item, args)
         == C99Conversion(item.conv, IntegerValue(item, args), GivenPrecision(item, args), FieldWidth(item, args),
                          GivenFlags(item, args))
    ensures IntegerValue(item, args) == Converted(item.conv, args[StarCount(item)].w, Meaning(item, args).size)
  {
    CodeConverts(item.conv, args[StarCount(item)].w, item.size);
    TableOfSpecifiers(item.conv, IntegerValue(item, args), GivenPrecision(item, args), FieldWidth(item, args),
                      GivenFlags(item, args));
  }

  lemma DirectiveExactly(conv: char, w: u64, d: Directive, v: int, prec: nat, width: nat, f: Flags)
    requires IsInteger(conv) && conv != 'b' && !f.uppercase && (!f.precision ==> prec == 0)
    requires d.precision == prec && d.width == width && d.flags == f && v == Converted(conv, w, d.size)
    ensures IntegerText(conv, w, d) == C99Conversion(conv, v, prec, width, f)
       <==> Agrees(if v < 0 then -v else v, v < 0, Base(conv), prec, width, IntegerFlags(conv, f))
  {
    IntegerMeetsC99Exactly(conv, w, d);
  }

  lemma ReadAsGiven(item: Item, args: seq<Arg>)
    requires item.Spec? && Fits(item, args) && FieldWidth(item, args) < 0x1_0000_0000
    requires GivenPrecision(item, args) < 0x1_0000_0000
    ensures Meaning(item, args).width == FieldWidth(item, args)
    ensures Meaning(item, args).precision == GivenPrecision(item, args)
  {
    MeaningReads(item, args);
  }

  lemma FlagsAsGiven(item: Item, args: seq<Arg>)
    requires item.Spec? && Fits(item, args)
    ensures !NegativeStar(item, args) ==> Meaning(item, args).flags == GivenFlags(item, args)
    ensures NegativeStar(item, args) ==> Meaning(item, args).flags == GivenFlags(item, args).(precision := true)
    ensures !GivenFlags(item, args).uppercase && (!GivenFlags(item, args).precision ==> GivenPrecision(item, args) == 0)
  {
    MeaningReads(item, args);
  }

  lemma FittingIntegerExactly(item: Item, args: seq<Arg>)
    requires item.Spec? && IntegerSpecifier(item.conv) && Fits(item, args) && !NegativeStar(item, args)
    requires FieldWidth(item, args) < 0x1_0000_0000 && GivenPrecision(item, args) < 0x1_0000_0000
    ensures IntegerText(item.conv, args[StarCount(item)].w, Meaning(item, args))
         == C99Conversion(item.conv, IntegerValue(item, args), GivenPrecision(item, args), FieldWidth(item, args),
                          GivenFlags(item, args))
       <==> GivenAgrees(item, args)
  {
    ReadAsGiven(item, args);
    FlagsAsGiven(item, args);
    DirectiveExactly(item.conv, args[StarCount(item)].w, Meaning(item, args), IntegerValue(item, args),
                     GivenPrecision(item, args), FieldWidth(item, args), GivenFlags(item, args));
  }

  lemma IntegerInRange(item: Item, args: seq<Arg>)
    requires item.Spec? && IntegerSpecifier(item.conv) && Fits(item, args)
    ensures -0x8000_0000_0000_0000 <= IntegerValue(item, args) < 0x1_0000_0000_0000_0000
  {
    MagnitudeIsAbsolute(item.conv, args[StarCount(item)].w, SizeOf(item.size));
  }

  lemma HugePrecisionDisagrees(item: Item, args: seq<Arg>)
    requires item.Spec? && IntegerSpecifier(item.conv) && Fits(item, args) && !NegativeStar(item, args)
    requires GivenPrecision(item, args) >= 0x1_0000_0000
    ensures !GivenAgrees(item, args)
  {
    var v, flags := IntegerValue(item, args), GivenFlags(item, args);
    var passed := IntegerFlags(item.conv, flags);
    IntegerInRange(item, args);
    var m: u64 := if v < 0 then -v else v;
    assert passed.precision;
    if Agrees(m, v < 0, Base(item.conv), GivenPrecision(item, args), FieldWidth(item, args), passed) {
      AgreesBounded(m, v < 0, Base(item.conv), GivenPrecision(item, args), FieldWidth(item, args), passed);
    }
  }

  /** A width or a precision that does not fit 32 bits asks for more than the code ever prints. */
  lemma HugeFieldsDiffer(item: Item, args: seq<Arg>)
    requires item.Spec? && IntegerSpecifier(item.conv) && Fits(item, args)
    requires FieldWidth(item, args) >= 0x1_0000_0000 || GivenPrecision(item, args) >= 0x1_0000_0000
    ensures ItemText(item, args) != StandardText(item, args)
  {
    IntegerItem(item, args);
    CodeFits(item.conv, args[StarCount(item)].w, Meaning(item, args));
    StandardFills(item.conv, IntegerValue(item, args), GivenPrecision(item, args), FieldWidth(item, args),
                  GivenFlags(item, args));
  }

  lemma PlainIntegerExactly(item: Item, args: seq<Arg>)
    requires item.Spec? && IntegerSpecifier(item.conv) && Fits(item, args) && !NegativeStar(item, args)
    ensures ItemText(item, args) == StandardText(item, args) <==> IntegerAgrees(item, args)
  {
    if FieldWidth(item, args) < 0x1_0000_0000 && GivenPrecision(item, args) < 0x1_0000_0000 {
      IntegerItem(item, args);
      FittingIntegerExactly(item, args);
    } else {
      HugeFieldsDiffer(item, args);
      if GivenPrecision(item, args) >= 0x1_0000_0000 {
        HugePrecisionDisagrees(item, args);
      }
    }
  }

  /** A precision 0 next to a nonzero number changes nothing but the padding. */
  lemma NonzeroAgrees(v: u64, negative: bool, base: nat, width: nat, flags: Flags)
    requires v != 0 && (base == 8 || base == 10 || base == 16) && flags.precision
    ensures Agrees(v, negative, base, 0, width, flags)
  {
  }

  /** Nothing, a sign, or 0x. */
  predicate IsHead(head: string) {
    head == "" || head[0] == '0' || |head| == 1
  }

  /** Zeros behind the head or spaces before it: that shows unless nothing is padded. */
  lemma FieldPadding(head: string, digits: string, width: nat, f: Flags)
    requires !f.precision && IsHead(head)
    ensures C99Field(head, digits, width, f.(precision := true)) == C99Field(head, digits, width, f)
       <==> f.left || !f.zeropad || width <= |head| + |digits|
  {
    var n := AtLeast(|head| + |digits|, width);
    if !f.left && f.zeropad && n > 0 {
      PaddingDiffers(head, digits, n);
    }
  }

  lemma PaddingDiffers(head: string, digits: string, n: nat)
    requires n > 0 && IsHead(head)
    ensures Repeat(' ', n) + (head + digits) != head + (Repeat('0', n) + digits)
  {
    var spaced, zeroed := Repeat(' ', n) + (head + digits), head + (Repeat('0', n) + digits);
    if |head| == 1 && head[0] != '0' {
      assert zeroed[1] == '0';
      assert spaced[1] == if n == 1 then head[0] else ' ';
    } else {
      assert zeroed[0] == '0' && spaced[0] == ' ';
    }
  }

  lemma HeadOf(conv: char, v: int, f: Flags)
    requires IsInteger(conv) && (v < 0 ==> IsSigned(conv))
    ensures var flags := C99Flags(conv, f);
      IsHead(C99Sign(v < 0, flags) + C99Prefix(if v < 0 then -v else v, Base(conv), flags))
  {
  }

  lemma SameNumber(v: nat, base: nat, upper: bool)
    requires Numeric(base) && v != 0
    ensures C99Digits(v, base, upper, 0) == C99Digits(v, base, upper, 1)
  {
  }

  /** The standard's field, with its parts named. */
  lemma ConversionIsField(conv: char, v: int, width: nat, f: Flags, head: string, digits: string)
    requires IsInteger(conv) && v != 0
    requires var m, flags := if v < 0 then -v else v, C99Flags(conv, f);
      && head == C99Sign(v < 0, flags) + C99Prefix(m, Base(conv), flags)
      && digits == C99Octal(C99Digits(m, Base(conv), flags.uppercase, 1), Base(conv), flags)
    ensures C99Conversion(conv, v, 0, width, f) == C99Field(head, digits, width, C99Flags(conv, f))
  {
    SameNumber(if v < 0 then -v else v, Base(conv), C99Flags(conv, f).uppercase);
  }

  lemma PaddingShows(conv: char, v: int, width: nat, f: Flags)
    requires IsInteger(conv) && v != 0 && (v < 0 ==> IsSigned(conv)) && !f.precision
    ensures C99Conversion(conv, v, 0, width, f.(precision := true)) == C99Conversion(conv, v, 0, width, f)
       <==> f.left || !f.zeropad || width <= |C99Conversion(conv, v, 0, 0, f)|
  {
    var m, flags := if v < 0 then -v else v, C99Flags(conv, f);
    var head := C99Sign(v < 0, flags) + C99Prefix(m, Base(conv), flags);
    var digits := C99Octal(C99Digits(m, Base(conv), flags.uppercase, 1), Base(conv), flags);
    HeadOf(conv, v, f);
    ConversionIsField(conv, v, width, f.(precision := true), head, digits);
    ConversionIsField(conv, v, width, f, head, digits);
    ConversionIsField(conv, v, 0, f, head, digits);
    FieldPadding(head, digits, width, flags);
    FieldFills(head, digits, 0, flags);
  }

  lemma PrecisionZeroExactly(conv: char, w: u64, d: Directive, v: int, width: nat, f: Flags)
    requires IsInteger(conv) && conv != 'b' && !f.uppercase && !f.precision && v != 0
    requires d.precision == 0 && d.width == width && d.flags == f.(precision := true)
    requires v == Converted(conv, w, d.size)
    ensures IntegerText(conv, w, d) == C99Conversion(conv, v, 0, width, f)
       <==> f.left || !f.zeropad || width <= |C99Conversion(conv, v, 0, 0, f)|
  {
    MagnitudeIsAbsolute(conv, w, d.size);
    NonzeroAgrees(if v < 0 then -v else v, v < 0, Base(conv), width, IntegerFlags(conv, d.flags));
    DirectiveExactly(conv, w, d, v, 0, width, d.flags);
    PaddingShows(conv, v, width, f);
  }

  lemma NegativePrecisionOfNumber(item: Item, args: seq<Arg>)
    requires item.Spec? && IntegerSpecifier(item.conv) && Fits(item, args) && NegativeStar(item, args)
    requires IntegerValue(item, args) != 0 && FieldWidth(item, args) < 0x1_0000_0000
    ensures ItemText(item, args) == StandardText(item, args) <==> IntegerAgrees(item, args)
  {
    IntegerItem(item, args);
    ReadAsGiven(item, args);
    FlagsAsGiven(item, args);
    TableOfSpecifiers(item.conv, IntegerValue(item, args), 0, 0, GivenFlags(item, args));
    PrecisionZeroExactly(item.conv, args[StarCount(item)].w, Meaning(item, args), IntegerValue(item, args),
                         FieldWidth(item, args), GivenFlags(item, args));
  }

  predicate Has(c: char, s: string) {
    exists k :: 0 <= k < |s| && s[k] == c
  }

  lemma NoDigits(base: nat, width: nat, flags: Flags)
    requires flags.precision && !flags.zeropad && !flags.hash
    ensures !Has('0', NtoaFormat("", false, base, 0, width, flags))
  {
  }

  lemma ZeroInField(head: string, width: nat, flags: Flags)
    ensures Has('0', C99Field(head, "0", width, flags))
  {
    var field := C99Field(head, "0", width, flags);
    var fill := AtLeast(|head| + 1, width);
    if flags.left {
      assert field == head + "0" + Repeat(' ', fill);
      assert field[|head|] == '0';
    } else if flags.zeropad && !flags.precision {
      assert field[|head| + fill] == '0';
    } else {
      assert field[fill + |head|] == '0';
    }
  }

  lemma ZeroUnprinted(conv: char, w: u64, d: Directive)
    requires IsInteger(conv) && Converted(conv, w, d.size) == 0 && d.precision == 0 && d.flags.precision
    ensures !Has('0', IntegerText(conv, w, d))
  {
    MagnitudeIsAbsolute(conv, w, d.size);
    NoDigits(Base(conv), d.width, NtoaFlags(0, IntegerFlags(conv, d.flags)));
  }

  lemma ZeroDigit(conv: char, f: Flags)
    requires IsInteger(conv)
    ensures C99Octal(C99Digits(0, Base(conv), conv == 'X', 1), Base(conv), C99Flags(conv, f)) == "0"
  {
  }

  lemma ZeroPrinted(conv: char, width: nat, f: Flags)
    requires IsInteger(conv) && !f.precision
    ensures Has('0', C99Conversion(conv, 0, 0, width, f))
  {
    var flags := C99Flags(conv, f);
    ZeroDigit(conv, f);
    ZeroInField(C99Sign(false, flags) + C99Prefix(0, Base(conv), flags), width, flags);
  }

  /** Without its one digit, zero is lost. */
  lemma NegativePrecisionOfZero(item: Item, args: seq<Arg>)
    requires item.Spec? && IntegerSpecifier(item.conv) && Fits(item, args) && NegativeStar(item, args)
    requires IntegerValue(item, args) == 0
    ensures ItemText(item, args) != StandardText(item, args)
  {
    IntegerItem(item, args);
    FlagsAsGiven(item, args);
    ZeroUnprinted(item.conv, args[StarCount(item)].w, Meaning(item, args));
    ZeroPrinted(item.conv, FieldWidth(item, args), GivenFlags(item, args));
  }

  lemma IntegerExactly(item: Item, args: seq<Arg>)
    requires item.Spec? && IntegerSpecifier(item.conv) && Fits(item, args)
    ensures ItemText(item, args) == StandardText(item, args) <==> IntegerAgrees(item, args)
  {
    if !NegativeStar(item, args) {
      PlainIntegerExactly(item, args);
    } else if FieldWidth(item, args) >= 0x1_0000_0000 {
      HugeFieldsDiffer(item, args);
    } else if IntegerValue(item, args) == 0 {
      NegativePrecisionOfZero(item, args);
    } else {
      NegativePrecisionOfNumber(item, args);
    }
  }

  // --- Strings and characters ---

  /** Padding computed in 32 bits is right in these cases only. */
  lemma PaddingExactly(n: nat, width: nat)
    ensures AtLeast(n % 0x1_0000_0000, width % 0x1_0000_0000) == AtLeast(n, width)
       <==> PaddingAgrees(n, width)
  {
  }

  lemma JustifiedLength(text: string, l: nat, width: nat, left: bool)
    ensures |Justified(text, l, width, left)| == |text| + AtLeast(l, width)
  {
  }

  lemma WholeExactly(text: string, l: nat, w: nat, width: nat, left: bool)
    requires l == |text| % 0x1_0000_0000 && w == width % 0x1_0000_0000
    ensures Justified(text, l, w, left) == Field(text, width, left) <==> PaddingAgrees(|text|, width)
  {
    PaddingExactly(|text|, width);
    JustifiedLength(text, l, w, left);
    JustifiedLength(text, |text|, width, left);
  }

  /** A field of blanks looks the same with any text of blanks in it. */
  lemma BlankFields(text: string, cut: nat, width: nat, left: bool)
    requires cut < |text| <= width
    ensures Justified(text[..cut], cut, width, left) == Field(text, width, left)
       <==> Blank(if left then text[cut..] else text)
  {
    var code, spec := Justified(text[..cut], cut, width, left), Field(text, width, left);
    assert |code| == |spec| == width;
    if left {
      assert forall k :: cut <= k < |text| ==> spec[k] == text[k] && code[k] == ' ';
      if code == spec {
        forall k | 0 <= k < |text| - cut ensures text[cut..][k] == ' ' {
          assert spec[cut + k] == text[cut + k];
        }
      }
      if Blank(text[cut..]) {
        forall k | 0 <= k < width ensures code[k] == spec[k] {
          if cut <= k < |text| {
            assert text[cut..][k - cut] == ' ';
          }
        }
      }
    } else {
      if code == spec {
        BlankFromRight(text, cut, width, |text|);
      }
    }
  }

  /** Printed on the right, the text would be its own beginning some places on: it has to be blank. */
  lemma {:induction false} BlankFromRight(text: string, cut: nat, width: nat, n: nat)
    requires cut < |text| <= width && n <= |text|
    requires Justified(text[..cut], cut, width, false) == Field(text, width, false)
    ensures Blank(text[..n])
    decreases n
  {
    if n > 0 {
      BlankFromRight(text, cut, width, n - 1);
      var shift, k := |text| - cut, width - |text| + n - 1;
      assert Field(text, width, false)[k] == text[n - 1];
      assert Justified(text[..cut], cut, width, false)[k] == if n - 1 < shift then ' ' else text[n - 1 - shift];
      if n - 1 >= shift {
        assert text[..n - 1][n - 1 - shift] == ' ';
      }
    }
  }

  lemma CutExactly(text: string, cut: nat, w: nat, width: nat, left: bool)
    requires cut < |text| && cut < 0x1_0000_0000 && w <= width && (w == width <==> width < 0x1_0000_0000)
    ensures Justified(text[..cut], cut, w, left) == Field(text, width, left)
       <==> |text| <= width < 0x1_0000_0000 && Blank(if left then text[cut..] else text)
  {
    JustifiedLength(text[..cut], cut, w, left);
    JustifiedLength(text, |text|, width, left);
    if |text| <= width < 0x1_0000_0000 {
      BlankFields(text, cut, width, left);
    }
  }

  lemma Remainders(n: nat)
    ensures n % 0x1_0000_0000 <= n && (n % 0x1_0000_0000 == n <==> n < 0x1_0000_0000)
  {
  }

  /** With a precision, the code prints and counts the same characters. */
  lemma ShownWithPrecision(p: string, precision: u32, width: nat, flags: Flags)
    requires flags.precision
    ensures var n := if |p| <= precision then |p| else precision;
      StringText(p, precision, width, flags) == Justified(p[..n], n % 0x1_0000_0000, width, flags.left)
  {
    var n := if |p| <= precision then |p| else precision;
    assert n < 0x1_0000_0000;
    assert Shown(p, precision, flags) == p[..n];
    assert StringLength(p, precision, flags) == n;
  }

  lemma ShownWithoutPrecision(p: string, width: nat, flags: Flags)
    requires !flags.precision
    ensures StringText(p, 0, width, flags) == Justified(p[..|p|], |p| % 0x1_0000_0000, width, flags.left)
  {
    assert p[..|p|] == p;
  }

  lemma CutOfText(item: Item, args: seq<Arg>)
    requires item.Spec? && item.conv == 's' && Fits(item, args)
    ensures var p, text, cut := args[StarCount(item)].s, StandardString(item, args), Cut(item, args);
      cut <= |p| && text[..cut] == p[..cut] && (cut < |text| ==> cut < 0x1_0000_0000)
  {
  }

  lemma StringItem(item: Item, args: seq<Arg>)
    requires Standard(item) && item.Spec? && item.conv == 's' && Fits(item, args)
    ensures var d := Meaning(item, args);
      ItemText(item, args) == StringText(args[StarCount(item)].s, d.precision, d.width, d.flags)
    ensures StandardText(item, args)
         == Field(StandardString(item, args), FieldWidth(item, args), GivenFlags(item, args).left)
  {
  }

  lemma StringRead(item: Item, args: seq<Arg>)
    requires Standard(item) && item.Spec? && item.conv == 's' && Fits(item, args)
    ensures var p, cut := args[StarCount(item)].s, Cut(item, args);
      cut <= |p| && ItemText(item, args) == Justified(p[..cut], cut % 0x1_0000_0000,
                                                     FieldWidth(item, args) % 0x1_0000_0000, GivenFlags(item, args).left)
  {
    var p, d := args[StarCount(item)].s, Meaning(item, args);
    StringItem(item, args);
    MeaningReads(item, args);
    if item.precision.NoPrecision? {
      ShownWithoutPrecision(p, d.width, d.flags);
    } else {
      ShownWithPrecision(p, d.precision, d.width, d.flags);
    }
  }

  lemma FieldExactly(text: string, cut: nat, l: nat, w: nat, width: nat, left: bool)
    requires cut <= |text| && (cut < |text| ==> cut < 0x1_0000_0000)
    requires l == cut % 0x1_0000_0000 && w == width % 0x1_0000_0000
    ensures Justified(text[..cut], l, w, left) == Field(text, width, left) <==> StringAgrees(text, cut, width, left)
  {
    if cut == |text| {
      assert text[..cut] == text;
      WholeExactly(text, l, w, width, left);
    } else {
      Remainders(cut);
      Remainders(width);
      CutExactly(text, cut, w, width, left);
    }
  }

  lemma StringExactly(item: Item, args: seq<Arg>)
    requires Standard(item) && item.Spec? && item.conv == 's' && Fits(item, args)
    ensures ItemText(item, args) == StandardText(item, args) <==> ItemAgrees(item, args)
  {
    StringItem(item, args);
    StringRead(item, args);
    CutOfText(item, args);
    var cut, width := Cut(item, args), FieldWidth(item, args);
    FieldExactly(StandardString(item, args), cut, cut % 0x1_0000_0000, width % 0x1_0000_0000, width,
                 GivenFlags(item, args).left);
  }

  lemma CharExactly(item: Item, args: seq<Arg>)
    requires Standard(item) && item.Spec? && item.conv == 'c' && Fits(item, args)
    ensures ItemText(item, args) == StandardText(item, args) <==> FieldWidth(item, args) < 0x1_0000_0000
  {
    MeaningReads(item, args);
    var c := [(args[StarCount(item)].w % 0x100) as char];
    var width, left := FieldWidth(item, args), GivenFlags(item, args).left;
    assert ItemText(item, args) == Justified(c, 1, width % 0x1_0000_0000, left);
    JustifiedLength(c, 1, width % 0x1_0000_0000, left);
    JustifiedLength(c, 1, width, left);
  }

  // --- The theorem ---

  /** A directive prints what the standard describes exactly when ItemAgrees holds of the directive and
      its arguments. */
  lemma ItemMeetsC99Exactly(item: Item, args: seq<Arg>)
    requires Standard(item) && Fits(item, args)
    ensures ItemText(item, args) == StandardText(item, args) <==> ItemAgrees(item, args)
  {
    if item.Spec? {
      if IntegerSpecifier(item.conv) {
        IntegerExactly(item, args);
      } else if item.conv == 'c' {
        CharExactly(item, args);
      } else if item.conv == 's' {
        StringExactly(item, args);
      }
    }
  }

  predicate AllAgree(f: Format, args: seq<seq<Arg>>)
    requires AllFit(f, args)
  {
    forall k :: 0 <= k < |f| ==> Standard(f[k]) && ItemAgrees(f[k], args[k])
  }

  /** What the standard prints for a whole format. */
  function StandardOutput(f: Format, args: seq<seq<Arg>>): string
    requires AllFit(f, args) && forall k :: 0 <= k < |f| ==> Standard(f[k])
  {
    Concat(seq(|f|, k requires 0 <= k < |f| => StandardText(f[k], args[k])))
  }

  /** A format all of whose directives agree prints what the standard describes. */
  lemma FormatMeetsC99(f: Format, args: seq<seq<Arg>>)
    requires AllWellFormed(f) && AllFit(f, args) && AllAgree(f, args)
    ensures Output(FormatString(f), Flatten(args)) == Text(StandardOutput(f, args))
  {
    FormatPrintsAll(f, args);
    forall k | 0 <= k < |f| ensures ItemText(f[k], args[k]) == StandardText(f[k], args[k]) {
      ItemMeetsC99Exactly(f[k], args[k]);
    }
    assert seq(|f|, k requires 0 <= k < |f| => ItemText(f[k], args[k]))
        == seq(|f|, k requires 0 <= k < |f| => StandardText(f[k], args[k]));
  }

  // --- Inputs that fail ---

  const MINUS_ONE: Arg := Word(0xFFFF_FFFF_FFFF_FFFF)

  predicate StarZero(item: Item, args: seq<Arg>) {
    item == Spec("", NoWidth, DotStar, NoModifier, 'd') && args == [MINUS_ONE, Word(0)]
  }

  lemma StarZeroFits(item: Item, args: seq<Arg>)
    requires StarZero(item, args)
    ensures WellFormed(item) && Fits(item, args) && Standard(item) && Written(item) == "%.*d"
  {
  }

  lemma StarZeroRead(item: Item, args: seq<Arg>)
    requires StarZero(item, args) && Fits(item, args)
    ensures ItemText(item, args) == NtoaFormat("", false, 10, 0, 0, NO_FLAGS.(precision := true))
    ensures StandardText(item, args) == C99Conversion('d', 0, 0, 0, NO_FLAGS)
  {
  }

  lemma StarZeroTexts()
    ensures NtoaFormat("", false, 10, 0, 0, NO_FLAGS.(precision := true)) == ""
    ensures C99Conversion('d', 0, 0, 0, NO_FLAGS) == "0"
  {
    assert C99Digits(0, 10, false, 1) == "0";
  }

  /** "%.*d" with -1 and 0 prints nothing. */
  lemma NegativePrecisionLosesZero(item: Item, args: seq<Arg>)
    requires StarZero(item, args)
    ensures WellFormed(item) && Fits(item, args) && Standard(item) && Written(item) == "%.*d"
    ensures ItemText(item, args) == "" && StandardText(item, args) == "0"
  {
    StarZeroFits(item, args);
    StarZeroRead(item, args);
    StarZeroTexts();
  }

  /** "%.*s" with -1 and "abc" prints nothing. */
  lemma NegativePrecisionLosesText()
    ensures var item, args := Spec("", NoWidth, DotStar, NoModifier, 's'), [MINUS_ONE, Str("abc")];
      && WellFormed(item) && Fits(item, args) && Written(item) == "%.*s"
      && ItemText(item, args) == "" && StandardText(item, args) == "abc"
  {
  }

  lemma NumberedWidth(width: nat) returns (item: Item)
    requires width > 0
    ensures item == Spec("", Fixed(Numeral(width, 10, false)), NoPrecision, NoModifier, 'd')
    ensures WellFormed(item) && Value(item.width.digits, 10) == width
  {
    var ds := Numeral(width, 10, false);
    NumeralReadsBack(width, 10, false);
    NumeralIsDigits(width, false);
    NumeralLeads(width, 10, false);
    assert ds[0] != '0' && (ds + "d")[0] == ds[0];
    item := Spec("", Fixed(ds), NoPrecision, NoModifier, 'd');
  }

  /** Every width beyond 32 bits is cut: "%4294967297d" has width 1. */
  lemma WideFieldsAreCut(width: nat, arg: Arg) returns (item: Item)
    requires width >= 0x1_0000_0000 && arg.Word?
    ensures WellFormed(item) && Fits(item, [arg]) && item.Spec? && item.conv == 'd' && FieldWidth(item, [arg]) == width
    ensures ItemText(item, [arg]) != StandardText(item, [arg])
  {
    item := NumberedWidth(width);
    HugeFieldsDiffer(item, [arg]);
  }
}
