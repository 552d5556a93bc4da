/** Format strings of lib/printf.c: how _vsnprintf reads them, what it prints for them, and the
    directives they are made of. */
module Formats {
  import opened Machine
  import opened Digits
  import opened Conversions

  /** A NUL-terminated string in a 64-bit address space, without its terminator. */
  type CString = s: string | '\0' !in s && |s| < 0x1_0000_0000_0000_0000

  /** One variadic argument: an 8-byte integer slot, or a pointer to a C string. */
  datatype Arg = Word(w: u64) | Str(s: CString)

  datatype Size = Int | Char | Short | Long | LongLong

  /** What the C code leaves undefined: stepping over the terminator, or fetching an argument that is
      not there or not of the right kind. */
  datatype Fault = PastFormat | BadArgument

  /** The whole output, unless a fault stops it. */
  datatype Outcome = Text(text: string) | Faulty(why: Fault)

  function Then(before: string, o: Outcome): Outcome {
    match o
    case Text(t) => Text(before + t)
    case Faulty(_) => o
  }

  // --- Arguments ---

  /** va_arg(va, int) and the narrowing casts: the low bytes in two's complement. */
  function SignedArg(w: u64, size: Size): int {
    match size
    case Int => var x := w % 0x1_0000_0000; if x < 0x8000_0000 then x else x - 0x1_0000_0000
    case Char => var x := w % 0x100; if x < 0x80 then x else x - 0x100
    case Short => var x := w % 0x1_0000; if x < 0x8000 then x else x - 0x1_0000
    case Long | LongLong => if w < 0x8000_0000_0000_0000 then w else w - 0x1_0000_0000_0000_0000
  }

  function UnsignedArg(w: u64, size: Size): u64 {
    match size
    case Int => w % 0x1_0000_0000
    case Char => w % 0x100
    case Short => w % 0x1_0000
    case Long | LongLong => w
  }

  /** (unsigned)(value > 0 ? value : 0 - value) at the width of the conversion. */
  function Magnitude(value: int, size: Size): u64 {
    var m := if value > 0 then value else 0 - value;
    if size.Long? || size.LongLong? then Wrap64(m) else Wrap32(m)
  }

  // --- Reading a directive; every stage returns the rest of the format ---

  predicate IsFlag(c: char) {
    c == '0' || c == '-' || c == '+' || c == ' ' || c == '#'
  }

  function SetFlag(c: char, f: Flags): Flags {
    if c == '0' then f.(zeropad := true)
    else if c == '-' then f.(left := true)
    else if c == '+' then f.(plus := true)
    else if c == ' ' then f.(space := true)
    else if c == '#' then f.(hash := true)
    else f
  }

  function TakeFlags(s: string, f: Flags): (r: (Flags, string))
    ensures |r.1| <= |s| && (r.1 == "" || !IsFlag(r.1[0]))
    decreases |s|
  {
    if s == "" || !IsFlag(s[0]) then (f, s) else TakeFlags(s[1..], SetFlag(s[0], f))
  }

  /** _atoi: digits as long as there are any, modulo 2^32. */
  function TakeNumber(s: string, i: u32): (r: (u32, string))
    ensures |r.1| <= |s| && (r.1 == "" || !IsDigit(r.1[0]))
    decreases |s|
  {
    if s == "" || !IsDigit(s[0]) then (i, s)
    else TakeNumber(s[1..], Wrap32(i * 10 + DigitValue(s[0])))
  }

  /** What has been read of a directive, and what is left of the format and of the arguments. */
  datatype Directive = Directive(flags: Flags, width: u32, precision: u32, size: Size, rest: string, args: seq<Arg>)

  datatype Reading = Read(d: Directive) | Broken(why: Fault)

  predicate HasWord(args: seq<Arg>) {
    args != [] && args[0].Word?
  }

  function TakeWidth(f: Flags, s: string, args: seq<Arg>): (r: Reading)
    ensures r.Read? ==> |r.d.rest| <= |s|
  {
    if s != "" && IsDigit(s[0]) then
      var (width, rest) := TakeNumber(s, 0);
      Read(Directive(f, width, 0, Int, rest, args))
    else if s != "" && s[0] == '*' then
      if !HasWord(args) then Broken(BadArgument)
      else
        var w := SignedArg(args[0].w, Int);
        Read(Directive(if w < 0 then f.(left := true) else f, Wrap32(if w < 0 then -w else w), 0, Int, s[1..], args[1..]))
    else Read(Directive(f, 0, 0, Int, s, args))
  }

  function TakePrecision(d: Directive): (r: Reading)
    ensures r.Read? ==> |r.d.rest| <= |d.rest|
  {
    if d.rest == "" || d.rest[0] != '.' then Read(d)
    else
      var d := d.(flags := d.flags.(precision := true), rest := d.rest[1..]);
      if d.rest != "" && IsDigit(d.rest[0]) then
        var (precision, rest) := TakeNumber(d.rest, 0);
        Read(d.(precision := precision, rest := rest))
      else if d.rest != "" && d.rest[0] == '*' then
        if !HasWord(d.args) then Broken(BadArgument)
        else
          var p := SignedArg(d.args[0].w, Int);
          Read(d.(precision := if p > 0 then p else 0, rest := d.rest[1..], args := d.args[1..]))
      else Read(d)
  }

  function TakeSize(d: Directive): (r: Directive)
    ensures |r.rest| <= |d.rest|
  {
    if d.rest == "" then d
    else if d.rest[0] == 'l' then
      if |d.rest| > 1 && d.rest[1] == 'l' then d.(size := LongLong, rest := d.rest[2..])
      else d.(size := Long, rest := d.rest[1..])
    else if d.rest[0] == 'h' then
      if |d.rest| > 1 && d.rest[1] == 'h' then d.(size := Char, rest := d.rest[2..])
      else d.(size := Short, rest := d.rest[1..])
    else if d.rest[0] == 't' || d.rest[0] == 'j' || d.rest[0] == 'z' then d.(size := Long, rest := d.rest[1..])
    else d
  }

  const NO_FLAGS: Flags := Flags(false, false, false, false, false, false, false)

  /** Everything between the percent sign and the conversion specifier. */
  function TakeDirective(s: string, args: seq<Arg>): (r: Reading)
    ensures r.Read? ==> |r.d.rest| <= |s|
  {
    var (flags, rest) := TakeFlags(s, NO_FLAGS);
    var r := TakeWidth(flags, rest, args);
    if r.Broken? then r
    else
      var r := TakePrecision(r.d);
      if r.Broken? then r else Read(TakeSize(r.d))
  }

  // --- Converting ---

  function Base(c: char): nat {
    if c == 'x' || c == 'X' then 16 else if c == 'o' then 8 else if c == 'b' then 2 else 10
  }

  predicate IsInteger(c: char) {
    c == 'd' || c == 'i' || c == 'u' || c == 'x' || c == 'X' || c == 'o' || c == 'b'
  }

  /** The flags an integer conversion passes on. */
  function IntegerFlags(c: char, f: Flags): Flags {
    var f := if Base(c) == 10 then f.(hash := false) else f;
    var f := if c == 'X' then f.(uppercase := true) else f;
    var f := if c != 'i' && c != 'd' then f.(plus := false, space := false) else f;
    if f.precision then f.(zeropad := false) else f
  }

  predicate IsSigned(c: char) {
    c == 'i' || c == 'd'
  }

  function IntegerMagnitude(c: char, w: u64, size: Size): u64 {
    if IsSigned(c) then Magnitude(SignedArg(w, size), size) else UnsignedArg(w, size)
  }

  predicate IntegerNegative(c: char, w: u64, size: Size) {
    IsSigned(c) && SignedArg(w, size) < 0
  }

  function IntegerText(c: char, w: u64, d: Directive): string {
    Ntoa(IntegerMagnitude(c, w, d.size), IntegerNegative(c, w, d.size), Base(c), d.precision, d.width,
         IntegerFlags(c, d.flags))
  }

  function CharText(w: u64, width: nat, left: bool): string {
    var pad := Repeat(' ', AtLeast(1, width));
    if left then [(w % 0x100) as char] + pad else pad + [(w % 0x100) as char]
  }

  /** The length %s pads for: counted up to a nonzero precision, in 32 bits. */
  function StringLength(p: string, precision: u32, flags: Flags): u32 {
    var l := Wrap32(if 0 < precision < |p| then precision else |p|);
    if flags.precision && precision < l then precision else l
  }

  /** The characters %s prints. */
  function Shown(p: string, precision: u32, flags: Flags): string {
    if flags.precision && precision < |p| then p[..precision] else p
  }

  /** Text of counted length l, padded with spaces on one side. */
  function Justified(text: string, l: nat, width: nat, left: bool): string {
    var pad := Repeat(' ', AtLeast(l, width));
    if left then text + pad else pad + text
  }

  function StringText(p: string, precision: u32, width: nat, flags: Flags): string {
    Justified(Shown(p, precision, flags), StringLength(p, precision, flags), width, flags.left)
  }

  function PointerText(w: u64, d: Directive): string
  {
    Ntoa(w, false, 16, d.precision, 16, d.flags.(zeropad := true, uppercase := true))
  }

  datatype Conversion = Conversion(text: string, args: seq<Arg>) | Failed(why: Fault)

  function Convert(c: char, d: Directive): Conversion
  {
    if IsInteger(c) then
      if HasWord(d.args) then Conversion(IntegerText(c, d.args[0].w, d), d.args[1..]) else Failed(BadArgument)
    else if c == 'c' then
      if HasWord(d.args) then Conversion(CharText(d.args[0].w, d.width, d.flags.left), d.args[1..])
      else Failed(BadArgument)
    else if c == 's' then
      if d.args != [] && d.args[0].Str? then
        Conversion(StringText(d.args[0].s, d.precision, d.width, d.flags), d.args[1..])
      else Failed(BadArgument)
    else if c == 'p' then
      if HasWord(d.args) then Conversion(PointerText(d.args[0].w, d), d.args[1..]) else Failed(BadArgument)
    else Conversion([c], d.args)
  }

  /** One turn of the loop of _vsnprintf: a character or a directive, and what is left after it. */
  datatype Turn = Printed(text: string, rest: string, args: seq<Arg>) | Stopped(why: Fault)

  type Converter = (char, Directive) -> Conversion
  type Turner = (string, seq<Arg>) -> Turn

  /** What happens behind a percent sign. */
  function DirectiveTurn(convert: Converter, s: string, args: seq<Arg>): Turn {
    var r := TakeDirective(s, args);
    if r.Broken? then Stopped(r.why)
    else if r.d.rest == "" then Stopped(PastFormat)
    else
      var c := convert(r.d.rest[0], r.d);
      if c.Failed? then Stopped(c.why) else Printed(c.text, r.d.rest[1..], c.args)
  }

  function TurnWith(convert: Converter, s: string, args: seq<Arg>): Turn {
    if s == "" then Stopped(PastFormat)
    else if s[0] != '%' then Printed([s[0]], s[1..], args)
    else DirectiveTurn(convert, s[1..], args)
  }

  /** The loop, turn by turn, up to the end of the format. */
  function LoopWith(turn: Turner, s: string, args: seq<Arg>): Outcome
    decreases |s|
  {
    if s == "" then Text("")
    else
      match turn(s, args)
      case Stopped(why) => Faulty(why)
      case Printed(text, rest, left) =>
        if |rest| < |s| then Then(text, LoopWith(turn, rest, left)) else Faulty(PastFormat)
  }

  const CONVERT: Converter := (c, d) => Convert(c, d)
  const TURN: Turner := (s, args) => TurnWith(CONVERT, s, args)

  /** What _vsnprintf prints for the rest of a format and the rest of the arguments. */
  function Output(s: string, args: seq<Arg>): Outcome {
    LoopWith(TURN, s, args)
  }

  /** Every turn leaves less of the format. */
  lemma TurnsShrink(convert: Converter, s: string, args: seq<Arg>)
    ensures TurnWith(convert, s, args).Printed? ==> |TurnWith(convert, s, args).rest| < |s|
  {
  }

  lemma ThenNothing(o: Outcome)
    ensures Then("", o) == o
  {
    if o.Text? {
      assert "" + o.text == o.text;
    }
  }

  lemma ThenThen(a: string, b: string, o: Outcome)
    ensures Then(a, Then(b, o)) == Then(a + b, o)
  {
    if o.Text? {
      assert a + (b + o.text) == a + b + o.text;
    }
  }

  /** The output is that of the first turn, then that of the rest. */
  lemma OutputTurn(s: string, args: seq<Arg>)
    requires s != ""
    ensures match TURN(s, args)
      case Stopped(why) => Output(s, args) == Faulty(why)
      case Printed(text, rest, left) => Output(s, args) == Then(text, Output(rest, left))
  {
    TurnsShrink(CONVERT, s, args);
  }
}
