/** The printf engine of lib/printf.c, as it runs: a scratch buffer filled backwards, a format walked
    by an index, and output functions that get one character at a time. */
module Printf {
  import opened Machine
  import opened Digits
  import opened Conversions
  import opened Formats
  import opened Terminal

  /** The output functions: into a bounded buffer, nowhere, or to the screen. */
  datatype Kind = Buffer | Nowhere | Screen

  /** Where characters end up: those below maxlen in the buffer, the rest of it untouched. */
  function Stored(before: string, log: string, maxlen: nat): (r: string)
    ensures |r| == |before|
  {
    seq(|before|, i requires 0 <= i < |before| => if i < maxlen && i < |log| then log[i] else before[i])
  }

  /** putch is not called for NUL. */
  function Visible(log: string): string {
    if log == "" then ""
    else Visible(log[..|log| - 1]) + (if log[|log| - 1] == '\0' then "" else [log[|log| - 1]])
  }

  /** The bytes putch gets. */
  function Bytes(s: string): seq<u8> {
    seq(|s|, i requires 0 <= i < |s| => s[i] as int % 0x100)
  }

  /** What is visible: everything but the NULs, in order. */
  lemma {:induction false} VisibleExactly(s: string)
    ensures '\0' !in Visible(s) && ('\0' !in s ==> Visible(s) == s)
    ensures s != "" ==>
      Visible(s) == Visible(s[..|s| - 1]) + (if s[|s| - 1] == '\0' then "" else [s[|s| - 1]])
  {
    if s != "" {
      VisibleExactly(s[..|s| - 1]);
      assert s == s[..|s| - 1] + [s[|s| - 1]];
    }
  }

  /** Characters are bytes: one each, of the same value. */
  lemma BytesExactly(s: string)
    ensures |Bytes(s)| == |s|
    ensures forall i :: 0 <= i < |s| && s[i] as int < 0x100 ==> Bytes(s)[i] == s[i] as int
  {
  }

  lemma VisibleNext(log: string, c: char)
    ensures Bytes(Visible(log + [c]))
         == if c == '\0' then Bytes(Visible(log)) else Bytes(Visible(log)) + [c as int % 0x100]
  {
    assert (log + [c])[..|log|] == log;
    assert Bytes(Visible(log) + [c]) == Bytes(Visible(log)) + [c as int % 0x100];
  }

  class Sink {
    const kind: Kind
    const buffer: array<char>
    const maxlen: u64
    const console: Console?

    // the characters handed over so far, and the buffer and the screen before the first of them
    ghost var log: string
    ghost const before: string
    ghost const shown: Transcript

    ghost predicate Valid()
      reads this, buffer, Display()
    {
      && (kind == Buffer ==> maxlen <= buffer.Length)
      && buffer[..] == (if kind == Buffer then Stored(before, log, maxlen) else before)
      && (console != null <==> kind == Screen)
      && (console != null ==>
            console.Valid() && shown.Valid() && console.transcript == PrintAll(shown, Bytes(Visible(log))))
    }

    /** The screen, if characters go there. */
    ghost function Display(): set<object> {
      if console == null then {} else {console, console.video}
    }

    constructor (kind: Kind, buffer: array<char>, maxlen: u64, console: Console?)
      requires kind == Buffer ==> maxlen <= buffer.Length
      requires console != null <==> kind == Screen
      requires console != null ==> console.Valid()
      ensures Valid() && log == "" && before == buffer[..]
      ensures this.kind == kind && this.buffer == buffer && this.maxlen == maxlen && this.console == console
      ensures console != null ==> shown == console.transcript
    {
      this.kind, this.buffer, this.maxlen, this.console := kind, buffer, maxlen, console;
      log, before := "", buffer[..];
      shown := if console != null then console.transcript else Fresh();
      assert Bytes("") == [];
    }

    /** _out_char: one more character, unless it is NUL. */
    method Show(c: char)
      requires console != null && console.Valid() && shown.Valid()
      requires console.transcript == PrintAll(shown, Bytes(Visible(log)))
      modifies console, console.video
      ensures console.Valid() && console.transcript == PrintAll(shown, Bytes(Visible(log + [c])))
    {
      VisibleNext(log, c);
      if c != '\0' {
        console.Putch(c as int % 0x100);
        PrintAllSnoc(shown, Bytes(Visible(log)), c as int % 0x100);
      }
    }

    /** _out_buffer: the character at its place, if there is room. */
    method Store(c: char, idx: nat)
      requires kind == Buffer && maxlen <= buffer.Length && idx == |log| && buffer[..] == Stored(before, log, maxlen)
      modifies buffer
      ensures buffer[..] == Stored(before, log + [c], maxlen)
    {
      if idx < maxlen {
        buffer[idx] := c;
      }
    }

    /** out(c, buffer, idx, maxlen) for the next index. */
    method Emit(c: char, idx: nat)
      requires Valid() && idx == |log|
      modifies this, buffer, Display()
      ensures Valid() && log == old(log) + [c]
    {
      match kind {
        case Buffer => Store(c, idx);
        case Nowhere =>
        case Screen => Show(c);
      }
      log := log + [c];
    }
  }

  /** n spaces. */
  method EmitSpaces(out: Sink, idx: nat, n: nat) returns (end: nat)
    requires out.Valid() && idx == |out.log|
    modifies out, out.buffer, out.Display()
    ensures out.Valid() && end == |out.log| && out.log == old(out.log) + Repeat(' ', n)
  {
    end := idx;
    for i := 0 to n
      invariant out.Valid() && end == |out.log| && out.log == old(out.log) + Repeat(' ', i)
    {
      out.Emit(' ', end);
      end := end + 1;
    }
  }

  /** Spaces up to the width, on the side where they belong. */
  method PadIf(out: Sink, idx: nat, here: bool, l: nat, width: nat) returns (end: nat)
    requires out.Valid() && idx == |out.log|
    modifies out, out.buffer, out.Display()
    ensures out.Valid() && end == |out.log|
    ensures out.log == old(out.log) + Repeat(' ', if here then AtLeast(l, width) else 0)
  {
    end := idx;
    if here {
      end := EmitSpaces(out, end, if l < width then width - l else 0);
    }
  }

  /** The buffer from its end to its start. */
  method EmitReversed(out: Sink, idx: nat, buf: array<char>, length: nat) returns (end: nat)
    requires out.Valid() && idx == |out.log| && length <= buf.Length && buf != out.buffer
    modifies out, out.buffer, out.Display()
    ensures out.Valid() && end == |out.log| && out.log == old(out.log) + Reverse(buf[..length])
    ensures buf[..] == old(buf[..])
  {
    ghost var text := Reverse(buf[..length]);
    end := idx;
    var len := length;
    while len > 0
      invariant len <= length && out.Valid() && end == |out.log|
      invariant out.log == old(out.log) + text[..length - len] && buf[..] == old(buf[..])
    {
      len := len - 1;
      out.Emit(buf[len], end);
      end := end + 1;
      assert text[..length - len] == text[..length - len - 1] + [buf[len]];
    }
    assert text[..length] == text;
  }

  /** How many spaces _out_rev puts in front, and how many behind. */
  lemma PaddedSides(log: string, text: string, width: nat, flags: Flags)
    ensures log + Padded(text, width, flags) ==
      (log + Repeat(' ', if !flags.left && !flags.zeropad then AtLeast(|text|, width) else 0) + text)
        + Repeat(' ', if flags.left then AtLeast(|text|, width) else 0)
  {
  }

  /** _out_rev. */
  method OutRev(out: Sink, idx: nat, buf: array<char>, length: nat, width: nat, flags: Flags) returns (end: nat)
    requires out.Valid() && idx == |out.log| && length <= buf.Length && buf != out.buffer
    modifies out, out.buffer, out.Display()
    ensures out.Valid() && end == |out.log|
    ensures out.log == old(out.log) + Padded(Reverse(buf[..length]), width, flags)
  {
    PaddedSides(out.log, Reverse(buf[..length]), width, flags);
    end := PadIf(out, idx, !flags.left && !flags.zeropad, length, width);
    end := EmitReversed(out, end, buf, length);
    end := PadIf(out, end, flags.left, end - idx, width);
  }

  /** buf[len++] = c, while there is room. */
  method PushChar(buf: array<char>, len: nat, c: char) returns (end: nat)
    requires buf.Length == BUFFER_SIZE && len <= BUFFER_SIZE
    modifies buf
    ensures end <= BUFFER_SIZE && Reverse(buf[..end]) == Push(c, Reverse(old(buf[..len])))
  {
    end := len;
    if end < 32 {
      buf[end] := c;
      end := end + 1;
      ReversePush(old(buf[..len]), c);
      assert buf[..end] == old(buf[..len]) + [c];
    }
  }

  lemma OneMoreZero(k: nat, text: string)
    ensures "0" + (Repeat('0', k) + text) == Repeat('0', k + 1) + text
  {
  }

  lemma ZerosFilled(text: string, k: nat, n: nat)
    requires |text| <= BUFFER_SIZE && |text| + k <= BUFFER_SIZE
    requires (k > 0 ==> |text| + k <= n) && (|text| + k >= n || |text| + k == BUFFER_SIZE)
    ensures Repeat('0', k) + text == FillZeros(text, n)
  {
  }

  /** The zero-padding loops of _ntoa_format. */
  method PushZeros(buf: array<char>, len: nat, n: nat) returns (end: nat)
    requires buf.Length == BUFFER_SIZE && len <= BUFFER_SIZE
    modifies buf
    ensures end <= BUFFER_SIZE && Reverse(buf[..end]) == FillZeros(Reverse(old(buf[..len])), n)
  {
    end := len;
    ghost var text := Reverse(buf[..len]);
    while end < n && end < 32
      invariant len <= end <= BUFFER_SIZE && (end > len ==> end <= n)
      invariant Reverse(buf[..end]) == Repeat('0', end - len) + text
    {
      OneMoreZero(end - len, text);
      end := PushChar(buf, end, '0');
    }
    ZerosFilled(text, end - len, n);
  }

  /** The zeros of precision and width, unless the field is left-justified. */
  method FillBuffer(buf: array<char>, len: nat, negative: bool, prec: nat, width: nat, flags: Flags)
    returns (end: nat, digitWidth: nat)
    requires buf.Length == BUFFER_SIZE && len <= BUFFER_SIZE
    modifies buf
    ensures end <= BUFFER_SIZE && digitWidth == DigitWidth(negative, width, flags)
    ensures Reverse(buf[..end]) == Filled(Reverse(old(buf[..len])), negative, prec, width, flags)
  {
    end, digitWidth := len, width;
    if !flags.left {
      if digitWidth > 0 && flags.zeropad && (negative || flags.plus || flags.space) {
        digitWidth := digitWidth - 1;
      }
      end := PushZeros(buf, end, prec);
      if flags.zeropad {
        end := PushZeros(buf, end, digitWidth);
      }
    }
  }

  lemma DropLast(s: string)
    requires s != ""
    ensures Reverse(s[..|s| - 1]) == Reverse(s)[1..]
  {
  }

  method MarkHash(buf: array<char>, len: nat, base: nat, prec: nat, width: nat, flags: Flags) returns (end: nat)
    requires buf.Length == BUFFER_SIZE && len <= BUFFER_SIZE
    modifies buf
    ensures end <= BUFFER_SIZE && Reverse(buf[..end]) == HashMark(Reverse(old(buf[..len])), base, prec, width, flags)
  {
    end := len;
    if !flags.precision && end > 0 && (end == prec || end == width) {
      DropLast(buf[..end]);
      assert buf[..end][..end - 1] == buf[..end - 1];
      end := end - 1;
      if end > 0 && base == 16 {
        DropLast(buf[..end]);
        assert buf[..end][..end - 1] == buf[..end - 1];
        end := end - 1;
      }
    }
    assert Reverse(buf[..end]) == MakeRoom(Reverse(old(buf[..len])), base, prec, width, flags);
    if base == 16 && !flags.uppercase {
      end := PushChar(buf, end, 'x');
    } else if base == 16 {
      end := PushChar(buf, end, 'X');
    } else if base == 2 {
      end := PushChar(buf, end, 'b');
    }
    end := PushChar(buf, end, '0');
  }

  method PushSign(buf: array<char>, len: nat, negative: bool, flags: Flags) returns (end: nat)
    requires buf.Length == BUFFER_SIZE && len <= BUFFER_SIZE
    modifies buf
    ensures end <= BUFFER_SIZE && Reverse(buf[..end]) == Signed(Reverse(old(buf[..len])), negative, flags)
  {
    end := len;
    if negative {
      end := PushChar(buf, end, '-');
    } else if flags.plus {
      end := PushChar(buf, end, '+');
    } else if flags.space {
      end := PushChar(buf, end, ' ');
    }
  }

  /** _ntoa_format. */
  method FormatNumber(out: Sink, idx: nat, buf: array<char>, length: nat, negative: bool, base: nat, prec: nat,
                      width: nat, flags: Flags) returns (end: nat)
    requires out.Valid() && idx == |out.log| && buf.Length == BUFFER_SIZE && length <= BUFFER_SIZE && buf != out.buffer
    modifies out, out.buffer, out.Display(), buf
    ensures out.Valid() && end == |out.log|
    ensures out.log == old(out.log) + NtoaFormat(Reverse(old(buf[..length])), negative, base, prec, width, flags)
  {
    var len, w := FillBuffer(buf, length, negative, prec, width, flags);
    if flags.hash {
      len := MarkHash(buf, len, base, prec, w, flags);
    }
    len := PushSign(buf, len, negative, flags);
    end := OutRev(out, idx, buf, len, w, flags);
  }

  /** One digit taken from the number and put into the buffer. */
  lemma DigitMoved(value: nat, base: nat, upper: bool, rest: nat, digit: char, n: nat, text: string)
    requires 2 <= base <= 16 && n >= 1 && rest == value / base && digit == DigitChar(value % base, upper)
    ensures LowDigits(value, base, upper, n) + text ==
      if rest == 0 || n == 1 then [digit] + text else LowDigits(rest, base, upper, n - 1) + ([digit] + text)
  {
    if rest != 0 && n > 1 {
      var low := LowDigits(rest, base, upper, n - 1);
      assert (low + [digit]) + text == low + ([digit] + text);
    }
  }

  /** The digits of the whole number are those still to come in front of those in the buffer. */
  ghost predicate Owing(digits: string, rest: nat, base: nat, upper: bool, text: string) {
    2 <= base <= 16 && |text| < 32 && digits == LowDigits(rest, base, upper, 32 - |text|) + text
  }

  lemma DigitOwed(digits: string, value: nat, base: nat, upper: bool, rest: nat, digit: char, text: string)
    requires Owing(digits, value, base, upper, text) && rest == value / base && digit == DigitChar(value % base, upper)
    ensures if rest == 0 || |text| == 31 then digits == [digit] + text
            else Owing(digits, rest, base, upper, [digit] + text)
  {
    DigitMoved(value, base, upper, rest, digit, 32 - |text|, text);
  }

  /** The body of the digit loop. */
  method PutDigit(buf: array<char>, len: nat, value: nat, base: nat, upper: bool, ghost digits: string)
    returns (rest: nat)
    requires buf.Length == BUFFER_SIZE && len < BUFFER_SIZE && Numeric(base)
    requires Owing(digits, value, base, upper, Reverse(buf[..len]))
    modifies buf
    ensures if rest == 0 || len == 31 then digits == Reverse(buf[..len + 1])
            else Owing(digits, rest, base, upper, Reverse(buf[..len + 1]))
  {
    ghost var done := buf[..len];
    buf[len] := DigitChar(value % base, upper);
    rest := value / base;
    assert buf[..len + 1] == done + [buf[len]];
    ReversePush(done, buf[len]);
    DigitOwed(digits, value, base, upper, rest, buf[len], Reverse(done));
  }

  /** The do-while loop of _ntoa_long: digits from the lowest up, 32 at most. */
  method PutDigits(buf: array<char>, v: u64, base: nat, upper: bool) returns (len: nat)
    requires buf.Length == BUFFER_SIZE && Numeric(base)
    modifies buf
    ensures len <= BUFFER_SIZE && Reverse(buf[..len]) == LowDigits(v, base, upper, BUFFER_SIZE)
  {
    ghost var digits := LowDigits(v, base, upper, BUFFER_SIZE);
    assert Owing(digits, v, base, upper, Reverse(buf[..0]));
    len := DigitLoop(buf, v, base, upper, digits);
  }

  method DigitLoop(buf: array<char>, v: nat, base: nat, upper: bool, ghost digits: string) returns (len: nat)
    requires buf.Length == BUFFER_SIZE && Numeric(base) && Owing(digits, v, base, upper, Reverse(buf[..0]))
    modifies buf
    ensures len <= BUFFER_SIZE && Reverse(buf[..len]) == digits
  {
    var value := PutDigit(buf, 0, v, base, upper, digits);
    len := 1;
    while value != 0 && len < 32
      invariant 1 <= len <= BUFFER_SIZE
      invariant if value == 0 || len == 32 then digits == Reverse(buf[..len])
                else Owing(digits, value, base, upper, Reverse(buf[..len]))
      decreases BUFFER_SIZE - len
    {
      value := PutDigit(buf, len, value, base, upper, digits);
      len := len + 1;
    }
  }

  /** _ntoa_long, and _ntoa_long_long with it. */
  method NtoaLong(out: Sink, idx: nat, value: u64, negative: bool, base: nat, prec: nat, width: nat, flags: Flags)
    returns (end: nat)
    requires out.Valid() && idx == |out.log| && Numeric(base)
    modifies out, out.buffer, out.Display()
    ensures out.Valid() && end == |out.log|
    ensures out.log == old(out.log) + Ntoa(value, negative, base, prec, width, flags)
  {
    var buf := new char[BUFFER_SIZE](_ => '\0');
    var len := NumberBuffer(buf, value, base, flags);
    end := FormatNumber(out, idx, buf, len, negative, base, prec, width, if value == 0 then flags.(hash := false) else flags);
  }

  /** The digits, unless a precision comes with the value 0. */
  method NumberBuffer(buf: array<char>, value: u64, base: nat, flags: Flags) returns (len: nat)
    requires buf.Length == BUFFER_SIZE && Numeric(base)
    modifies buf
    ensures len <= BUFFER_SIZE && Reverse(buf[..len]) == NtoaDigits(value, base, flags)
  {
    len := 0;
    if !flags.precision || value != 0 {
      len := PutDigits(buf, value, base, flags.uppercase);
    }
  }

  // --- Reading the format, by index ---

  method ReadFlags(fmt: string, i: nat) returns (flags: Flags, j: nat)
    requires i <= |fmt|
    ensures i <= j <= |fmt| && TakeFlags(fmt[i..], NO_FLAGS) == (flags, fmt[j..])
  {
    flags, j := NO_FLAGS, i;
    while j < |fmt| && IsFlag(fmt[j])
      invariant i <= j <= |fmt| && TakeFlags(fmt[i..], NO_FLAGS) == TakeFlags(fmt[j..], flags)
    {
      assert fmt[j..][1..] == fmt[j + 1..];
      flags := SetFlag(fmt[j], flags);
      j := j + 1;
    }
  }

  /** _atoi. */
  method Atoi(fmt: string, i: nat) returns (n: u32, j: nat)
    requires i <= |fmt|
    ensures i <= j <= |fmt| && TakeNumber(fmt[i..], 0) == (n, fmt[j..])
  {
    n, j := 0, i;
    while j < |fmt| && IsDigit(fmt[j])
      invariant i <= j <= |fmt| && TakeNumber(fmt[i..], 0) == TakeNumber(fmt[j..], n)
    {
      assert fmt[j..][1..] == fmt[j + 1..];
      n := Wrap32(n as int * 10 + (fmt[j] - '0') as int);
      j := j + 1;
    }
  }

  /** The width field: a number, an int argument, or nothing. */
  method ReadWidth(fmt: string, i: nat, f: Flags, args: seq<Arg>, a: nat)
    returns (ok: bool, flags: Flags, width: u32, j: nat, b: nat)
    requires i <= |fmt| && a <= |args|
    ensures i <= j <= |fmt| && a <= b <= |args|
    ensures TakeWidth(f, fmt[i..], args[a..]) ==
      if ok then Read(Directive(flags, width, 0, Int, fmt[j..], args[b..])) else Broken(BadArgument)
  {
    ok, flags, width, j, b := true, f, 0, i, a;
    if i < |fmt| && IsDigit(fmt[i]) {
      width, j := Atoi(fmt, i);
    } else if i < |fmt| && fmt[i] == '*' {
      if a == |args| || !args[a].Word? {
        ok := false;
        return;
      }
      var w := SignedArg(args[a].w, Int);
      if w < 0 {
        flags := flags.(left := true);
        width := Wrap32(-w);
      } else {
        width := Wrap32(w);
      }
      j, b := i + 1, a + 1;
    }
  }

  /** The precision field. */
  method ReadPrecision(fmt: string, i: nat, f: Flags, ghost width: u32, args: seq<Arg>, a: nat)
    returns (ok: bool, flags: Flags, precision: u32, j: nat, b: nat)
    requires i <= |fmt| && a <= |args|
    ensures i <= j <= |fmt| && a <= b <= |args|
    ensures TakePrecision(Directive(f, width, 0, Int, fmt[i..], args[a..])) ==
      if ok then Read(Directive(flags, width, precision, Int, fmt[j..], args[b..])) else Broken(BadArgument)
  {
    ok, flags, precision, j, b := true, f, 0, i, a;
    if i < |fmt| && fmt[i] == '.' {
      flags := flags.(precision := true);
      j := i + 1;
      assert fmt[i..][1..] == fmt[j..];
      if j < |fmt| && IsDigit(fmt[j]) {
        precision, j := Atoi(fmt, j);
      } else if j < |fmt| && fmt[j] == '*' {
        if a == |args| || !args[a].Word? {
          ok := false;
          return;
        }
        var p := SignedArg(args[a].w, Int);
        precision := if p > 0 then p else 0;
        j, b := j + 1, a + 1;
      }
    }
  }

  /** The length field. */
  method ReadSize(fmt: string, i: nat, ghost d: Directive) returns (size: Size, j: nat)
    requires i <= |fmt| && d.rest == fmt[i..] && d.size == Int
    ensures i <= j <= |fmt| && TakeSize(d) == d.(size := size, rest := fmt[j..])
  {
    size, j := Int, i;
    if i == |fmt| {
      return;
    }
    match fmt[i] {
      case 'l' =>
        size, j := Long, i + 1;
        if j < |fmt| && fmt[j] == 'l' {
          size, j := LongLong, j + 1;
        }
      case 'h' =>
        size, j := Short, i + 1;
        if j < |fmt| && fmt[j] == 'h' {
          size, j := Char, j + 1;
        }
      case 't' => size, j := Long, i + 1;
      case 'j' => size, j := Long, i + 1;
      case 'z' => size, j := Long, i + 1;
      case _ =>
    }
  }

  // --- %c and %s ---

  method PutCharacter(out: Sink, idx: nat, w: u64, width: nat, left: bool) returns (end: nat)
    requires out.Valid() && idx == |out.log|
    modifies out, out.buffer, out.Display()
    ensures out.Valid() && end == |out.log| && out.log == old(out.log) + CharText(w, width, left)
  {
    end := idx;
    var pad := if width > 1 then width - 1 else 0;
    if !left {
      end := EmitSpaces(out, end, pad);
    }
    out.Emit((w % 0x100) as char, end);
    end := end + 1;
    if left {
      end := EmitSpaces(out, end, pad);
    }
  }

  /** _strnlen_s: the length up to maxsize, as an unsigned int. */
  method StrnlenS(p: CString, maxsize: u64) returns (n: u32)
    ensures n == Wrap32(if |p| < maxsize then |p| else maxsize)
  {
    var s, left: nat := 0, maxsize;
    while s < |p| && left > 0
      invariant s <= |p| && s + left == maxsize
    {
      s, left := s + 1, left - 1;
    }
    n := Wrap32(s);
  }

  method PaddedLength(p: CString, precision: u32, flags: Flags) returns (l: u32)
    ensures l == StringLength(p, precision, flags)
  {
    l := StrnlenS(p, if precision > 0 then precision else 0xFFFF_FFFF_FFFF_FFFF);
    if flags.precision {
      l := if l < precision then l else precision;
    }
  }

  lemma ShownAt(p: string, precision: u32, flags: Flags, k: nat)
    requires k <= |p| && (flags.precision ==> k <= precision)
    ensures k <= |Shown(p, precision, flags)|
    ensures k < |p| && (flags.precision ==> k < precision) ==>
      k < |Shown(p, precision, flags)| && Shown(p, precision, flags)[k] == p[k]
    ensures k == |p| || (flags.precision && k == precision) ==> k == |Shown(p, precision, flags)|
  {
  }

  /** The string itself: up to its terminator, and while the precision lasts. */
  method PutShown(out: Sink, idx: nat, p: string, precision: u32, flags: Flags) returns (end: nat)
    requires out.Valid() && idx == |out.log|
    modifies out, out.buffer, out.Display()
    ensures out.Valid() && end == |out.log| && out.log == old(out.log) + Shown(p, precision, flags)
  {
    end := PutCounted(out, idx, p, precision, flags, Shown(p, precision, flags));
  }

  method PutCounted(out: Sink, idx: nat, p: string, precision: u32, flags: Flags, ghost shown: string)
    returns (end: nat)
    requires out.Valid() && idx == |out.log| && shown == Shown(p, precision, flags)
    modifies out, out.buffer, out.Display()
    ensures out.Valid() && end == |out.log| && out.log == old(out.log) + shown
  {
    end := idx;
    var k, left := 0, precision;
    while k < |p| && (!flags.precision || left > 0)
      invariant k <= |p| && k <= |shown| && (flags.precision ==> k + left == precision)
      invariant out.Valid() && end == |out.log| && out.log == old(out.log) + shown[..k]
      decreases |p| - k
    {
      ShownAt(p, precision, flags, k);
      out.Emit(p[k], end);
      end := end + 1;
      assert shown[..k + 1] == shown[..k] + [p[k]];
      k := k + 1;
      if flags.precision {
        left := left - 1;
      }
    }
    ShownAt(p, precision, flags, k);
    assert shown[..k] == shown;
  }

  method PutString(out: Sink, idx: nat, p: CString, precision: u32, width: nat, flags: Flags) returns (end: nat)
    requires out.Valid() && idx == |out.log|
    modifies out, out.buffer, out.Display()
    ensures out.Valid() && end == |out.log| && out.log == old(out.log) + StringText(p, precision, width, flags)
  {
    var l := PaddedLength(p, precision, flags);
    end := PutJustified(out, idx, p, precision, l, width, flags);
  }

  lemma JustifiedSides(log: string, text: string, l: nat, width: nat, left: bool)
    ensures log + Justified(text, l, width, left) ==
      (log + Repeat(' ', if left then 0 else AtLeast(l, width)) + text) + Repeat(' ', if left then AtLeast(l, width) else 0)
  {
  }

  method PutJustified(out: Sink, idx: nat, p: CString, precision: u32, l: nat, width: nat, flags: Flags)
    returns (end: nat)
    requires out.Valid() && idx == |out.log|
    modifies out, out.buffer, out.Display()
    ensures out.Valid() && end == |out.log|
    ensures out.log == old(out.log) + Justified(Shown(p, precision, flags), l, width, flags.left)
  {
    JustifiedSides(out.log, Shown(p, precision, flags), l, width, flags.left);
    end := PadIf(out, idx, !flags.left, l, width);
    end := PutShown(out, end, p, precision, flags);
    end := PadIf(out, end, flags.left, l, width);
  }

  // --- _vsnprintf ---

  /** The conversion specifier c with everything read before it; the next argument is args[a]. */
  method PutConversion(out: Sink, idx: nat, c: char, flags: Flags, width: u32, precision: u32, size: Size,
                       args: seq<Arg>, a: nat, ghost rest: string) returns (ok: bool, end: nat, b: nat)
    requires out.Valid() && idx == |out.log| && a <= |args|
    modifies out, out.buffer, out.Display()
    ensures out.Valid() && end == |out.log| && a <= b <= |args|
    ensures var r := Convert(c, Directive(flags, width, precision, size, rest, args[a..]));
      if ok then r.Conversion? && out.log == old(out.log) + r.text && args[b..] == r.args
      else r == Failed(BadArgument)
  {
    ok, end, b := true, idx, a;
    ghost var d := Directive(flags, width, precision, size, rest, args[a..]);
    if IsInteger(c) {
      if a == |args| || !args[a].Word? {
        ok := false;
        return;
      }
      end := PutInteger(out, idx, c, flags, width, precision, size, args[a].w, rest, args[a..]);
      b := a + 1;
    } else if c == 'c' {
      if a == |args| || !args[a].Word? {
        ok := false;
        return;
      }
      end := PutCharacter(out, idx, args[a].w, width, flags.left);
      b := a + 1;
    } else if c == 's' {
      if a == |args| || !args[a].Str? {
        ok := false;
        return;
      }
      end := PutString(out, idx, args[a].s, precision, width, flags);
      b := a + 1;
    } else if c == 'p' {
      if a == |args| || !args[a].Word? {
        ok := false;
        return;
      }
      end := NtoaLong(out, idx, args[a].w, false, 16, precision, 16, flags.(zeropad := true, uppercase := true));
      b := a + 1;
    } else {
      out.Emit(c, idx);
      end := idx + 1;
    }
  }

  /** The flags an integer conversion passes on. */
  method PassFlags(c: char, flags: Flags) returns (f: Flags)
    ensures f == IntegerFlags(c, flags)
  {
    f := flags;
    if Base(c) == 10 {
      f := f.(hash := false);
    }
    if c == 'X' {
      f := f.(uppercase := true);
    }
    if c != 'i' && c != 'd' {
      f := f.(plus := false, space := false);
    }
    if f.precision {
      f := f.(zeropad := false);
    }
  }

  /** d, i, u, x, X, o and b. */
  method PutInteger(out: Sink, idx: nat, c: char, flags: Flags, width: u32, precision: u32, size: Size, w: u64,
                    ghost rest: string, ghost args: seq<Arg>) returns (end: nat)
    requires out.Valid() && idx == |out.log| && IsInteger(c)
    modifies out, out.buffer, out.Display()
    ensures out.Valid() && end == |out.log|
    ensures out.log == old(out.log) + IntegerText(c, w, Directive(flags, width, precision, size, rest, args))
  {
    var f := PassFlags(c, flags);
    if c == 'i' || c == 'd' {
      var value := SignedArg(w, size);
      end := NtoaLong(out, idx, Magnitude(value, size), value < 0, Base(c), precision, width, f);
    } else {
      end := NtoaLong(out, idx, UnsignedArg(w, size), false, Base(c), precision, width, f);
    }
  }

  datatype Option<T> = None | Some(value: T)

  /** Everything between a percent sign and the specifier behind it. */
  method ReadDirective(fmt: string, i: nat, args: seq<Arg>, a: nat)
    returns (ok: bool, flags: Flags, width: u32, precision: u32, size: Size, j: nat, b: nat)
    requires i <= |fmt| && a <= |args|
    ensures i <= j <= |fmt| && a <= b <= |args|
    ensures TakeDirective(fmt[i..], args[a..]) ==
      if ok then Read(Directive(flags, width, precision, size, fmt[j..], args[b..])) else Broken(BadArgument)
  {
    precision, size := 0, Int;
    flags, j := ReadFlags(fmt, i);
    ok, flags, width, j, b := ReadWidth(fmt, j, flags, args, a);
    if ok {
      ok, flags, precision, j, b := ReadPrecision(fmt, j, flags, width, args, b);
      if ok {
        size, j := ReadSize(fmt, j, Directive(flags, width, precision, Int, fmt[j..], args[b..]));
      }
    }
  }

  /** What a turn of the method did, as a turn of the specification. */
  ghost predicate DidTurn(t: Turn, fault: Option<Fault>, before: string, after: string, rest: string, left: seq<Arg>) {
    match fault
    case Some(why) => t == Stopped(why)
    case None => t.Printed? && after == before + t.text && rest == t.rest && left == t.args
  }

  /** The directive whose percent sign is just before index i. */
  method TakeSpecifier(out: Sink, idx: nat, fmt: string, i: nat, args: seq<Arg>, a: nat)
    returns (fault: Option<Fault>, end: nat, j: nat, b: nat)
    requires out.Valid() && idx == |out.log| && i <= |fmt| && a <= |args|
    modifies out, out.buffer, out.Display()
    ensures i <= j <= |fmt| && a <= b <= |args| && out.Valid() && end == |out.log|
    ensures DidTurn(DirectiveTurn(CONVERT, fmt[i..], args[a..]), fault, old(out.log), out.log, fmt[j..], args[b..])
  {
    fault, end := None, idx;
    var ok, flags, width, precision, size;
    ok, flags, width, precision, size, j, b := ReadDirective(fmt, i, args, a);
    if !ok {
      fault := Some(BadArgument);
      return;
    }
    if j == |fmt| {
      // the terminator would be printed as a specifier, and the walk would step past it
      fault := Some(PastFormat);
      return;
    }
    ghost var rest := fmt[j..];
    assert rest[0] == fmt[j] && rest[1..] == fmt[j + 1..];
    ok, end, b := PutConversion(out, idx, fmt[j], flags, width, precision, size, args, b, rest);
    if !ok {
      fault := Some(BadArgument);
      return;
    }
    j := j + 1;
  }

  /** One turn of the loop, from index i of the format and argument a on. */
  method TakeTurn(out: Sink, idx: nat, fmt: string, i: nat, args: seq<Arg>, a: nat)
    returns (fault: Option<Fault>, end: nat, j: nat, b: nat)
    requires out.Valid() && idx == |out.log| && i < |fmt| && a <= |args|
    modifies out, out.buffer, out.Display()
    ensures i < j <= |fmt| && a <= b <= |args| && out.Valid() && end == |out.log|
    ensures DidTurn(TURN(fmt[i..], args[a..]), fault, old(out.log), out.log, fmt[j..], args[b..])
  {
    assert fmt[i..][1..] == fmt[i + 1..];
    if fmt[i] != '%' {
      out.Emit(fmt[i], idx);
      fault, end, j, b := None, idx + 1, i + 1, a;
    } else {
      fault, end, j, b := TakeSpecifier(out, idx, fmt, i + 1, args, a);
    }
  }

  /** (int)idx. */
  function ToInt(n: nat): int {
    var x := n % 0x1_0000_0000;
    if x < 0x8000_0000 then x else x - 0x1_0000_0000
  }

  datatype Result = Length(n: int) | Undefined(why: Fault)

  /** A buffer once the text and its terminator have been written: as much of the text as fits before
      the last of the maxlen places, a NUL behind it, nothing else. */
  function Terminated(before: string, text: string, maxlen: nat): string {
    var end := if |text| < maxlen then |text| else maxlen - 1;
    seq(|before|, i requires 0 <= i < |before| =>
      if maxlen == 0 || i > end then before[i] else if i == end then '\0' else text[i])
  }

  /** The number an int keeps of a length. */
  ghost predicate AsInt(v: int, n: nat) {
    -0x8000_0000 <= v < 0x8000_0000 && (v - n) % 0x1_0000_0000 == 0
  }

  lemma ToIntIs(n: nat)
    ensures AsInt(ToInt(n), n) && (n < 0x8000_0000 ==> ToInt(n) == n)
  {
    var x, q := n % 0x1_0000_0000, n / 0x1_0000_0000;
    var k := if x < 0x8000_0000 then -q else -q - 1;
    assert ToInt(n) - n == 0x1_0000_0000 * k;
  }

  /** A text cut to n characters, if need be, and its NUL at the start of a buffer; the rest as before. */
  ghost predicate Holds(after: string, before: string, text: string, n: nat) {
    && |after| == |before| && n <= |text| && n < |after|
    && after[..n] == text[..n] && after[n] == '\0' && after[n + 1..] == before[n + 1..]
  }

  /** What the buffer holds: a text that fits with its NUL, a longer one cut to one character less than
      the count, and with count 0 what it held before. */
  lemma TerminatedExactly(before: string, text: string, maxlen: nat)
    requires maxlen <= |before|
    ensures |text| < maxlen ==> Holds(Terminated(before, text, maxlen), before, text, |text|)
    ensures 0 < maxlen <= |text| ==> Holds(Terminated(before, text, maxlen), before, text, maxlen - 1)
    ensures maxlen == 0 ==> Terminated(before, text, maxlen) == before
  {
  }

  /** out((char)0, buffer, idx < maxlen ? idx : maxlen - 1, maxlen) */
  method Terminate(out: Sink, idx: nat)
    requires out.Valid() && idx == |out.log|
    modifies out.buffer
    ensures out.kind == Buffer ==> out.buffer[..] == Terminated(out.before, out.log, out.maxlen)
    ensures out.kind != Buffer ==> out.buffer[..] == old(out.buffer[..])
  {
    var at := if idx < out.maxlen then idx else Wrap64(out.maxlen as int - 1);
    if out.kind == Buffer && at < out.maxlen {
      out.buffer[at] := '\0';
    }
  }

  /** The loop up to the terminator of the format. */
  method FormatLoop(out: Sink, fmt: string, args: seq<Arg>) returns (fault: Option<Fault>, idx: nat)
    requires out.Valid() && out.log == ""
    modifies out, out.buffer, out.Display()
    ensures match fault
      case Some(why) => Output(fmt, args) == Faulty(why)
      case None => Output(fmt, args) == Text(out.log) && out.Valid() && idx == |out.log|
  {
    fault, idx := None, 0;
    var i: nat, a: nat := 0, 0;
    ghost var whole := Output(fmt, args);
    assert fmt[0..] == fmt && args[0..] == args;
    ThenNothing(whole);
    while i < |fmt|
      invariant i <= |fmt| && a <= |args| && out.Valid() && idx == |out.log| && fault == None
      invariant whole == Then(out.log, Output(fmt[i..], args[a..]))
      decreases |fmt| - i
    {
      ghost var done := out.log;
      OutputTurn(fmt[i..], args[a..]);
      ghost var t := TURN(fmt[i..], args[a..]);
      fault, idx, i, a := TakeTurn(out, idx, fmt, i, args, a);
      if fault.Some? {
        return;
      }
      ThenThen(done, t.text, Output(t.rest, t.args));
    }
    assert fmt[i..] == "";
    assert out.log + "" == out.log;
  }

  /** _vsnprintf.  The result and the characters handed to the output function are those of Output. */
  method Vsnprintf(out: Sink, fmt: CString, args: seq<Arg>) returns (r: Result)
    requires out.Valid() && out.log == ""
    modifies out, out.buffer, out.Display()
    ensures match Output(fmt, args)
      case Faulty(why) => r == Undefined(why)
      case Text(text) =>
        && r == Length(ToInt(|text|)) && out.log == text
        && (out.kind == Buffer ==> out.buffer[..] == Terminated(out.before, text, out.maxlen))
        && (out.kind != Buffer ==> out.buffer[..] == out.before)
        && (out.kind == Screen ==>
              out.console.Valid() && out.console.transcript == PrintAll(out.shown, Bytes(Visible(text))))
  {
    var fault, idx := FormatLoop(out, fmt, args);
    if fault.Some? {
      return Undefined(fault.value);
    }
    Terminate(out, idx);
    r := Length(ToInt(idx));
  }

  /** snprintf_ and vsnprintf_: the result is the length of the whole text whatever the count, as far
      as an int holds it.  A buffer gets the text and a NUL, cut to count - 1 characters if it is
      longer, and nothing else; a count of 0 or a null buffer writes nothing. */
  method Snprintf(buffer: array?<char>, count: u64, fmt: CString, args: seq<Arg>) returns (r: Result)
    requires buffer != null ==> count <= buffer.Length
    modifies buffer
    ensures match Output(fmt, args)
      case Faulty(why) => r == Undefined(why)
      case Text(text) =>
        && r.Length? && AsInt(r.n, |text|) && (|text| < 0x8000_0000 ==> r.n == |text|)
        && (buffer != null && |text| < count ==> Holds(buffer[..], old(buffer[..]), text, |text|))
        && (buffer != null && 0 < count <= |text| ==> Holds(buffer[..], old(buffer[..]), text, count - 1))
        && (buffer != null && count == 0 ==> buffer[..] == old(buffer[..]))
  {
    if buffer == null {
      var none := new char[0];
      var out := new Sink(Nowhere, none, count, null);
      r := Vsnprintf(out, fmt, args);
    } else {
      var out := new Sink(Buffer, buffer, count, null);
      r := Vsnprintf(out, fmt, args);
      if r.Length? {
        TerminatedExactly(old(buffer[..]), Output(fmt, args).text, count);
      }
    }
    if r.Length? {
      ToIntIs(|Output(fmt, args).text|);
    }
  }

  /** printf_: everything goes to putch, which is not called for NUL, and appears on the screen. */
  method PrintfToScreen(console: Console, fmt: CString, args: seq<Arg>) returns (r: Result)
    requires console.Valid()
    modifies console, console.video
    ensures match Output(fmt, args)
      case Faulty(why) => r == Undefined(why)
      case Text(text) =>
        && r.Length? && AsInt(r.n, |text|) && (|text| < 0x8000_0000 ==> r.n == |text|)
        && console.Valid() && console.transcript == PrintAll(old(console.transcript), Bytes(Visible(text)))
  {
    var buffer := new char[1](_ => '\0');
    var out := new Sink(Screen, buffer, 0xFFFF_FFFF_FFFF_FFFF, console);
    r := Vsnprintf(out, fmt, args);
    if r.Length? {
      ToIntIs(|Output(fmt, args).text|);
    }
  }
}
