/** Number and text formatting of src/printf.c. */
module Printf {
  import opened Bits
  import opened Screen

  const MIN64: int := -0x8000_0000_0000_0000
  const MAX64: int := 0x7FFF_FFFF_FFFF_FFFF

  /** Size of the static buffer `sz`, and of the scratch arrays of the two number printers. */
  const SZ_SIZE: nat := 128
  const SCRATCH: nat := 32

  // ---------------------------------------------------------------- text of a number

  function DecDigit(d: nat): char
    requires d < 10
  {
    '0' + d as char
  }

  /** '0'..'9', 'A'..'F': the offsets 0x30 and 0x37 of print_hex. */
  function HexDigit(d: nat): char
    requires d < 16
  {
    if d <= 9 then (0x30 + d) as char else (0x37 + d) as char
  }

  /** Decimal digits of n, none for 0. */
  function Digits(n: nat): string {
    if n == 0 then "" else Digits(n / 10) + [DecDigit(n % 10)]
  }

  function HexDigits(n: nat): string {
    if n == 0 then "" else HexDigits(n / 16) + [HexDigit(n % 16)]
  }

  /** `-a` on a 64-bit signed word. */
  function Negate64(a: int): int {
    if a == MIN64 then a else -a
  }

  /** What print_decimal writes: the digits of the negated value only while that is positive. */
  function DecimalText(a: int): string {
    if a == 0 then "0"
    else if a < 0 then "-" + (if Negate64(a) > 0 then Digits(Negate64(a)) else "")
    else Digits(a)
  }

  function HexText(n: nat): string {
    if n == 0 then "0" else HexDigits(n)
  }

  // ---------------------------------------------------------------- reading it back

  /** Value of a digit string in a base, most significant digit first. */
  function Value(s: string, base: nat): Option<nat> {
    if s == "" then Some(0)
    else
      var high, d := Value(s[..|s| - 1], base), DigitValue(s[|s| - 1]);
      if high.None? || d.None? || d.value >= base then None else Some(high.value * base + d.value)
  }

  function DigitValue(c: char): Option<nat> {
    if '0' <= c <= '9' then Some(c as int - '0' as int)
    else if 'A' <= c <= 'F' then Some(c as int - 'A' as int + 10)
    else None
  }

  /** At least one decimal digit. */
  function ParseUnsigned(s: string): Option<int> {
    if s == "" then None
    else match Value(s, 10)
      case Some(v) => Some(v)
      case None => None
  }

  function Negated(r: Option<int>): Option<int> {
    match r
    case Some(v) => Some(-v)
    case None => None
  }

  /** Reads an optional minus sign and at least one decimal digit. */
  function ParseDecimal(s: string): Option<int> {
    if s != "" && s[0] == '-' then Negated(ParseUnsigned(s[1..])) else ParseUnsigned(s)
  }

  function ParseHex(s: string): Option<nat> {
    if s == "" then None else Value(s, 16)
  }

  lemma {:induction false} DigitsDenote(n: nat)
    ensures Value(Digits(n), 10) == Some(n)
    ensures n > 0 ==> |Digits(n)| > 0 && Digits(n)[0] != '0' && Digits(n)[0] != '-'
  {
    if n > 0 {
      DigitsDenote(n / 10);
      var s := Digits(n);
      assert s[..|s| - 1] == Digits(n / 10);
      assert DigitValue(DecDigit(n % 10)) == Some(n % 10);
    }
  }

  lemma {:induction false} HexDigitsDenote(n: nat)
    ensures Value(HexDigits(n), 16) == Some(n)
    ensures n > 0 ==> |HexDigits(n)| > 0 && HexDigits(n)[0] != '0'
  {
    if n > 0 {
      HexDigitsDenote(n / 16);
      var s := HexDigits(n);
      assert s[..|s| - 1] == HexDigits(n / 16);
      HexDigitIsDigit(n % 16);
    }
  }

  lemma HexDigitIsDigit(d: nat)
    requires d < 16
    ensures DigitValue(HexDigit(d)) == Some(d) && (HexDigit(d) == '0' <==> d == 0)
  {
  }

  lemma DigitsReadBack(a: int)
    requires 0 < a
    ensures ParseUnsigned(Digits(a)) == Some(a) && Digits(a) != "" && Digits(a)[0] != '-'
  {
    DigitsDenote(a);
  }

  lemma MinusReadsBack(text: string)
    ensures ParseDecimal("-" + text) == Negated(ParseUnsigned(text))
  {
    assert ("-" + text)[1..] == text;
  }

  lemma ZeroReadsBack()
    ensures ParseDecimal("0") == Some(0)
  {
    assert "0"[..0] == "";
    assert Value("0", 10) == Some(0);
  }

  lemma LoneMinus()
    ensures DecimalText(MIN64) == "-" && ParseDecimal("-") == None
  {
  }

  /** Over all 64-bit values, print_decimal's text reads back as the number exactly when it is not
      -2^63; that one is printed as a lone minus sign. */
  lemma DecimalReadsBack(a: int)
    requires MIN64 <= a <= MAX64
    ensures ParseDecimal(DecimalText(a)) == Some(a) <==> a != MIN64
  {
    if a > 0 {
      DigitsReadBack(a);
    } else if a == 0 {
      ZeroReadsBack();
    } else if a == MIN64 {
      LoneMinus();
    } else {
      DigitsReadBack(-a);
      MinusReadsBack(Digits(-a));
    }
  }

  /** No superfluous zeros. */
  lemma DecimalHasNoLeadingZero(a: int)
    requires MIN64 < a <= MAX64 && a != 0
    ensures var s := DecimalText(a); if a < 0 then |s| > 1 && s[0] == '-' && s[1] != '0' else |s| > 0 && s[0] != '0'
  {
    DigitsDenote(if a < 0 then -a else a);
  }

  /** Every 64-bit word prints in hexadecimal without leading zeros and reads back. */
  lemma HexReadsBack(n: nat)
    ensures ParseHex(HexText(n)) == Some(n)
    ensures n > 0 ==> |HexText(n)| > 0 && HexText(n)[0] != '0'
  {
    HexDigitsDenote(n);
    if n == 0 {
      assert "0"[..0] == "";
    }
  }

  function Pow10(k: nat): nat {
    if k == 0 then 1 else 10 * Pow10(k - 1)
  }

  lemma {:induction false} DigitCount(n: nat, k: nat)
    requires n < Pow10(k)
    ensures |Digits(n)| <= k
    decreases k
  {
    if n > 0 {
      DigitCount(n / 10, k - 1);
    }
  }

  /** Nineteen digits suffice for a positive 64-bit number, so the scratch array does. */
  lemma DecimalFits(n: nat)
    requires n <= MAX64
    ensures |Digits(n)| <= 19 < SCRATCH
  {
    assert Pow10(5) == 100000;
    assert Pow10(10) == 10000000000;
    assert Pow10(15) == 1000000000000000;
    assert Pow10(19) == 10000000000000000000;
    DigitCount(n, 19);
  }

  // ---------------------------------------------------------------- print_decimal

  /** The scratch array holds the low digits in reverse order. */
  function Reversed(v: seq<nat>, n: nat): string
    requires n <= |v| && forall k | 0 <= k < n :: v[k] < 10
  {
    if n == 0 then "" else [DecDigit(v[n - 1])] + Reversed(v, n - 1)
  }

  lemma {:induction false} ReversedFrame(v: seq<nat>, v': seq<nat>, n: nat)
    requires n <= |v| == |v'| && forall k | 0 <= k < n :: v[k] < 10 && v'[k] == v[k]
    ensures Reversed(v, n) == Reversed(v', n) && |Reversed(v, n)| == n
  {
    if n > 0 {
      ReversedFrame(v, v', n - 1);
    }
  }

  /** One digit more in the scratch array. */
  lemma OneDigit(before: seq<nat>, i: nat, digit: nat, high: string, text: string)
    requires i < |before| && digit < 10 && forall k | 0 <= k < i :: before[k] < 10
    requires (high + [DecDigit(digit)]) + Reversed(before, i) == text
    ensures high + Reversed(before[i := digit], i + 1) == text
    ensures |Reversed(before, i)| == i ==> |Reversed(before[i := digit], i + 1)| == i + 1
  {
    var after := before[i := digit];
    ReversedFrame(before, after, i);
    assert Reversed(after, i + 1) == [DecDigit(digit)] + Reversed(after, i);
    Associate(high, [DecDigit(digit)], Reversed(before, i));
  }

  /** The digit loop of print_decimal: fills the scratch array from the lowest digit on. */
  method SplitDigits(n: nat, v: array<nat>) returns (i: nat)
    requires v.Length == SCRATCH && n <= MAX64
    modifies v
    ensures i <= SCRATCH && (forall k | 0 <= k < i :: v[k] < 10) && Reversed(v[..], i) == Digits(n)
  {
    i := 0;
    var a := n;
    DecimalFits(n);
    while a > 0
      invariant i <= SCRATCH && (forall k | 0 <= k < i :: v[k] < 10)
      invariant Digits(a) + Reversed(v[..], i) == Digits(n)
      invariant |Reversed(v[..], i)| == i
    {
      ghost var before := v[..];
      assert |Digits(a)| >= 1 && i < SCRATCH;
      v[i] := a % 10;
      assert v[..] == before[i := a % 10] && Digits(a) == Digits(a / 10) + [DecDigit(a % 10)];
      OneDigit(before, i, a % 10, Digits(a / 10), Digits(n));
      i := i + 1;
      a := a / 10;
    }
  }

  /** The output loop of print_decimal: the scratch array backwards. */
  method EmitDigits(buf: array<char>, at: nat, v: array<nat>, n: nat) returns (count: nat)
    requires n <= v.Length && at + n <= buf.Length && forall k | 0 <= k < n :: v[k] < 10
    modifies buf
    ensures |Reversed(v[..], n)| == n == count && buf[..] == Put(old(buf[..]), at, Reversed(v[..], n))
  {
    ghost var digits := v[..];
    ReversedFrame(digits, digits, n);
    ghost var text := Reversed(digits, n);
    var i: int := n - 1;
    count := 0;
    while i >= 0
      invariant -1 <= i < n && count == n - 1 - i
      invariant text[count..] == Reversed(digits, i + 1)
      invariant forall k | 0 <= k < buf.Length :: buf[k] == if at <= k < at + count then text[k - at] else old(buf[k])
      invariant v[..] == digits
    {
      assert text[count..][0] == text[count] && text[count..][1..] == text[count + 1..];
      buf[at + count] := DecDigit(v[i]);
      count, i := count + 1, i - 1;
    }
    assert buf[..] == Put(old(buf[..]), at, text);
  }

  /** The two loops of print_decimal. */
  method PrintDigits(buf: array<char>, at: nat, n: nat) returns (count: nat)
    requires n <= MAX64 && at + |Digits(n)| <= buf.Length
    modifies buf
    ensures count == |Digits(n)| && buf[..] == Put(old(buf[..]), at, Digits(n))
  {
    var v := new nat[SCRATCH];
    var i := SplitDigits(n, v);
    ReversedFrame(v[..], v[..], i);
    count := EmitDigits(buf, at, v, i);
  }

  lemma PutOne(buf: string, at: nat, c: char)
    requires at < |buf|
    ensures Put(buf, at, [c]) == buf[at := c]
  {
  }

  lemma PutNone(buf: string, at: nat)
    requires at <= |buf|
    ensures Put(buf, at, "") == buf
  {
  }

  /** print_decimal: writes at buf[at..] and returns the number of characters. */
  method PrintDecimal(buf: array<char>, at: nat, a: int) returns (count: nat)
    requires MIN64 <= a <= MAX64 && at + |DecimalText(a)| <= buf.Length
    modifies buf
    ensures count == |DecimalText(a)| && buf[..] == Put(old(buf[..]), at, DecimalText(a))
  {
    if a == 0 {
      buf[at] := '0';
      return 1;
    }
    ghost var was := buf[..];
    var n := a;
    count := 0;
    if a < 0 {
      buf[at] := '-';
      count, n := 1, Negate64(a);
      PutOne(was, at, '-');
    } else {
      PutNone(was, at);
    }
    ghost var sign := if a < 0 then "-" else "";
    assert buf[..] == Put(was, at, sign);
    if n > 0 {
      PutTwice(was, at, sign, Digits(n));
      var digits := PrintDigits(buf, at + count, n);
      count := count + digits;
    }
  }

  /** The buffer with a text written at a position. */
  function Put(buf: string, at: nat, text: string): (r: string)
    requires at + |text| <= |buf|
    ensures |r| == |buf|
  {
    buf[..at] + text + buf[at + |text|..]
  }

  // ---------------------------------------------------------------- print_hex

  /** The bytes of a word in memory, lowest first. */
  function Bytes(n: nat, k: nat): (s: seq<nat>)
    ensures |s| == k && forall i | 0 <= i < k :: s[i] < 256
  {
    if k == 0 then [] else [n % 256] + Bytes(n / 256, k - 1)
  }

  /** All hexadecimal digits of the lowest k bytes, highest first. */
  function ByteDigits(b: seq<nat>): string
    requires forall i | 0 <= i < |b| :: b[i] < 256
  {
    if b == [] then "" else ByteDigits(b[1..]) + [HexDigit(b[0] / 16), HexDigit(b[0] % 16)]
  }

  function Zeros(n: nat): string {
    seq(n, _ => '0')
  }

  /** They are the digits of the number behind leading zeros. */
  lemma {:induction false} ByteDigitsAreHex(n: nat, k: nat)
    requires n < Pow256(k)
    ensures |HexDigits(n)| <= 2 * k && ByteDigits(Bytes(n, k)) == Zeros(2 * k - |HexDigits(n)|) + HexDigits(n)
    decreases k
  {
    if k > 0 {
      ByteDigitsAreHex(n / 256, k - 1);
      assert Bytes(n, k)[1..] == Bytes(n / 256, k - 1);
      var b := n % 256;
      assert n / 16 / 16 == n / 256 && n / 16 % 16 == b / 16 && n % 16 == b % 16;
      var high := ByteDigits(Bytes(n / 256, k - 1));
      if n / 256 > 0 {
        assert HexDigits(n) == HexDigits(n / 256) + [HexDigit(b / 16)] + [HexDigit(b % 16)];
      } else if b / 16 > 0 {
        assert HexDigits(n) == [HexDigit(b / 16)] + [HexDigit(b % 16)];
      } else if b > 0 {
        assert n / 16 == 0;
        assert HexDigits(n) == [HexDigit(b % 16)];
      }
    }
  }

  function Pow256(k: nat): nat {
    if k == 0 then 1 else 256 * Pow256(k - 1)
  }

  /** The conversion loop of print_hex: from the highest byte down, two digits each. */
  method SplitNibbles(p: seq<nat>, v: array<char>) returns (count: nat)
    requires |p| == 8 && (forall i | 0 <= i < |p| :: p[i] < 256) && v.Length == SCRATCH
    modifies v
    ensures count == 16 && v[..count] == ByteDigits(p)
  {
    count := 0;
    var i := 8;
    while i > 0
      invariant 0 <= i <= 8 && count == 2 * (8 - i)
      invariant v[..count] == ByteDigits(p[i..])
    {
      assert p[i - 1..][1..] == p[i..];
      v[count] := HexDigit(p[i - 1] / 16);
      count := count + 1;
      v[count] := HexDigit(p[i - 1] % 16);
      count := count + 1;
      i := i - 1;
      assert v[..count] == v[..count - 2] + [v[count - 2], v[count - 1]];
    }
    assert p[0..] == p;
  }

  /** The loop of print_hex that passes the leading zeros; text is what follows z of them. */
  method SkipZeros(v: array<char>, ghost z: nat, ghost text: string) returns (i: nat)
    requires v.Length == SCRATCH && text != "" && text[0] != '0' && z + |text| <= SCRATCH && v[..z + |text|] == Zeros(z) + text
    ensures i == z && v[i..i + |text|] == text
  {
    ghost var all := v[..z + |text|];
    assert forall k | 0 <= k < z + |text| :: v[k] == all[k];
    assert v[z] == text[0] && forall k | 0 <= k < z :: v[k] == '0';
    i := 0;
    while v[i] == '0'
      invariant i <= z
      decreases z - i
    {
      i := i + 1;
    }
    assert v[z..z + |text|] == all[z..];
  }

  /** The copy loop of print_hex. */
  method CopyDigits(buf: array<char>, at: nat, v: array<char>, from: nat, count: nat)
    requires from + count <= v.Length && at + count <= buf.Length && buf != v
    modifies buf
    ensures buf[..] == Put(old(buf[..]), at, v[from..from + count])
  {
    var i, j := from, 0;
    while j < count
      invariant j <= count && i == from + j
      invariant forall k | 0 <= k < buf.Length :: buf[k] == if at <= k < at + j then v[from + k - at] else old(buf[k])
    {
      buf[at + j] := v[i];
      i, j := i + 1, j + 1;
    }
    assert buf[..] == Put(old(buf[..]), at, v[from..from + count]);
  }

  /** print_hex, on the 64 bits of its argument. */
  method PrintHex(buf: array<char>, at: nat, n: nat) returns (count: nat)
    requires n < WORD && at + |HexText(n)| <= buf.Length
    modifies buf
    ensures count == |HexText(n)| && buf[..] == Put(old(buf[..]), at, HexText(n))
  {
    if n == 0 {
      buf[at] := '0';
      return 1;
    }
    var v := new char[SCRATCH];
    var total := SplitNibbles(Bytes(n, 8), v);
    assert Pow256(8) == WORD;
    ByteDigitsAreHex(n, 8);
    HexDigitsDenote(n);
    var i := SkipZeros(v, 16 - |HexDigits(n)|, HexDigits(n));
    count := 16 - i;
    CopyDigits(buf, at, v, i, count);
  }

  // ---------------------------------------------------------------- caos_vsprintf

  /** An argument popped by va_arg: a word, or the address of a string. */
  datatype Arg = Num(value: int) | Str(text: string)

  function Word(a: int): nat
    requires MIN64 <= a <= MAX64
  {
    if a < 0 then a + WORD else a
  }

  predicate IsSpec(fmt: string, letter: char) {
    |fmt| >= 2 && fmt[0] == '%' && fmt[1] == letter
  }

  /** The text of the first conversion or character of the format, and whether it takes an argument;
      None when the argument is missing or of the wrong kind. */
  function Piece(fmt: string, args: seq<Arg>): Option<string>
    requires fmt != ""
  {
    if IsSpec(fmt, 'd') then
      (if args != [] && args[0].Num? && MIN64 <= args[0].value <= MAX64 then Some(DecimalText(args[0].value)) else None)
    else if IsSpec(fmt, 'x') then
      (if args != [] && args[0].Num? && MIN64 <= args[0].value <= MAX64 then Some(HexText(Word(args[0].value))) else None)
    else if IsSpec(fmt, 's') then (if args != [] && args[0].Str? then Some(args[0].text) else None)
    else if IsSpec(fmt, 'c') then
      (if args != [] && args[0].Num? && MIN64 <= args[0].value <= MAX64 then Some([(Word(args[0].value) % 256) as char]) else None)
    else Some([fmt[0]])
  }

  predicate TakesArgument(fmt: string) {
    IsSpec(fmt, 'd') || IsSpec(fmt, 'x') || IsSpec(fmt, 's') || IsSpec(fmt, 'c')
  }

  /** What caos_vsprintf is for: the pieces in order. */
  function Render(fmt: string, args: seq<Arg>): Option<string>
    decreases |fmt|
  {
    if fmt == "" then Some("")
    else
      var p := Piece(fmt, args);
      if p.None? then None
      else
        var rest := if TakesArgument(fmt) then Render(fmt[2..], args[1..]) else Render(fmt[1..], args);
        if rest.None? then None else Some(p.value + rest.value)
  }

  /** The conversions, letter by letter, and any other character. */
  lemma Conversions(rest: string, a: int, text: string, args: seq<Arg>, c: char)
    requires -0x8000_0000_0000_0000 <= a <= 0x7FFF_FFFF_FFFF_FFFF
    ensures Piece("%d" + rest, [Num(a)] + args) == Some(DecimalText(a))
    ensures Piece("%x" + rest, [Num(a)] + args) == Some(HexText(if a < 0 then a + 0x1_0000_0000_0000_0000 else a))
    ensures Piece("%s" + rest, [Str(text)] + args) == Some(text)
    ensures 0 <= a < 256 ==> Piece("%c" + rest, [Num(a)] + args) == Some([a as char])
    ensures c != '%' ==> Piece([c] + rest, args) == Some([c])
  {
    assert IsSpec("%d" + rest, 'd') && IsSpec("%x" + rest, 'x') && IsSpec("%s" + rest, 's') && IsSpec("%c" + rest, 'c');
    assert ([c] + rest)[0] == c;
  }

  /** A format that begins with a conversion or a plain character renders as that piece and the rest. */
  lemma RenderGoesOn(rest: string, arg: Arg, args: seq<Arg>, c: char)
    requires Render(rest, args).Some?
    ensures forall l | l in "dxsc" && Piece(['%', l] + rest, [arg] + args).Some? ::
              Render(['%', l] + rest, [arg] + args) == Some(Piece(['%', l] + rest, [arg] + args).value + Render(rest, args).value)
    ensures c != '%' ==> Render([c] + rest, args) == Some([c] + Render(rest, args).value)
  {
    forall l | l in "dxsc" && Piece(['%', l] + rest, [arg] + args).Some?
      ensures Render(['%', l] + rest, [arg] + args) == Some(Piece(['%', l] + rest, [arg] + args).value + Render(rest, args).value)
    {
      var fmt, all := ['%', l] + rest, [arg] + args;
      assert IsSpec(fmt, l);
      assert fmt[2..] == rest && all[1..] == args;
    }
    var plain := [c] + rest;
    assert plain[1..] == rest && plain[0] == c;
  }

  /** Ten digits, sixteen digits. */
  lemma DigitChars(d: nat)
    ensures d < 10 ==> DecDigit(d) == "0123456789"[d]
    ensures d < 16 ==> HexDigit(d) == "0123456789ABCDEF"[d]
  {
  }

  lemma PutTwice(buf: string, at: nat, a: string, b: string)
    requires at + |a| + |b| <= |buf|
    ensures Put(Put(buf, at, a), at + |a|, b) == Put(buf, at, a + b)
  {
  }

  /** caos_strcat, as caos_vsprintf uses it: copies the string and returns its length. */
  method StrCat(buf: array<char>, at: nat, text: string) returns (count: nat)
    requires at + |text| <= buf.Length
    modifies buf
    ensures count == |text| && buf[..] == Put(old(buf[..]), at, text)
  {
    count := 0;
    while count < |text|
      invariant count <= |text|
      invariant forall k | 0 <= k < buf.Length :: buf[k] == if at <= k < at + count then text[k - at] else old(buf[k])
    {
      buf[at + count] := text[count];
      count := count + 1;
    }
    assert buf[..] == Put(old(buf[..]), at, text);
  }

  /** One conversion or character. */
  method PrintPiece(buf: array<char>, at: nat, fmt: string, args: seq<Arg>) returns (count: nat)
    requires fmt != "" && Piece(fmt, args).Some? && at + |Piece(fmt, args).value| <= buf.Length
    modifies buf
    ensures count == |Piece(fmt, args).value| && buf[..] == Put(old(buf[..]), at, Piece(fmt, args).value)
  {
    if IsSpec(fmt, 'd') {
      count := PrintDecimal(buf, at, args[0].value);
    } else if IsSpec(fmt, 'x') {
      count := PrintHex(buf, at, Word(args[0].value));
    } else if IsSpec(fmt, 's') {
      count := StrCat(buf, at, args[0].text);
    } else if IsSpec(fmt, 'c') {
      buf[at] := (Word(args[0].value) % 256) as char;
      count := 1;
    } else {
      buf[at] := fmt[0];
      count := 1;
    }
  }

  /** The format and the arguments behind the first piece. */
  function RestOf(fmt: string, args: seq<Arg>): (string, seq<Arg>)
    requires fmt != "" && (TakesArgument(fmt) ==> args != [])
  {
    if TakesArgument(fmt) then (fmt[2..], args[1..]) else (fmt[1..], args)
  }

  lemma PieceHasArgument(fmt: string, args: seq<Arg>)
    requires fmt != "" && Piece(fmt, args).Some?
    ensures TakesArgument(fmt) ==> args != []
  {
  }

  lemma RenderUnfold(fmt: string, args: seq<Arg>)
    requires fmt != "" && Render(fmt, args).Some?
    ensures Piece(fmt, args).Some? && (TakesArgument(fmt) ==> args != [])
    ensures var (f, a) := RestOf(fmt, args);
            Render(f, a).Some? && Render(fmt, args).value == Piece(fmt, args).value + Render(f, a).value
  {
    PieceHasArgument(fmt, args);
  }

  /** Rendering is the first piece and then the rest, behind whatever is done already. */
  lemma RenderPiece(done: string, fmt: string, args: seq<Arg>)
    requires fmt != "" && Render(fmt, args).Some?
    ensures Piece(fmt, args).Some? && (TakesArgument(fmt) ==> args != [])
    ensures var (f, a) := RestOf(fmt, args);
            Render(f, a).Some? && done + Render(fmt, args).value == (done + Piece(fmt, args).value) + Render(f, a).value
  {
    RenderUnfold(fmt, args);
    Associate(done, Piece(fmt, args).value, Render(RestOf(fmt, args).0, RestOf(fmt, args).1).value);
  }

  lemma Associate(a: string, b: string, c: string)
    ensures a + (b + c) == (a + b) + c
  {
  }

  /** What is done and what is still to be rendered make up the text. */
  ghost predicate Halfway(done: string, fmt: string, args: seq<Arg>, text: string) {
    Render(fmt, args).Some? && text == done + Render(fmt, args).value
  }

  lemma NextPiece(done: string, fmt: string, args: seq<Arg>, text: string)
    requires fmt != "" && Halfway(done, fmt, args, text)
    ensures Piece(fmt, args).Some? && (TakesArgument(fmt) ==> args != [])
    ensures |done| + |Piece(fmt, args).value| <= |text|
    ensures var (f, a) := RestOf(fmt, args); Halfway(done + Piece(fmt, args).value, f, a, text) && |f| < |fmt|
  {
    RenderPiece(done, fmt, args);
  }

  lemma AllDone(done: string, args: seq<Arg>, text: string)
    requires Halfway(done, "", args, text)
    ensures text == done
  {
  }

  /** One turn of the loop of caos_vsprintf. */
  method PrintNext(buf: array<char>, n: nat, fmt: string, args: seq<Arg>, ghost was: string, ghost done: string, ghost text: string)
    returns (n': nat, fmt': string, args': seq<Arg>, ghost done': string)
    requires fmt != "" && Halfway(done, fmt, args, text) && n == |done|
    requires |text| <= buf.Length == |was| && buf[..] == Put(was, 0, done)
    modifies buf
    ensures Halfway(done', fmt', args', text) && |fmt'| < |fmt| && n' == |done'| <= |text|
    ensures buf[..] == Put(was, 0, done')
  {
    NextPiece(done, fmt, args, text);
    ghost var piece := Piece(fmt, args).value;
    var count := PrintPiece(buf, n, fmt, args);
    PutTwice(was, 0, done, piece);
    n', done' := n + count, done + piece;
    fmt', args' := RestOf(fmt, args).0, RestOf(fmt, args).1;
  }

  /** The loop of caos_vsprintf. */
  method PrintPieces(buf: array<char>, format: string, arguments: seq<Arg>) returns (n: nat)
    requires Render(format, arguments).Some? && |Render(format, arguments).value| <= buf.Length
    modifies buf
    ensures n == |Render(format, arguments).value| && buf[..] == Put(old(buf[..]), 0, Render(format, arguments).value)
  {
    ghost var was, text, done := buf[..], Render(format, arguments).value, "";
    var fmt, args := format, arguments;
    n := 0;
    PutNone(was, 0);
    assert text == done + text;
    while fmt != ""
      invariant Halfway(done, fmt, args, text) && n == |done| <= |text|
      invariant buf[..] == Put(was, 0, done)
      decreases |fmt|
    {
      n, fmt, args, done := PrintNext(buf, n, fmt, args, was, done, text);
    }
    AllDone(done, args, text);
  }

  /** caos_vsprintf: the buffer holds the rendered text and a terminator, provided both fit. */
  method VsPrintf(buf: array<char>, format: string, arguments: seq<Arg>) returns (n: nat)
    requires Render(format, arguments).Some? && |Render(format, arguments).value| < buf.Length
    modifies buf
    ensures n == |Render(format, arguments).value|
    ensures buf[..n] == Render(format, arguments).value && buf[n] == '\0'
    ensures forall k | n < k < buf.Length :: buf[k] == old(buf[k])
  {
    n := PrintPieces(buf, format, arguments);
    ghost var was := buf[..];
    buf[n] := '\0';
    assert buf[..n] == was[..n];
  }

  // ---------------------------------------------------------------- caos_printf

  /** A string up to its terminator. */
  function UpToNul(s: string): string {
    if s == "" || s[0] == '\0' then "" else [s[0]] + UpToNul(s[1..])
  }

  /** A string with a terminator in it ends at the first one. */
  lemma {:induction false} UpToNulIsPrefix(s: string)
    requires '\0' in s
    ensures var n := |UpToNul(s)|;
            n < |s| && s[n] == '\0' && UpToNul(s) == s[..n] && forall k | 0 <= k < n :: s[k] != '\0'
  {
    if s[0] != '\0' {
      assert '\0' in s[1..];
      UpToNulIsPrefix(s[1..]);
      var n := |UpToNul(s[1..])|;
      assert s[..n + 1] == [s[0]] + s[1..][..n];
      forall k | 0 <= k < n + 1
        ensures s[k] != '\0'
      {
        assert k > 0 ==> s[k] == s[1..][k - 1];
      }
    }
  }

  lemma {:induction false} UpToNulOfPrefix(text: string, rest: string)
    requires rest != "" && rest[0] == '\0'
    ensures UpToNul(text + rest) == UpToNul(text)
  {
    if text != "" && text[0] != '\0' {
      assert (text + rest)[1..] == text[1..] + rest;
      UpToNulOfPrefix(text[1..], rest);
    } else if text == "" {
      assert text + rest == rest;
    }
  }

  /** caos_printf, when the text fits its static buffer: the screen shows the tape with the rendered
      text typed on, up to a NUL character a %c may have put in, and the result is that text's length. */
  method CaosPrintf(screen: Console, format: string, arguments: seq<Arg>, ghost t: Tape) returns (n: Option<nat>)
    requires screen.Shows(t) && Render(format, arguments).Some? && |Render(format, arguments).value| < SZ_SIZE
    modifies screen, screen.video
    ensures n == (if TypeAll(t, UpToNul(Render(format, arguments).value)).Some? then Some(|UpToNul(Render(format, arguments).value)|) else None)
    ensures n.Some? ==> screen.Shows(TypeAll(t, UpToNul(Render(format, arguments).value)).value)
  {
    var sz := new char[SZ_SIZE];
    var end := VsPrintf(sz, format, arguments);
    ghost var text := Render(format, arguments).value;
    assert sz[..] == text + sz[end..];
    UpToNulOfPrefix(text, sz[end..]);
    assert sz[..][end] == '\0';
    UpToNulIsPrefix(sz[..]);
    ghost var len := |UpToNul(sz[..])|;
    assert sz[..len] == sz[..][..len];
    n := screen.PutString(sz, len, t);
  }
}
