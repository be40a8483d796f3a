/** printf.c: how numbers and formats are rendered. */
module PrintfSpec {
  import Words


  // ---------- numbers ----------

  predicate BaseOk(base: int) {
    2 <= base <= 32
  }

  function DigitChar(d: nat): (c: char)
    requires d < 32
  {
    if d < 10 then '0' + d as char else 'a' + (d - 10) as char
  }

  /** Most significant digit first; no digits for 0. */
  function Digits(v: nat, base: int): string
    requires BaseOk(base)
  {
    if v == 0 then "" else Digits(v / base, base) + [DigitChar(v % base)]
  }

  function Unsigned(v: nat, base: int): string
    requires BaseOk(base)
  {
    if v == 0 then "0" else Digits(v, base)
  }

  function Signed(v: int, base: int): string
    requires BaseOk(base)
  {
    if v < 0 then "-" + Unsigned(-v, base) else Unsigned(v, base)
  }

  /** The value of a digit character. */
  function DigitValue(c: char): int {
    if '0' <= c <= '9' then c as int - '0' as int else c as int - 'a' as int + 10
  }

  /** Reading a numeral back, most significant digit first. */
  function ValueOf(s: string, base: int): int {
    if s == "" then 0 else ValueOf(s[..|s| - 1], base) * base + DigitValue(s[|s| - 1])
  }

  function SignedValueOf(s: string, base: int): int {
    if s != "" && s[0] == '-' then -ValueOf(s[1..], base) else ValueOf(s, base)
  }

  function Power(b: int, n: nat): int {
    if n == 0 then 1 else b * Power(b, n - 1)
  }

  lemma DigitReadsBack(d: nat)
    requires d < 32
    ensures DigitValue(DigitChar(d)) == d && DigitChar(d) != '-' && DigitChar(d) != '\0'
    ensures DigitChar(d) == '0' <==> d == 0
  {
  }

  lemma DivMod(v: nat, base: int)
    requires base >= 2
    ensures 0 <= v / base && 0 <= v % base < base && v == v / base * base + v % base
    ensures v > 0 ==> v / base < v
  {
  }

  lemma {:induction false} DigitsParse(v: nat, base: int)
    requires BaseOk(base)
    ensures ValueOf(Digits(v, base), base) == v
  {
    if v > 0 {
      DivMod(v, base);
      DigitsParse(v / base, base);
      DigitReadsBack(v % base);
      var s, q := Digits(v, base), v / base;
      assert s[..|s| - 1] == Digits(q, base);
      assert ValueOf(s, base) == q * base + DigitValue(s[|s| - 1]);
    }
  }

  /** A numeral has no leading zero, save the single 0, and no character but digits. */
  lemma {:induction false} DigitsClean(v: nat, base: int)
    requires BaseOk(base)
    ensures v > 0 ==> Digits(v, base) != "" && Digits(v, base)[0] != '0'
    ensures forall i :: 0 <= i < |Digits(v, base)| ==> 0 <= DigitValue(Digits(v, base)[i]) < base
    ensures forall i :: 0 <= i < |Digits(v, base)| ==> Digits(v, base)[i] != '-' && Digits(v, base)[i] != '\0'
  {
    if v > 0 {
      DivMod(v, base);
      DigitsClean(v / base, base);
      DigitReadsBack(v % base);
    }
  }

  /** The number of digits is the least that can hold the value. */
  lemma {:induction false} DigitsLength(v: nat, base: int)
    requires BaseOk(base) && v > 0
    ensures Digits(v, base) != ""
    ensures Power(base, |Digits(v, base)| - 1) <= v < Power(base, |Digits(v, base)|)
  {
    var q := v / base;
    DivMod(v, base);
    if q > 0 {
      DigitsLength(q, base);
      PowerStep(base, |Digits(q, base)|, q, v);
    } else {
      assert |Digits(v, base)| == 1;
      PowerOfOne(base);
    }
  }

  lemma PowerOfOne(base: int)
    ensures Power(base, 0) == 1 && Power(base, 1) == base
  {
    assert base * 1 == base;
  }

  lemma PowerStep(base: int, n: nat, q: int, v: int)
    requires base >= 2 && n >= 1 && Power(base, n - 1) <= q < Power(base, n) && q * base <= v < q * base + base
    ensures Power(base, n) <= v < Power(base, n + 1)
  {
    Words.ProductsOrder(Power(base, n - 1), q, base);
    Words.ProductsOrder(q + 1, Power(base, n), base);
    assert (q + 1) * base == q * base + base;
  }

  lemma {:induction false} PowerGrows(b: int, m: nat, n: nat)
    requires b >= 2 && m <= n
    ensures 1 <= Power(b, m) <= Power(b, n)
    decreases n
  {
    if n > 0 && m < n {
      PowerGrows(b, m, n - 1);
      assert Power(b, n - 1) <= b * Power(b, n - 1);
    } else if n > 0 {
      PowerGrows(b, n - 1, n - 1);
    }
  }

  /** A value below a power of the base needs no more digits than its exponent. */
  lemma DigitsAtMost(v: nat, base: int, n: nat)
    requires BaseOk(base) && v < Power(base, n)
    ensures |Digits(v, base)| <= n
  {
    if v > 0 {
      DigitsLength(v, base);
      if |Digits(v, base)| > n {
        PowerGrows(base, n, |Digits(v, base)| - 1);
      }
    }
  }

  /** Printing a number and reading it back gives the number. */
  lemma NumbersParse(v: int, base: int)
    requires BaseOk(base)
    ensures SignedValueOf(Signed(v, base), base) == v
    ensures v >= 0 ==> ValueOf(Unsigned(v, base), base) == v
    ensures v != 0 ==> var digits := if v < 0 then Signed(v, base)[1..] else Signed(v, base);
                       digits != "" && digits[0] != '0'
  {
    ZeroParses(base);
    if v < 0 {
      DigitsParse(-v, base);
      DigitsClean(-v, base);
      assert Signed(v, base)[1..] == Digits(-v, base);
    } else {
      DigitsParse(v, base);
      DigitsClean(v, base);
    }
  }

  lemma ZeroParses(base: int)
    requires BaseOk(base)
    ensures Signed(0, base) == Unsigned(0, base) == "0" && ValueOf("0", base) == 0 && SignedValueOf("0", base) == 0
  {
    assert "0"[..0] == "" && ValueOf("", base) == 0;
  }

  /** Every number the formats print fits the 32-byte buffer with its terminator, and has no NUL inside. */
  lemma NumbersFit(v: nat, n: int)
    requires v < 0x1_0000_0000_0000_0000 && -0x8000_0000 <= n < 0x8000_0000
    ensures |Unsigned(v, 10)| <= 20 && |Unsigned(v, 16)| <= 16 && |Signed(n, 10)| <= 11
  {
    assert Power(10, 5) == 100000 && Power(10, 10) == 10000000000;
    assert Power(10, 15) == 100000 * Power(10, 10);
    assert Power(10, 20) == 100000 * Power(10, 15);
    assert Power(16, 4) == 65536 && Power(16, 8) == 0x1_0000_0000;
    assert Power(16, 12) == 65536 * Power(16, 8);
    assert Power(16, 16) == 65536 * Power(16, 12);
    DigitsAtMost(v, 10, 20);
    DigitsAtMost(v, 16, 16);
    DigitsAtMost(if n < 0 then -n else n, 10, 10);
  }

  // ---------- formats ----------

  /** A variable argument: a 64-bit word or a string. */
  datatype Arg = Word(bits: nat) | Str(text: string)

  function ToInt32(x: int): int {
    var w := x % 0x1_0000_0000;
    if w >= 0x8000_0000 then w - 0x1_0000_0000 else w
  }

  function CharOf(bits: nat): char {
    (bits % 256) as char
  }

  predicate TakesWord(c: char) {
    c == 'c' || c == 'd' || c == 'u' || c == 'x'
  }

  /** The arguments are those that va_arg asks for. */
  predicate Supplied(f: string, args: seq<Arg>) {
    if |f| < 2 then true
    else if f[0] != '%' then Supplied(f[1..], args)
    else if f[1] == '%' then Supplied(f[2..], args)
    else if TakesWord(f[1]) then
      args != [] && args[0].Word? && args[0].bits < 0x1_0000_0000_0000_0000 && Supplied(f[2..], args[1..])
    else if f[1] == 's' then args != [] && args[0].Str? && Supplied(f[2..], args[1..])
    else true
  }

  /** One conversion's text. */
  function Conversion(c: char, arg: Arg): string
    requires if TakesWord(c) then arg.Word? else arg.Str?
  {
    if c == 'c' then [CharOf(arg.bits)]
    else if c == 'd' then Signed(ToInt32(arg.bits), 10)
    else if c == 'u' then Unsigned(arg.bits, 10)
    else if c == 'x' then Unsigned(arg.bits, 16)
    else arg.text
  }

  /** A word is truncated to the 32-bit integer it agrees with in its low 32 bits. */
  lemma TruncatedTo32(x: int)
    ensures -0x8000_0000 <= ToInt32(x) < 0x8000_0000
    ensures (x - ToInt32(x)) % 0x1_0000_0000 == 0
  {
    var q := x / 0x1_0000_0000;
    assert x - ToInt32(x) == if ToInt32(x) < 0 then 0x1_0000_0000 * (q + 1) else 0x1_0000_0000 * q;
  }

  lemma IntOfWord(n: int)
    requires -0x8000_0000 <= n < 0x8000_0000
    ensures ToInt32(n % 0x1_0000_0000_0000_0000) == n
  {
    if n < 0 {
      assert n % 0x1_0000_0000_0000_0000 == n + 0x1_0000_0000_0000_0000;
      assert (n + 0x1_0000_0000_0000_0000) % 0x1_0000_0000 == n + 0x1_0000_0000;
    }
  }

  /** %d prints every int as a numeral of its value, with a minus sign exactly when it is negative. */
  lemma IntPrintsItself(n: int)
    requires -0x8000_0000 <= n < 0x8000_0000
    ensures var text := Conversion('d', Word(n % 0x1_0000_0000_0000_0000));
            && SignedValueOf(text, 10) == n
            && text != "" && (text[0] == '-' <==> n < 0)
  {
    IntOfWord(n);
    NumbersParse(n, 10);
    NumbersFit(0, n);
    if n > 0 {
      DigitsClean(n, 10);
    }
  }

  /** The digits are the usual ones, in lower case. */
  lemma DigitsAreAscii(d: nat)
    requires d < 32
    ensures DigitChar(d) == "0123456789abcdefghijklmnopqrstuv"[d]
  {
  }

  /** %c prints the character of a code, whatever the upper bits of its word are. */
  lemma CharPrintsItself(c: char, upper: nat)
    requires c < 256 as char
    ensures Conversion('c', Word(c as nat + 256 * upper)) == [c]
  {
    assert (c as nat + 256 * upper) % 256 == c as nat;
  }

  lemma StringPrintsItself(text: string)
    ensures Conversion('s', Str(text)) == text
  {
  }

  /** What %d prints reads back as the argument truncated to 32 bits, and fits the buffer. */
  lemma SignedConversionParses(bits: nat)
    requires bits < 0x1_0000_0000_0000_0000
    ensures SignedValueOf(Conversion('d', Word(bits)), 10) == ToInt32(bits) && |Conversion('d', Word(bits))| < 32
  {
    var n := ToInt32(bits);
    NumbersParse(n, 10);
    NumbersFit(bits, n);
    assert Conversion('d', Word(bits)) == Signed(n, 10);
  }

  /** What %u and %x print reads back as the argument, and fits the buffer. */
  lemma UnsignedConversionParses(bits: nat, c: char)
    requires bits < 0x1_0000_0000_0000_0000 && (c == 'u' || c == 'x')
    ensures ValueOf(Conversion(c, Word(bits)), if c == 'x' then 16 else 10) == bits && |Conversion(c, Word(bits))| < 32
  {
    NumbersParse(bits, if c == 'x' then 16 else 10);
    NumbersFit(bits, 0);
  }

  /**
   * What a format prints, character by character. An unknown conversion, and a percent sign at the
   * end, print the whole rest of the format as it stands.
   */
  function Render(f: string, args: seq<Arg>): string
    requires Supplied(f, args)
  {
    if f == "" then ""
    else if f[0] != '%' then [f[0]] + Render(f[1..], args)
    else if |f| == 1 then f
    else if f[1] == '%' then "%" + Render(f[2..], args)
    else if TakesWord(f[1]) || f[1] == 's' then Conversion(f[1], args[0]) + Render(f[2..], args[1..])
    else f
  }

  /** A stretch without percent signs prints itself. */
  lemma {:induction false} PlainStretch(f: string, args: seq<Arg>, n: nat)
    requires Supplied(f, args) && n <= |f| && '%' !in f[..n]
    ensures Supplied(f[n..], args) && Render(f, args) == f[..n] + Render(f[n..], args)
  {
    if n == 0 {
      assert f[0..] == f;
    } else {
      FirstOfStretch(f, n);
      PlainHead(f, args);
      PlainStretch(f[1..], args, n - 1);
      Prepended(f[0], f[1..][..n - 1], Render(f[n..], args));
    }
  }

  lemma Prepended(c: char, s: string, t: string)
    ensures [c] + (s + t) == ([c] + s) + t
  {
  }

  lemma FirstOfStretch(f: string, n: nat)
    requires 0 < n <= |f| && '%' !in f[..n]
    ensures f[0] != '%' && '%' !in f[1..][..n - 1]
    ensures f[1..][n - 1..] == f[n..] && f[..n] == [f[0]] + f[1..][..n - 1]
  {
    assert f[..n][0] == f[0] && f[1..][..n - 1] == f[..n][1..];
  }

  lemma PlainHead(f: string, args: seq<Arg>)
    requires Supplied(f, args) && f != "" && f[0] != '%'
    ensures Supplied(f[1..], args) && Render(f, args) == [f[0]] + Render(f[1..], args)
  {
    assert |f| == 1 ==> f[1..] == "";
  }

  // ---------- formats in parts ----------

  /** Every percent sign begins a conversion the interpreter knows. */
  predicate Complete(f: string) {
    if f == "" then true
    else if f[0] != '%' then Complete(f[1..])
    else |f| >= 2 && f[1] in "%cdusx" && Complete(f[2..])
  }

  /** How many arguments a complete format consumes. */
  function Uses(f: string): nat
    requires Complete(f)
  {
    if f == "" then 0
    else if f[0] != '%' then Uses(f[1..])
    else (if f[1] == '%' then 0 else 1) + Uses(f[2..])
  }

  /** The first conversion of a format. */
  lemma FirstConversion(f: string, args: seq<Arg>)
    requires |f| >= 2 && f[0] == '%' && f[1] in "cdusx"
    ensures Supplied(f, args) <==>
            && args != [] && Supplied(f[2..], args[1..])
            && if f[1] == 's' then args[0].Str? else args[0].Word? && args[0].bits < 0x1_0000_0000_0000_0000
    ensures Supplied(f, args) ==> Render(f, args) == Conversion(f[1], args[0]) + Render(f[2..], args[1..])
  {
  }

  /** A complete format prints the same whatever follows it, and what follows prints as it would alone. */
  lemma {:induction false} RenderConcat(f: string, g: string, args: seq<Arg>, more: seq<Arg>)
    requires Complete(f) && Supplied(f, args) && |args| == Uses(f) && Supplied(g, more)
    ensures Supplied(f + g, args + more)
    ensures Render(f + g, args + more) == Render(f, args) + Render(g, more)
    decreases |f|
  {
    if f == "" {
      assert f + g == g && args + more == more;
    } else if f[0] != '%' {
      PlainConcat(f, g, args, more);
    } else if f[1] == '%' {
      RenderConcat(f[2..], g, args, more);
      assert (f + g)[2..] == f[2..] + g && (f + g)[1] == f[1];
      Prepended('%', Render(f[2..], args), Render(g, more));
    } else {
      ConversionConcat(f, g, args, more);
    }
  }

  lemma PlainConcat(f: string, g: string, args: seq<Arg>, more: seq<Arg>)
    requires f != "" && f[0] != '%' && Complete(f) && Supplied(f, args) && |args| == Uses(f) && Supplied(g, more)
    ensures Supplied(f + g, args + more) && Render(f + g, args + more) == Render(f, args) + Render(g, more)
    decreases |f|, 0
  {
    PlainHead(f, args);
    RenderConcat(f[1..], g, args, more);
    assert (f + g)[1..] == f[1..] + g;
    PlainHead(f + g, args + more);
    Prepended(f[0], Render(f[1..], args), Render(g, more));
  }

  lemma ConversionConcat(f: string, g: string, args: seq<Arg>, more: seq<Arg>)
    requires |f| >= 2 && f[0] == '%' && f[1] in "cdusx" && Complete(f) && Supplied(f, args) && |args| == Uses(f)
    requires Supplied(g, more)
    ensures Supplied(f + g, args + more) && Render(f + g, args + more) == Render(f, args) + Render(g, more)
    decreases |f|, 0
  {
    FirstConversion(f, args);
    RenderConcat(f[2..], g, args[1..], more);
    ConcatTail(f, g, 2);
    ConcatTail(args, more, 1);
    FirstConversion(f + g, args + more);
    Grouped(Conversion(f[1], args[0]), Render(f[2..], args[1..]), Render(g, more));
  }

  lemma ConcatTail<T>(s: seq<T>, t: seq<T>, n: nat)
    requires n <= |s|
    ensures (s + t)[n..] == s[n..] + t && forall i :: 0 <= i < n ==> (s + t)[i] == s[i]
  {
  }

  lemma Grouped(a: string, b: string, c: string)
    ensures a + (b + c) == (a + b) + c
  {
  }

  lemma UnknownAlone(rest: string)
    requires rest == "" || rest[0] !in "%cdusx"
    ensures Supplied("%" + rest, []) && Render("%" + rest, []) == "%" + rest
  {
  }

  /** A conversion the interpreter does not know, or a percent sign at the end, prints itself and all that follows it. */
  lemma UnknownEnds(f: string, args: seq<Arg>, rest: string)
    requires Complete(f) && Supplied(f, args) && |args| == Uses(f)
    requires rest == "" || rest[0] !in "%cdusx"
    ensures Supplied(f + ("%" + rest), args) && Render(f + ("%" + rest), args) == Render(f, args) + ("%" + rest)
  {
    UnknownAlone(rest);
    RenderConcat(f, "%" + rest, args, []);
    assert args + [] == args;
  }

  /** One conversion alone. */
  lemma ConversionAlone(c: char, arg: Arg)
    requires (c in "cdux" && arg.Word? && arg.bits < 0x1_0000_0000_0000_0000) || (c == 's' && arg.Str?)
    ensures Supplied("%" + [c], [arg]) && Render("%" + [c], [arg]) == Conversion(c, arg)
  {
    var f := "%" + [c];
    assert f[0] == '%' && f[1] == c && f[2..] == "" && Render("", [arg][1..]) == "";
  }

  /** Three conversions in full. */
  lemma ConversionExamples()
    ensures Conversion('u', Word(450)) == "450" && Conversion('x', Word(450)) == "1c2"
    ensures Conversion('d', Word(0xFFFF_FFFF_FFFF_FE3E)) == "-450"
  {
    assert Digits(4, 10) == "4" && Digits(45, 10) == "45" && Digits(450, 10) == "450";
    assert Digits(1, 16) == "1" && Digits(28, 16) == "1c" && Digits(450, 16) == "1c2";
    IntOfWord(-450);
  }
}

/** printf.c: the loops that produce the text. */
module Printf {
  import opened PrintfSpec

  // ---------- numbers, in place ----------

  /** A sequence read from its end. */
  function Backwards<T>(s: seq<T>): (r: seq<T>)
    ensures |r| == |s|
  {
    if s == [] then [] else Backwards(s[1..]) + [s[0]]
  }

  lemma {:induction false} BackwardsAt<T>(s: seq<T>, k: nat)
    requires k < |s|
    ensures Backwards(s)[k] == s[|s| - 1 - k]
  {
    if k < |s| - 1 {
      BackwardsAt(s[1..], k);
    }
  }

  lemma {:induction false} BackwardsAppend<T>(s: seq<T>, x: T)
    ensures Backwards(s + [x]) == [x] + Backwards(s)
  {
    if s == [] {
      assert s + [x] == [x];
    } else {
      assert (s + [x])[1..] == s[1..] + [x];
      BackwardsAppend(s[1..], x);
    }
  }

  /** The first loop of itoa_internal: digits from the lowest up. */
  method StoreDigits(value: nat, str: array<char>, start: nat, base: int) returns (end: nat)
    requires BaseOk(base) && start + |Digits(value, base)| < str.Length
    modifies str
    ensures end == start + |Digits(value, base)|
    ensures Backwards(str[start..end]) == Digits(value, base)
    ensures forall k :: 0 <= k < str.Length && !(start <= k < end) ==> str[k] == old(str[k])
  {
    end := start;
    var num: nat := value;
    assert str[start..end] == [];
    while num != 0
      invariant start <= end && end + |Digits(num, base)| == start + |Digits(value, base)|
      invariant Digits(num, base) + Backwards(str[start..end]) == Digits(value, base)
      invariant forall k :: 0 <= k < str.Length && !(start <= k < end) ==> str[k] == old(str[k])
      decreases num
    {
      DivMod(num, base);
      ghost var low := str[start..end];
      StoreDigit(str, end, num % base);
      assert str[start..end + 1] == low + [DigitChar(num % base)];
      OneMoreDigit(num, base, low);
      end := end + 1;
      num := num / base;
    }
  }

  /** Storing the lowest digit moves it from the number to the text. */
  lemma OneMoreDigit(num: nat, base: int, low: string)
    requires BaseOk(base) && num > 0
    ensures 0 <= num / base && 0 <= num % base < 32
    ensures |Digits(num, base)| == |Digits(num / base, base)| + 1
    ensures Digits(num, base) + Backwards(low) == Digits(num / base, base) + Backwards(low + [DigitChar(num % base)])
  {
    DivMod(num, base);
    BackwardsAppend(low, DigitChar(num % base));
    var d := DigitChar(num % base);
    assert (Digits(num / base, base) + [d]) + Backwards(low) == Digits(num / base, base) + ([d] + Backwards(low));
  }

  method StoreDigit(str: array<char>, end: nat, digit: nat)
    requires end < str.Length && digit < 32
    modifies str
    ensures str[end] == DigitChar(digit) && forall k :: 0 <= k < str.Length && k != end ==> str[k] == old(str[k])
  {
    if digit < 10 {
      str[end] := '0' + digit as char;
    } else {
      str[end] := 'a' + (digit - 10) as char;
    }
  }

  /** The second loop of itoa_internal: swap from both ends. */
  method ReverseRange(str: array<char>, start: nat, end: nat)
    requires start <= end <= str.Length
    modifies str
    ensures str[start..end] == Backwards(old(str[start..end]))
    ensures forall k :: 0 <= k < str.Length && !(start <= k < end) ==> str[k] == old(str[k])
  {
    var left, right := start, end - 1;
    while left < right
      invariant start <= left && left - start == end - 1 - right && left <= right + 1
      invariant forall k :: start <= k < left || right < k < end ==> str[k] == old(str[start + end - 1 - k])
      invariant forall k :: left <= k <= right ==> str[k] == old(str[k])
      invariant forall k :: 0 <= k < str.Length && !(start <= k < end) ==> str[k] == old(str[k])
      decreases right - left
    {
      var tmp := str[left];
      str[left] := str[right];
      str[right] := tmp;
      left, right := left + 1, right - 1;
    }
    ghost var before, after := old(str[start..end]), str[start..end];
    assert forall k :: start <= k < end ==> str[k] == old(str[start + end - 1 - k]);
    assert forall k :: 0 <= k < |before| ==> after[k] == str[start + k] && before[k] == old(str[start + k]);
    Mirrored(before, after);
  }

  lemma Mirrored<T>(s: seq<T>, r: seq<T>)
    requires |r| == |s| && forall k :: 0 <= k < |s| ==> r[k] == s[|s| - 1 - k]
    ensures r == Backwards(s)
  {
    forall k | 0 <= k < |s|
      ensures r[k] == Backwards(s)[k]
    {
      BackwardsAt(s, k);
    }
  }

  /** A buffer after a NUL-terminated text was stored from `start` on. */
  function Stored(buffer: seq<char>, start: nat, text: string): seq<char>
    requires start + |text| < |buffer|
  {
    buffer[..start] + text + ['\0'] + buffer[start + |text| + 1..]
  }

  lemma StoredAfter(buffer: seq<char>, c: char, text: string)
    requires 1 + |text| < |buffer|
    ensures Stored(buffer[0 := c], 1, text) == Stored(buffer, 0, [c] + text)
  {
  }

  lemma StoredZero(buffer: seq<char>)
    requires 1 < |buffer|
    ensures Stored(buffer, 0, "0") == buffer[0 := '0'][1 := '\0']
  {
  }

  method ItoaInternal(value: nat, str: array<char>, start: nat, base: int)
    requires BaseOk(base) && start + |Digits(value, base)| < str.Length
    modifies str
    ensures str[..] == Stored(old(str[..]), start, Digits(value, base))
  {
    ghost var before := str[..];
    var end := StoreDigits(value, str, start, base);
    str[end] := '\0';
    ReverseRange(str, start, end);
    StoredWhen(before, str[..], start, Digits(value, base));
  }

  lemma StoredWhen(before: seq<char>, now: seq<char>, start: nat, text: string)
    requires |now| == |before| && start + |text| < |before|
    requires now[start..start + |text|] == text && now[start + |text|] == '\0'
    requires forall k :: 0 <= k < |now| && !(start <= k <= start + |text|) ==> now[k] == before[k]
    ensures now == Stored(before, start, text)
  {
    forall k | 0 <= k < |now|
      ensures now[k] == Stored(before, start, text)[k]
    {
      if start <= k < start + |text| {
        assert now[k] == text[k - start];
      }
    }
  }

  /** itoa_signed; nothing is stored for a base out of range. */
  method ItoaSigned(value: int, str: array<char>, base: int)
    requires -0x8000_0000_0000_0000 <= value < 0x8000_0000_0000_0000
    requires BaseOk(base) ==> |Signed(value, base)| < str.Length
    modifies str
    ensures str[..] == if BaseOk(base) then Stored(old(str[..]), 0, Signed(value, base)) else old(str[..])
  {
    if base < 2 || base > 32 {
      return;
    }
    if value == 0 {
      StoredZero(str[..]);
      str[0] := '0';
      str[1] := '\0';
      return;
    }
    var start, magnitude := 0, value;
    if value < 0 {
      StoredAfter(str[..], '-', Digits(-value, base));
      magnitude := -value;
      str[0] := '-';
      start := 1;
    }
    ItoaInternal(magnitude, str, start, base);
  }

  /** itoa_unsigned. */
  method ItoaUnsigned(value: nat, str: array<char>, base: int)
    requires BaseOk(base) ==> |Unsigned(value, base)| < str.Length
    modifies str
    ensures str[..] == if BaseOk(base) then Stored(old(str[..]), 0, Unsigned(value, base)) else old(str[..])
  {
    if base < 2 || base > 32 {
      return;
    }
    if value == 0 {
      StoredZero(str[..]);
      str[0] := '0';
      str[1] := '\0';
      return;
    }
    ItoaInternal(value, str, 0, base);
  }

  method StrLen(str: array<char>) returns (n: nat)
    requires exists z :: 0 <= z < str.Length && str[z] == '\0'
    ensures n < str.Length && str[n] == '\0' && forall k :: 0 <= k < n ==> str[k] != '\0'
  {
    ghost var z :| 0 <= z < str.Length && str[z] == '\0';
    n := 0;
    while str[n] != '\0'
      invariant n <= z && forall k :: 0 <= k < n ==> str[k] != '\0'
      decreases z - n
    {
      n := n + 1;
    }
  }

  /** The text stored in a buffer is read back whole. */
  method BufferText(str: array<char>, ghost before: seq<char>, ghost text: string) returns (s: string)
    requires |text| < |before| && str[..] == Stored(before, 0, text)
    requires forall k :: 0 <= k < |text| ==> text[k] != '\0'
    ensures s == text
  {
    assert forall k :: 0 <= k < |text| ==> str[..][k] == text[k];
    assert str[..][|text|] == '\0';
    var n := StrLen(str);
    s := str[..n];
    assert str[..|text|] == text;
  }

  lemma SignedHasNoNul(v: int)
    ensures forall k :: 0 <= k < |Signed(v, 10)| ==> Signed(v, 10)[k] != '\0'
  {
    DigitsClean(if v < 0 then -v else v, 10);
  }

  method FormatSigned(bits: nat) returns (s: string)
    requires bits < 0x1_0000_0000_0000_0000
    ensures s == Signed(ToInt32(bits), 10)
  {
    var str := new char[32](_ => '\0');
    var num := ToInt32(bits);
    ghost var before := str[..];
    NumbersFit(bits, num);
    SignedHasNoNul(num);
    ItoaSigned(num, str, 10);
    s := BufferText(str, before, Signed(num, 10));
  }

  method FormatUnsigned(bits: nat, base: int) returns (s: string)
    requires bits < 0x1_0000_0000_0000_0000 && (base == 10 || base == 16)
    ensures s == Unsigned(bits, base)
  {
    var str := new char[32](_ => '\0');
    ghost var before := str[..];
    NumbersFit(bits, 0);
    DigitsClean(bits, base);
    ItoaUnsigned(bits, str, base);
    s := BufferText(str, before, Unsigned(bits, base));
  }

  // ---------- formats ----------

  /** Characters up to the next percent sign, at least one. */
  method RunLength(f: string) returns (amount: nat)
    requires f != ""
    ensures 1 <= amount <= |f| && '%' !in f[1..amount]
    ensures amount < |f| ==> f[amount] == '%'
  {
    amount := 1;
    while amount < |f| && f[amount] != '%'
      invariant 1 <= amount <= |f| && '%' !in f[1..amount]
    {
      assert f[1..amount + 1] == f[1..amount] + [f[amount]];
      amount := amount + 1;
    }
  }

  /** The characters that may still be counted; `written` is an int and wraps before this does. */
  function MaxRem(written: int): int {
    (0xFFFF_FFFF_FFFF_FFFF - written) % 0x1_0000_0000_0000_0000
  }

  /** Never short of 2^64 - 2^31 while the count is right; once it has wrapped, one less than its size. */
  lemma MaxRemMeans(written: int)
    requires -0x8000_0000 <= written < 0x8000_0000
    ensures MaxRem(written) == if written >= 0 then 0xFFFF_FFFF_FFFF_FFFF - written else -written - 1
  {
  }

  /** A first character that is printed as it stands. */
  lemma FirstRenders(f: string, args: seq<Arg>)
    requires f != "" && Supplied(f, args) && (f[0] != '%' || (|f| > 1 && f[1] == '%'))
    ensures var g := if f[0] == '%' then f[1..] else f;
            Supplied(g[1..], args) && Render(f, args) == [g[0]] + Render(g[1..], args)
  {
    if f[0] == '%' {
      assert f[2..] == f[1..][1..];
    } else if |f| == 1 {
      assert f[1..] == "";
    }
  }

  /** A run is printed as it stands, from the second of a doubled percent sign on. */
  lemma RunRenders(f: string, g: string, args: seq<Arg>, run: nat)
    requires 1 <= run <= |g| && '%' !in g[1..run]
    requires Supplied(f, args) && Supplied(g[1..], args) && Render(f, args) == [g[0]] + Render(g[1..], args)
    ensures Supplied(g[run..], args) && Render(f, args) == g[..run] + Render(g[run..], args)
  {
    RunSlices(g, run);
    PlainStretch(g[1..], args, run - 1);
    Joined([g[0]], g[1..run], Render(g[run..], args));
  }

  lemma RunSlices(g: string, run: nat)
    requires 1 <= run <= |g|
    ensures g[1..][..run - 1] == g[1..run] && g[1..][run - 1..] == g[run..]
    ensures [g[0]] + g[1..run] == g[..run]
  {
  }

  lemma Joined(a: string, b: string, c: string)
    ensures a + (b + c) == (a + b) + c
  {
  }

  /** f with its arguments is what is left to print of `all` after `out`. */
  ghost predicate Left(all: string, out: string, f: string, args: seq<Arg>) {
    Supplied(f, args) && all == out + Render(f, args)
  }

  lemma Advance(all: string, out: string, f: string, args: seq<Arg>, text: string, f': string, args': seq<Arg>)
    requires Left(all, out, f, args) && Supplied(f', args') && Render(f, args) == text + Render(f', args')
    ensures Left(all, out + text, f', args') && (text != "" ==> out < all) && out <= all
  {
    Joined(out, text, Render(f', args'));
  }

  lemma CountFits(length: nat, more: nat)
    requires length + more < 0x8000_0000
    ensures MaxRem(ToInt32(length)) >= more && ToInt32(length) == length
  {
  }

  lemma CountAdds(length: nat, more: nat)
    ensures ToInt32(ToInt32(length) + more) == ToInt32(length + more)
  {
  }

  /** The text of one conversion and its effect on the count; the count of characters is checked only for %c and %s. */
  method Convert(c: char, arg: Arg) returns (text: string)
    requires TakesWord(c) || c == 's'
    requires if TakesWord(c) then arg.Word? && arg.bits < 0x1_0000_0000_0000_0000 else arg.Str?
    ensures text == Conversion(c, arg)
  {
    if c == 'c' {
      text := [CharOf(arg.bits)];
    } else if c == 's' {
      text := arg.text;
    } else if c == 'd' {
      text := FormatSigned(arg.bits);
    } else {
      text := FormatUnsigned(arg.bits, if c == 'x' then 16 else 10);
    }
  }

  /**
   * vprintk_func, with a terminal that takes every character. The text printed is always a prefix
   * of the format's rendering; below 2 GiB it is the rendering itself and its length is returned.
   */
  method VprintkFunc(format: string, parameters: seq<Arg>) returns (r: int, out: string)
    requires Supplied(format, parameters)
    ensures (out == Render(format, parameters) && r == ToInt32(|out|)) || (out < Render(format, parameters) && r == -1)
    ensures |Render(format, parameters)| < 0x8000_0000 ==>
              out == Render(format, parameters) && r == |Render(format, parameters)|
  {
    ghost var all := Render(format, parameters);
    var f, args, written := format, parameters, 0;
    out := "";
    while f != ""
      invariant Left(all, out, f, args) && written == ToInt32(|out|)
      decreases |f|
    {
      var stop, text;
      stop, text, f, args := NextPiece(f, args, MaxRem(written), all, out);
      if stop {
        Stopped(all, out, text, f, args);
        return -1, out;
      }
      written := Counted(written, out, text);
      out := out + text;
    }
    r := written;
    if |all| < 0x8000_0000 {
      CountFits(|all|, 0);
    }
  }

  /** `written += len`. */
  method Counted(written: int, ghost out: string, text: string) returns (count: int)
    requires written == ToInt32(|out|)
    ensures count == ToInt32(|out + text|)
  {
    CountAdds(|out|, |text|);
    count := ToInt32(written + |text|);
  }

  /** The count stops the printing only when the text would have 2 GiB or more. */
  lemma Stopped(all: string, out: string, text: string, f: string, args: seq<Arg>)
    requires Left(all, out + text, f, args) && MaxRem(ToInt32(|out|)) < |text|
    ensures out < all && |all| >= 0x8000_0000
  {
    Joined(out, text, Render(f, args));
    if |all| < 0x8000_0000 {
      CountFits(|out|, |text|);
    }
  }

  /** One round of the loop: what it prints and what is left, or that the count would overflow. */
  method NextPiece(f: string, args: seq<Arg>, maxrem: int, ghost all: string, ghost out: string)
    returns (stop: bool, text: string, f': string, args': seq<Arg>)
    requires f != "" && Left(all, out, f, args) && maxrem >= 0
    ensures Left(all, out + text, f', args') && |f'| < |f|
    ensures stop ==> maxrem < |text|
  {
    if f[0] != '%' || (|f| > 1 && f[1] == '%') {
      var g := f;
      if f[0] == '%' {
        g := f[1..];
      }
      var amount := RunLength(g);
      FirstRenders(f, args);
      RunRenders(f, g, args, amount);
      stop, text, f', args' := maxrem < amount, g[..amount], g[amount..], args;
    } else if |f| > 1 && (TakesWord(f[1]) || f[1] == 's') {
      text := Convert(f[1], args[0]);
      stop := (f[1] == 'c' || f[1] == 's') && maxrem < |text|;
      f', args' := f[2..], args[1..];
    } else {
      stop, text, f', args' := maxrem < |f|, f, "", args;
    }
    Advance(all, out, f, args, text, f', args');
  }
}
