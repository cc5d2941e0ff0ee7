/** The `rate_limit` query argument of `GET /slow`: parsed with `atoi` and
    clamped to at least 1. `atoi` is modelled as glibc implements it:
    `(int) strtol(s, NULL, 10)` on a 64-bit `long`. */
module RequestArgs {
  import opened Util
  import RateLimiter

  const IntMin: int := -0x8000_0000
  const IntMax: int := 0x7FFF_FFFF
  const LongMin: int := -0x8000_0000_0000_0000
  const LongMax: int := 0x7FFF_FFFF_FFFF_FFFF

  /** `isspace` in the C locale: space, and `\t` `\n` `\v` `\f` `\r`. */
  predicate IsSpace(c: char)
  {
    c == ' ' || '\t' <= c <= '\r'
  }

  predicate IsDigit(c: char)
  {
    '0' <= c <= '9'
  }

  function DigitValue(c: char): (d: nat)
    requires IsDigit(c)
    ensures d < 10
  {
    (c as int) - ('0' as int)
  }

  function DigitChar(d: nat): (c: char)
    requires d < 10
    ensures IsDigit(c) && DigitValue(c) == d
  {
    (('0' as int) + d) as char
  }

  /** `s` without its leading white space. */
  function SkipSpaces(s: string): (r: string)
    ensures |r| <= |s| && r == s[|s| - |r|..]
    ensures r == [] || !IsSpace(r[0])
  {
    if s != [] && IsSpace(s[0]) then SkipSpaces(s[1..]) else s
  }

  /** The number of leading decimal digits of `s`. */
  function LeadingDigits(s: string): (k: nat)
    ensures k <= |s|
    ensures forall i :: 0 <= i < k ==> IsDigit(s[i])
    ensures k < |s| ==> !IsDigit(s[k])
  {
    if s != [] && IsDigit(s[0]) then 1 + LeadingDigits(s[1..]) else 0
  }

  predicate AllDigits(s: string)
  {
    forall i :: 0 <= i < |s| ==> IsDigit(s[i])
  }

  /** The value of a string of decimal digits, most significant first. */
  function ValueOf(s: string): nat
    requires AllDigits(s)
  {
    if s == [] then 0 else ValueOf(s[..|s| - 1]) * 10 + DigitValue(s[|s| - 1])
  }

  /** The value of the leading digits of `u`. */
  function Unsigned(u: string): nat
  {
    ValueOf(u[..LeadingDigits(u)])
  }

  /** The number `strtol` reads, before it saturates: white space, an
      optional sign, then the longest run of digits. */
  function StrtolValue(s: string): int
  {
    var t := SkipSpaces(s);
    if t != [] && t[0] == '-' then -(Unsigned(t[1..]) as int)
    else if t != [] && t[0] == '+' then Unsigned(t[1..])
    else Unsigned(t)
  }

  /** `strtol` saturates at the bounds of `long`. */
  function Saturate(x: int): (r: int)
    ensures LongMin <= r <= LongMax
    ensures LongMin <= x <= LongMax ==> r == x
    ensures x > LongMax ==> r == LongMax
    ensures x < LongMin ==> r == LongMin
  {
    if x < LongMin then LongMin else if x > LongMax then LongMax else x
  }

  /** The conversion of a `long` to `int`: the low 32 bits, two's complement. */
  function ToInt(x: int): (r: int)
    ensures IntMin <= r <= IntMax
    ensures (r - x) % 0x1_0000_0000 == 0
    ensures IntMin <= x <= IntMax ==> r == x
  {
    (x - IntMin) % 0x1_0000_0000 + IntMin
  }

  /** `atoi`. */
  function Atoi(s: string): (r: int)
    ensures IntMin <= r <= IntMax
  {
    ToInt(Saturate(StrtolValue(s)))
  }

  /** The `rate_limit` rule of `handle_request`: 1 when the argument is
      absent, else its `atoi` value, raised to 1 when that is below 1. */
  function RateLimitArgument(arg: Option<string>): (r: int)
    ensures 1 <= r <= IntMax
    ensures arg.None? ==> r == 1
    ensures arg.Some? ==> (Atoi(arg.value) >= 1 <==> r == Atoi(arg.value))
    ensures arg.Some? && Atoi(arg.value) < 1 ==> r == 1
  {
    var n := if arg.Some? then Atoi(arg.value) else 1;
    if n < 1 then 1 else n
  }

  // ---------------------------------------------------------------------
  // Decimal numerals, and the round trip through atoi
  // ---------------------------------------------------------------------

  /** The decimal numeral of `n`, without leading zeros. */
  function Decimal(n: nat): (s: string)
    ensures |s| >= 1 && AllDigits(s)
  {
    if n < 10 then [DigitChar(n)] else Decimal(n / 10) + [DigitChar(n % 10)]
  }

  /** `n` as `printf("%d")` writes it. */
  function Signed(n: int): string
  {
    if n < 0 then "-" + Decimal(-n) else Decimal(n)
  }

  lemma {:induction false} ValueOfDecimal(n: nat)
    ensures ValueOf(Decimal(n)) == n
  {
    if n >= 10 {
      var d := Decimal(n / 10);
      ValueOfDecimal(n / 10);
      assert (d + [DigitChar(n % 10)])[..|d|] == d;
    }
  }

  /** The digit run of a numeral followed by anything that does not start
      with a digit is the numeral. */
  lemma {:induction false} LeadingDigitsOfNumeral(d: string, rest: string)
    requires AllDigits(d)
    requires rest == [] || !IsDigit(rest[0])
    ensures LeadingDigits(d + rest) == |d|
    decreases |d|
  {
    if d != [] {
      LeadingDigitsOfNumeral(d[1..], rest);
      assert (d + rest)[1..] == d[1..] + rest;
    } else {
      assert d + rest == rest;
    }
  }

  lemma UnsignedOfNumeral(d: string, rest: string)
    requires AllDigits(d)
    requires rest == [] || !IsDigit(rest[0])
    ensures Unsigned(d + rest) == ValueOf(d)
  {
    LeadingDigitsOfNumeral(d, rest);
    assert (d + rest)[..|d|] == d;
  }

  /** White space skipping drops only white space. */
  lemma {:induction false} SkipDropsOnlySpaces(s: string)
    ensures forall i :: 0 <= i < |s| - |SkipSpaces(s)| ==> IsSpace(s[i])
    decreases |s|
  {
    if s != [] && IsSpace(s[0]) {
      SkipDropsOnlySpaces(s[1..]);
    }
  }

  /** White space skipping stops at once at a character that is not one. */
  lemma SkipNoSpaces(s: string)
    requires s != [] && !IsSpace(s[0])
    ensures SkipSpaces(s) == s
  {
  }

  /** The number `strtol` reads from a numeral without a sign. */
  lemma StrtolOfDigits(d: string, rest: string)
    requires |d| >= 1 && AllDigits(d)
    requires rest == [] || !IsDigit(rest[0])
    ensures StrtolValue(d + rest) == ValueOf(d)
  {
    var s := d + rest;
    assert s[0] == d[0];
    SkipNoSpaces(s);
    UnsignedOfNumeral(d, rest);
  }

  /** The number `strtol` reads from a minus sign followed by a numeral. */
  lemma StrtolOfNegative(s: string, d: string, rest: string)
    requires |d| >= 1 && AllDigits(d)
    requires rest == [] || !IsDigit(rest[0])
    requires |s| >= 1 && s[0] == '-' && s[1..] == d + rest
    ensures StrtolValue(s) == -(ValueOf(d) as int)
  {
    SkipNoSpaces(s);
    UnsignedOfNumeral(d, rest);
  }

  /** A sign in front of a numeral, followed by the rest of the text. */
  lemma SignThenNumeral(sign: char, d: string, rest: string)
    ensures var s := ([sign] + d) + rest; |s| >= 1 && s[0] == sign && s[1..] == d + rest
  {
    var s := ([sign] + d) + rest;
    assert s == [sign] + (d + rest);
  }

  /** `strtol` reads back the number `printf` wrote, whatever follows it
      that is not a digit. */
  lemma StrtolOfSigned(n: int, rest: string)
    requires rest == [] || !IsDigit(rest[0])
    ensures StrtolValue(Signed(n) + rest) == n
  {
    if n < 0 {
      StrtolOfSignedNegative(n, rest);
    } else {
      ValueOfDecimal(n);
      StrtolOfDigits(Decimal(n), rest);
    }
  }

  lemma StrtolOfSignedNegative(n: int, rest: string)
    requires n < 0 && (rest == [] || !IsDigit(rest[0]))
    ensures StrtolValue(Signed(n) + rest) == n
  {
    var p, d := Signed(n), Decimal(-n);
    SignedNegative(n);
    HeadThenRest(p, rest);
    StrtolOfNegative(p + rest, d, rest);
    ValueOfDecimal(-n);
  }

  lemma SignedNegative(n: int)
    requires n < 0
    ensures |Signed(n)| >= 1 && Signed(n)[0] == '-' && Signed(n)[1..] == Decimal(-n)
  {
    var d := Decimal(-n);
    assert Signed(n) == ['-'] + d;
  }

  lemma HeadThenRest(p: string, rest: string)
    requires |p| >= 1
    ensures (p + rest)[0] == p[0] && (p + rest)[1..] == p[1..] + rest
  {
  }

  /** `atoi` reads back every `int` written in decimal. */
  lemma AtoiOfSigned(n: int, rest: string)
    requires IntMin <= n <= IntMax
    requires rest == [] || !IsDigit(rest[0])
    ensures Atoi(Signed(n) + rest) == n
  {
    StrtolOfSigned(n, rest);
  }

  /** A numeral beyond the range of `int` but within that of `long` keeps
      only its low 32 bits. */
  lemma AtoiWraps(n: int)
    requires LongMin <= n <= LongMax
    ensures Atoi(Signed(n)) == ToInt(n)
  {
    StrtolOfSigned(n, []);
    assert Signed(n) + [] == Signed(n);
  }

  /** `?rate_limit=N` gives the rate limit N for every N from 1 to INT_MAX,
      and 1 for every `int` N below 1. */
  lemma RateLimitOfNumeral(n: int)
    requires IntMin <= n <= IntMax
    ensures RateLimitArgument(Some(Signed(n))) == if n < 1 then 1 else n
  {
    AtoiOfSigned(n, []);
    assert Signed(n) + [] == Signed(n);
  }

  /** Past INT_MAX the argument wraps: numerals 2^32 apart give the same
      rate limit (so 2^32 + 2 gives 2, and 2^31 gives 1). */
  lemma RateLimitWraps(n: int)
    requires IntMin <= n <= IntMax
    ensures RateLimitArgument(Some(Signed(n + 0x1_0000_0000))) == RateLimitArgument(Some(Signed(n)))
  {
    AtoiWraps(n + 0x1_0000_0000);
    AtoiWraps(n);
    assert ToInt(n + 0x1_0000_0000) == n by {
      RateLimiter.ModUnique(n + 0x1_0000_0000 - IntMin, 0x1_0000_0000, 1, n - IntMin);
    }
  }

  /** A numeral beyond the range of `long` saturates: above LONG_MAX `atoi`
      gives -1, below LONG_MIN it gives 0, so the rate limit is 1 either way. */
  lemma RateLimitBeyondLong(n: int)
    requires n > LongMax || n < LongMin
    ensures n > LongMax ==> Atoi(Signed(n)) == -1
    ensures n < LongMin ==> Atoi(Signed(n)) == 0
    ensures RateLimitArgument(Some(Signed(n))) == 1
  {
    StrtolOfSigned(n, []);
    assert Signed(n) + [] == Signed(n);
    ToIntOfLongBounds();
  }

  lemma ToIntOfLongBounds()
    ensures ToInt(LongMax) == -1 && ToInt(LongMin) == 0
  {
    assert LongMax - IntMin == 0x8000_0000 * 0x1_0000_0000 + 0x7FFF_FFFF;
    RateLimiter.ModUnique(LongMax - IntMin, 0x1_0000_0000, 0x8000_0000, 0x7FFF_FFFF);
    assert LongMin - IntMin == -0x8000_0000 * 0x1_0000_0000 + 0x8000_0000;
    RateLimiter.ModUnique(LongMin - IntMin, 0x1_0000_0000, -0x8000_0000, 0x8000_0000);
  }

  /** An argument that does not start with a digit, a sign or white space,
      such as `abc`, reads as 0, so the rate limit is 1. */
  lemma RateLimitOfNonNumeral(s: string)
    requires s != [] && !IsSpace(s[0]) && !IsDigit(s[0]) && s[0] != '-' && s[0] != '+'
    ensures StrtolValue(s) == 0
    ensures RateLimitArgument(Some(s)) == 1
  {
    SkipNoSpaces(s);
    assert s[..0] == [];
  }
}
