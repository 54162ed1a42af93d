/** The C library's number conversions, as symbol ranges use them: strtol into an int,
    and sprintf with "%d" and "0x%x". */
module Numbers {
  const LONG_MAX := 0x7FFF_FFFF_FFFF_FFFF
  const INT_MAX := 0x7FFF_FFFF
  const TWO_32 := 0x1_0000_0000

  type CInt = n: int | -0x8000_0000 <= n <= 0x7FFF_FFFF

  predicate IsSpace(c: char) {
    c == ' ' || 9 <= c as int <= 13
  }

  function DigitOf(c: char): nat {
    if '0' <= c <= '9' then c as int - '0' as int
    else if 'a' <= c <= 'z' then c as int - 'a' as int + 10
    else if 'A' <= c <= 'Z' then c as int - 'A' as int + 10
    else 36
  }

  function SkipSpaces(s: string): string {
    if s != [] && IsSpace(s[0]) then SkipSpaces(s[1..]) else s
  }

  // the longest run of digits, read after the value `acc`
  function ReadDigits(s: string, base: nat, acc: nat): nat {
    if s != [] && DigitOf(s[0]) < base then ReadDigits(s[1..], base, acc * base + DigitOf(s[0])) else acc
  }

  function ReadUnsigned(s: string, base: nat): nat {
    if base == 16 && |s| >= 3 && s[0] == '0' && (s[1] == 'x' || s[1] == 'X') && DigitOf(s[2]) < 16
    then ReadDigits(s[2..], 16, 0)
    else ReadDigits(s, base, 0)
  }

  // strtol saturates at the ends of long
  function Strtol(s: string, base: nat): int {
    var t := SkipSpaces(s);
    if t != [] && t[0] == '-' then
      var n: int := ReadUnsigned(t[1..], base);
      if n > LONG_MAX + 1 then 0 - LONG_MAX - 1 else 0 - n
    else
      var n := ReadUnsigned(if t != [] && t[0] == '+' then t[1..] else t, base);
      if n > LONG_MAX then LONG_MAX else n
  }

  // a long assigned to an int keeps its low 32 bits
  function ToInt(n: int): CInt {
    var low := n % TWO_32;
    if low > INT_MAX then low - TWO_32 else low
  }

  function ParseInt(s: string, base: nat): CInt {
    ToInt(Strtol(s, base))
  }

  function DigitChar(d: nat): char
    requires d < 16
  {
    if d < 10 then '0' + d as char else 'a' + (d - 10) as char
  }

  function Digits(n: nat, base: nat): (s: string)
    requires base == 10 || base == 16
    ensures s != [] && forall c :: c in s ==> DigitOf(c) < base
  {
    if n < base then [DigitChar(n)] else Digits(n / base, base) + [DigitChar(n % base)]
  }

  // sprintf "%d" for base 10, "0x%x" for base 16
  function FormatInt(n: CInt, base: nat): string
    requires base == 10 || base == 16
  {
    if base == 16 then "0x" + Digits(n % TWO_32, 16)
    else if n < 0 then "-" + Digits(0 - n, 10)
    else Digits(n, 10)
  }

  lemma {:induction false} ReadAppend(s: string, t: string, base: nat, acc: nat)
    requires forall c :: c in s ==> DigitOf(c) < base
    ensures ReadDigits(s + t, base, acc) == ReadDigits(t, base, ReadDigits(s, base, acc))
  {
    if s == [] {
      assert s + t == t;
    } else {
      assert (s + t)[1..] == s[1..] + t;
      ReadAppend(s[1..], t, base, acc * base + DigitOf(s[0]));
    }
  }

  lemma {:induction false} DigitsReadBack(n: nat, base: nat)
    requires base == 10 || base == 16
    ensures ReadDigits(Digits(n, base), base, 0) == n
  {
    if n >= base {
      DigitsReadBack(n / base, base);
      var last := [DigitChar(n % base)];
      ReadAppend(Digits(n / base, base), last, base, 0);
      assert ReadDigits(last[1..], base, n / base * base + n % base) == n;
    }
  }

  lemma PlainNumber(s: string, base: nat)
    requires s != [] && !IsSpace(s[0]) && s[0] != '-' && s[0] != '+'
    ensures Strtol(s, base) == var n := ReadUnsigned(s, base); if n > LONG_MAX then LONG_MAX else n
  {
  }

  // a digit is neither a space nor a sign nor an x
  lemma DigitIsPlain(c: char)
    requires DigitOf(c) < 16
    ensures !IsSpace(c) && c != '-' && c != '+' && c != 'x' && c != 'X'
  {
  }

  /** Whatever int is printed is read back. */
  lemma FormatReadsBack(n: CInt, base: nat)
    requires base == 10 || base == 16
    ensures ParseInt(FormatInt(n, base), base) == n
  {
    hide Strtol, ReadDigits, Digits, IsSpace, DigitOf;
    if base == 16 {
      HexReadsBack(n);
    } else if n < 0 {
      NegativeReadsBack(n);
    } else {
      DecimalReadsBack(n);
    }
  }

  lemma HexReadsBack(n: CInt)
    ensures ParseInt(FormatInt(n, 16), 16) == n
  {
    hide Strtol, ReadUnsigned, ReadDigits, Digits, IsSpace, DigitOf, ToInt;
    var d := Digits(n % TWO_32, 16);
    DigitsReadBack(n % TWO_32, 16);
    HexPrefix(d);
    PlainNumber("0x" + d, 16);
    LowWord(n);
  }

  // digits behind "0x" are read as hexadecimal
  lemma HexPrefix(d: string)
    requires d != [] && DigitOf(d[0]) < 16
    ensures var s := "0x" + d; ReadUnsigned(s, 16) == ReadDigits(d, 16, 0) && s[0] == '0' && !IsSpace(s[0])
  {
    hide ReadDigits;
    var s := "0x" + d;
    assert s[2..] == d && s[2] == d[0];
  }

  lemma LowWord(n: CInt)
    ensures ToInt(n % TWO_32) == n
  {
  }

  lemma NegativeReadsBack(n: CInt)
    requires n < 0
    ensures ParseInt(FormatInt(n, 10), 10) == n
  {
    var m: nat := 0 - n;
    var d := Digits(m, 10);
    var s := "-" + d;
    hide ReadDigits, Digits;
    assert s[1..] == d;
    DigitsReadBack(m, 10);
    assert SkipSpaces(s) == s;
    assert ReadUnsigned(d, 10) == m;
    assert Strtol(s, 10) == n;
  }

  lemma DecimalReadsBack(n: CInt)
    requires n >= 0
    ensures ParseInt(FormatInt(n, 10), 10) == n
  {
    var d := Digits(n, 10);
    hide ReadDigits, Digits;
    assert d[0] in d;
    DigitIsPlain(d[0]);
    DigitsReadBack(n, 10);
    PlainNumber(d, 10);
  }

  // ---------- what is printed, and what else is read ----------

  /** Numbers are printed without leading zeros, a negative one behind a minus, a hexadecimal one
      behind "0x" with small letters, and as 32 bits. */
  lemma FormatForm(n: CInt)
    ensures n >= 0 ==> Canonical(FormatInt(n, 10), 10)
    ensures n < 0 ==> FormatInt(n, 10)[0] == '-' && Canonical(FormatInt(n, 10)[1..], 10)
    ensures FormatInt(n, 16)[..2] == "0x" && Canonical(FormatInt(n, 16)[2..], 16)
  {
    if n >= 0 {
      DigitsCanonical(n, 10);
    } else {
      DigitsCanonical(0 - n, 10);
      assert ("-" + Digits(0 - n, 10))[1..] == Digits(0 - n, 10);
    }
    DigitsCanonical(n % TWO_32, 16);
    assert ("0x" + Digits(n % TWO_32, 16))[2..] == Digits(n % TWO_32, 16);
  }

  predicate Canonical(s: string, base: nat) {
    && s != [] && (s[0] == '0' ==> |s| == 1)
    && forall c :: c in s ==> '0' <= c <= '9' || (base == 16 && 'a' <= c <= 'f')
  }

  lemma {:induction false} DigitsCanonical(n: nat, base: nat)
    requires base == 10 || base == 16
    ensures Canonical(Digits(n, base), base) && (n > 0 ==> Digits(n, base)[0] != '0')
  {
    if n >= base {
      DigitsCanonical(n / base, base);
    }
  }

  /** Reading stops in front of the first character that is no digit, and saturates at the ends
      of long; of a long, an int keeps the low 32 bits. */
  lemma ReadsNumeral(n: nat, base: nat, rest: string)
    requires base == 10 || base == 16
    requires rest != [] ==> DigitOf(rest[0]) >= base
    requires base == 16 ==> !(n == 0 && |rest| >= 2 && (rest[0] == 'x' || rest[0] == 'X'))
    ensures Strtol(Digits(n, base) + rest, base) == if n > LONG_MAX then LONG_MAX else n
    ensures Strtol("-" + Digits(n, base) + rest, base) == if n > LONG_MAX + 1 then 0 - LONG_MAX - 1 else 0 - n
  {
    var d := Digits(n, base);
    ReadAppend(d, rest, base, 0);
    DigitsReadBack(n, base);
    DigitsCanonical(n, base);
    assert d[0] in d;
    DigitIsPlain(d[0]);
    NoPrefix(n, base, rest);
    hide ReadDigits, Digits, DigitOf, ReadUnsigned;
    PlainNumber(d + rest, base);
    MinusNumber(d + rest, base);
    assert "-" + d + rest == "-" + (d + rest);
  }

  lemma NoPrefix(n: nat, base: nat, rest: string)
    requires base == 10 || base == 16
    requires base == 16 ==> !(n == 0 && |rest| >= 2 && (rest[0] == 'x' || rest[0] == 'X'))
    ensures ReadUnsigned(Digits(n, base) + rest, base) == ReadDigits(Digits(n, base) + rest, base, 0)
  {
    DigitsCanonical(n, base);
  }

  lemma MinusNumber(s: string, base: nat)
    ensures var n := ReadUnsigned(s, base);
      Strtol("-" + s, base) == if n > LONG_MAX + 1 then 0 - LONG_MAX - 1 else 0 - n
  {
    var t := "-" + s;
    assert t[1..] == s && SkipSpaces(t) == t;
  }

  lemma KeepsLowBits(n: int)
    ensures (ToInt(n) - n) % TWO_32 == 0
  {
  }

  /** Blanks and a plus in front are skipped. */
  lemma SkipsSpaces(c: char, s: string, base: nat)
    ensures c == ' ' || c == '\t' || c == '\n' || c == '\r' || c == '\U{0B}' || c == '\U{0C}' ==>
      Strtol([c] + s, base) == Strtol(s, base)
    ensures (s != [] ==> s[0] != '-' && s[0] != '+' && !IsSpace(s[0])) ==> Strtol("+" + s, base) == Strtol(s, base)
  {
    assert ([c] + s)[1..] == s && ("+" + s)[1..] == s;
    assert SkipSpaces("+" + s) == "+" + s;
  }

  // one of them, and not the last
  predicate Before(c: char, first: char, last: char) {
    first <= c < last
  }

  /** Digits count from 0 and letters from 10, in either case; nothing else counts. */
  lemma DigitsCount(c: char)
    ensures DigitOf('0') == 0 && DigitOf('9') == 9 && DigitOf('a') == DigitOf('A') == 10 && DigitOf('z') == 35
    ensures Before(c, '0', '9') || Before(c, 'a', 'z') || Before(c, 'A', 'Z') ==>
      DigitOf((c as int + 1) as char) == DigitOf(c) + 1
    ensures !('0' <= c <= '9' || 'a' <= c <= 'z' || 'A' <= c <= 'Z') ==> DigitOf(c) == 36
  {
  }
}
