/**
 * The parts of Go's `strconv` that `decodeLiteral` relies on
 * (envconf.go:134, 142, 159): `ParseInt` and `ParseUint` with base 0 and a
 * bit size, and `ParseBool`. Errors are not classified (syntax or range);
 * every failure is `None`, since envconf only tests for `err != nil`.
 */
module Strconv {
  import opened Wrappers
  import Text

  /** The bit sizes of Go's integer kinds (`int` and `uint` are 64-bit). */
  datatype Width = W8 | W16 | W32 | W64

  function Bits(w: Width): nat {
    match w
    case W8 => 8
    case W16 => 16
    case W32 => 32
    case W64 => 64
  }

  /** 2^Bits(w): one more than the largest unsigned value of width `w`. */
  function UintLimit(w: Width): nat {
    match w
    case W8 => 0x100
    case W16 => 0x1_0000
    case W32 => 0x1_0000_0000
    case W64 => 0x1_0000_0000_0000_0000
  }

  /** 2^(Bits(w) - 1): signed values of width `w` lie in [-IntLimit, IntLimit). */
  function IntLimit(w: Width): nat {
    match w
    case W8 => 0x80
    case W16 => 0x8000
    case W32 => 0x8000_0000
    case W64 => 0x8000_0000_0000_0000
  }

  predicate InIntRange(n: int, w: Width) {
    -(IntLimit(w) as int) <= n < IntLimit(w)
  }

  /** The value of one digit in bases up to 36: `0-9`, then `a-z` in either case. */
  function DigitValue(c: char): (d: Option<nat>)
    ensures d.Some? ==> d.value < 36
    ensures '0' <= c <= '9' ==> d == Some(c as nat - '0' as nat)
  {
    var l := Text.Lower(c);
    if '0' <= c <= '9' then Some(c as nat - '0' as nat)
    else if 'a' <= l <= 'z' then Some(l as nat - 'a' as nat + 10)
    else None
  }

  /** The value of a string of digits in `base`, or None if some character is not such a digit. */
  function DigitsValue(s: string, base: nat): Option<nat> {
    if s == [] then Some(0)
    else
      match (DigitsValue(s[..|s| - 1], base), DigitValue(s[|s| - 1]))
      case (Some(n), Some(d)) => if d < base then assert n * base >= 0; Some(n * base + d) else None
      case _ => None
  }

  /** A string whose first character is not a digit has no value, in any base. */
  lemma {:induction false} DigitsValueHead(s: string, base: nat)
    requires s != [] && DigitValue(s[0]) == None
    ensures DigitsValue(s, base) == None
  {
    if |s| > 1 {
      DigitsValueHead(s[..|s| - 1], base);
    }
  }

  /**
   * Base detection for base 0: `0b`, `0o`, `0x` (either case) when at least
   * one character follows, else a leading `0` means octal, else decimal.
   */
  function SplitBase(s: string): (r: (nat, string))
    requires s != []
    ensures r.0 in {2, 8, 10, 16}
    ensures r.0 == 10 <==> s[0] != '0'
  {
    if s[0] == '0' then
      if |s| >= 3 && Text.Lower(s[1]) == 'b' then (2, s[2..])
      else if |s| >= 3 && Text.Lower(s[1]) == 'o' then (8, s[2..])
      else if |s| >= 3 && Text.Lower(s[1]) == 'x' then (16, s[2..])
      else (8, s[1..])
    else (10, s)
  }

  /** `strconv.ParseUint(s, 0, Bits(w))`. */
  function ParseUint(s: string, w: Width): (r: Option<nat>)
    ensures r.Some? ==> r.value < UintLimit(w)
    ensures s != [] && (s[0] == '+' || s[0] == '-') ==> r == None
    ensures s == [] ==> r == None
  {
    if s == [] then None
    else
      var (base, digits) := SplitBase(s);
      assert s[0] == '+' || s[0] == '-' ==> DigitsValue(digits, base) == None by {
        if s[0] == '+' || s[0] == '-' { DigitsValueHead(s, base); }
      }
      match DigitsValue(digits, base)
      case Some(n) => if n < UintLimit(w) then Some(n) else None
      case None => None
  }

  /** `strconv.ParseInt(s, 0, Bits(w))`: an optional sign, then what ParseUint accepts. */
  function ParseInt(s: string, w: Width): (r: Option<int>)
    ensures r.Some? ==> InIntRange(r.value, w)
    ensures s == [] ==> r == None
  {
    if s == [] then None
    else
      var neg := s[0] == '-';
      var body := if s[0] == '+' || s[0] == '-' then s[1..] else s;
      match ParseUint(body, w)
      case None => None
      case Some(u) =>
        if !neg && u >= IntLimit(w) then None
        else if neg && u > IntLimit(w) then None
        else
          var n: int := u;
          Some(if neg then -n else n)
  }

  /** `strconv.ParseBool`: the value is decided by the first character of an accepted spelling. */
  function ParseBool(s: string): (r: Option<bool>)
    ensures r.Some? ==> 1 <= |s| <= 5 && (r.value <==> s[0] in "1tT")
  {
    if s in ["1", "t", "T", "TRUE", "true", "True"] then Some(true)
    else if s in ["0", "f", "F", "FALSE", "false", "False"] then Some(false)
    else None
  }

  /** `strconv.FormatBool`. */
  function FormatBool(b: bool): string {
    if b then "true" else "false"
  }

  /** ParseBool inverts FormatBool. */
  lemma ParseFormatBool(b: bool)
    ensures ParseBool(FormatBool(b)) == Some(b)
  {
  }

  function DigitChar(d: nat): (c: char)
    requires d < 10
    ensures '0' <= c <= '9' && DigitValue(c) == Some(d)
  {
    ('0' as int + d) as char
  }

  /** Decimal rendering of a natural number, without leading zeros. */
  function Decimal(n: nat): (s: string)
    ensures s != []
    ensures n > 0 ==> s[0] != '0'
    ensures '0' <= s[0] <= '9'
  {
    if n < 10 then [DigitChar(n)] else Decimal(n / 10) + [DigitChar(n % 10)]
  }

  /** `strconv.FormatInt(n, 10)`. */
  function FormatInt(n: int): string {
    if n < 0 then "-" + Decimal(-n) else Decimal(n)
  }

  lemma {:induction false} DecimalValue(n: nat)
    ensures DigitsValue(Decimal(n), 10) == Some(n)
  {
    if n >= 10 {
      var s := Decimal(n);
      assert s[..|s| - 1] == Decimal(n / 10);
      DecimalValue(n / 10);
    }
  }

  /** Base-0 parsing reads a decimal rendering back (a lone `0` goes through the octal branch). */
  lemma ParseUintDecimal(n: nat, w: Width)
    ensures ParseUint(Decimal(n), w) == (if n < UintLimit(w) then Some(n) else None)
  {
    DecimalValue(n);
    if n == 0 {
      assert Decimal(0) == "0";
      assert SplitBase("0") == (8, "");
    } else {
      assert SplitBase(Decimal(n)) == (10, Decimal(n));
    }
  }

  /** ParseUint reads back exactly the formatted values that fit the width, and rejects the rest. */
  lemma ParseFormatUint(n: nat, w: Width)
    ensures ParseUint(FormatInt(n), w) == if n < UintLimit(w) then Some(n) else None
  {
    ParseUintDecimal(n, w);
  }

  /** ParseInt reads back exactly the formatted values that fit the width, and rejects the rest. */
  lemma ParseFormatInt(n: int, w: Width)
    ensures ParseInt(FormatInt(n), w) == if InIntRange(n, w) then Some(n) else None
  {
    var s := FormatInt(n);
    if n < 0 {
      assert s[0] == '-' && s[1..] == Decimal(-n);
      ParseUintDecimal(-n, w);
    } else {
      assert s == Decimal(n);
      if n > 0 {
        assert s[0] != '+' && s[0] != '-';
      } else {
        assert s == "0";
      }
      ParseUintDecimal(n, w);
    }
  }
}
