/**
  Go's fixed-width integer types and the conversions and renderings the
  metric identity code applies to them.
*/
module Numbers {

  type uint8 = x: int | 0 <= x < 0x100
  type uint32 = x: int | 0 <= x < 0x1_0000_0000
  type int32 = x: int | -0x8000_0000 <= x < 0x8000_0000

  const TwoTo32: int := 0x1_0000_0000

  /** A Go float64, carried as its bit pattern; no arithmetic is done on it. */
  datatype Float64 = Float64(bits: bv64)

  function Abs(x: int): (r: nat)
    ensures r == x || r == -x
  {
    if x < 0 then -x else x
  }

  /** Go's `uint32(x)` on a wider signed integer: the low 32 bits. */
  function ToUint32(x: int): (r: uint32)
    ensures (x - r) % TwoTo32 == 0
    ensures 0 <= x < TwoTo32 ==> r == x
  {
    x % TwoTo32
  }

  /** Go's `int32(u)` on a uint32: the same 32 bits read as two's complement. */
  function Int32FromBits(h: bv32): (r: int32)
    ensures (h as int - r) % TwoTo32 == 0
    ensures h as int < 0x8000_0000 ==> r == h as int
    ensures h as int >= 0x8000_0000 ==> r < 0
  {
    if h as int < 0x8000_0000 then h as int else h as int - TwoTo32
  }

  /**
    Go's `a % b` on signed integers: the remainder of division truncated
    toward zero, which takes the sign of the dividend (Dafny's own `%` is
    Euclidean and never negative).
  */
  function TruncRem(a: int, b: int): (r: int)
    requires b != 0
    ensures Abs(r) == Abs(a) % Abs(b)
    ensures Abs(r) < Abs(b)
    ensures a >= 0 ==> r >= 0
    ensures a < 0 ==> r <= 0
  {
    if a >= 0 then a % Abs(b) else -((-a) % Abs(b))
  }

  function DigitChar(d: nat): (c: char)
    requires d < 10
  {
    ['0', '1', '2', '3', '4', '5', '6', '7', '8', '9'][d]
  }

  /** The decimal digits of a natural number, most significant first. */
  function Digits(n: nat): (s: string)
    ensures |s| >= 1
    ensures forall i | 0 <= i < |s| :: '0' <= s[i] <= '9'
    decreases n
  {
    if n < 10 then [DigitChar(n)] else Digits(n / 10) + [DigitChar(n % 10)]
  }

  /**
    `fmt.Sprintf("%d", n)`: a minus sign exactly for a negative number, then
    at least one decimal digit and nothing else.
  */
  function Decimal(n: int): (s: string)
    ensures |s| >= 1 && (s[0] == '-' <==> n < 0)
    ensures forall i | (if n < 0 then 1 else 0) <= i < |s| :: '0' <= s[i] <= '9'
    ensures n < 0 ==> |s| >= 2
  {
    if n < 0 then "-" + Digits(-n) else Digits(n)
  }

  lemma {:induction false} DigitsInjective(n: nat, m: nat)
    requires Digits(n) == Digits(m)
    ensures n == m
    decreases n
  {
    if n < 10 && m < 10 {
      assert DigitChar(n) == DigitChar(m) by { assert Digits(n)[0] == Digits(m)[0]; }
      DigitCharValue(n);
      DigitCharValue(m);
    } else if n >= 10 && m >= 10 {
      var dn, dm := Digits(n), Digits(m);
      assert Digits(n / 10) == Digits(m / 10) by {
        assert dn[..|dn| - 1] == Digits(n / 10);
        assert dm[..|dm| - 1] == Digits(m / 10);
      }
      DigitsInjective(n / 10, m / 10);
      assert DigitChar(n % 10) == DigitChar(m % 10) by {
        assert dn[|dn| - 1] == DigitChar(n % 10) && dm[|dm| - 1] == DigitChar(m % 10);
      }
      DigitCharValue(n % 10);
      DigitCharValue(m % 10);
    }
    // otherwise one has a single digit and the other at least two, so the
    // renderings differ in length
  }

  /** The digit characters are consecutive from '0'. */
  lemma DigitCharValue(d: nat)
    requires d < 10
    ensures DigitChar(d) as int == '0' as int + d
  {
  }

  /** Distinct integers render to distinct decimal strings. */
  lemma DecimalInjective(n: int, m: int)
    requires Decimal(n) == Decimal(m)
    ensures n == m
  {
    // only a negative number's rendering starts with '-'
    assert Decimal(n)[0] == '-' <==> n < 0;
    assert Decimal(m)[0] == '-' <==> m < 0;
    if n < 0 {
      assert Digits(-n) == Decimal(n)[1..];
      assert Digits(-m) == Decimal(m)[1..];
      DigitsInjective(-n, -m);
    } else {
      DigitsInjective(n, m);
    }
  }

  /** A decimal rendering never contains a NUL byte. */
  lemma DecimalHasNoNul(n: int)
    ensures '\0' !in Decimal(n)
  {
    var s := Decimal(n);
    if n < 0 {
      assert s == "-" + Digits(-n);
      forall i | 0 <= i < |s| ensures s[i] != '\0' {
        if i > 0 { assert s[i] == Digits(-n)[i - 1]; }
      }
    }
  }

  /** Nor a dot, so a rendering ends before the first `.` that follows it. */
  lemma DecimalHasNoDot(n: int)
    ensures '.' !in Decimal(n)
  {
    var s := Decimal(n);
    if n < 0 {
      assert s == "-" + Digits(-n);
      forall i | 0 <= i < |s| ensures s[i] != '.' {
        if i > 0 { assert s[i] == Digits(-n)[i - 1]; }
      }
    }
  }

  function HexDigit(d: nat): (c: char)
    requires d < 16
  {
    ['0', '1', '2', '3', '4', '5', '6', '7', '8', '9', 'a', 'b', 'c', 'd', 'e', 'f'][d]
  }

  /** `fmt.Sprintf("%x", bytes)`: two lower-case hex digits per byte. */
  function Hex(bytes: seq<uint8>): (s: string)
    ensures |s| == 2 * |bytes|
    ensures forall i | 0 <= i < |bytes| ::
      s[2 * i] == HexDigit(bytes[i] / 16) && s[2 * i + 1] == HexDigit(bytes[i] % 16)
  {
    if bytes == [] then []
    else [HexDigit(bytes[0] / 16), HexDigit(bytes[0] % 16)] + Hex(bytes[1..])
  }

  /**
    `binary.Write(w, binary.LittleEndian, x)` for a uint32: four bytes, least
    significant first. Each character stands for one byte.
  */
  function LittleEndian32(x: uint32): (s: string)
    ensures |s| == 4
    ensures forall i | 0 <= i < 4 :: s[i] as int < 0x100
  {
    [(x % 0x100) as char, (x / 0x100 % 0x100) as char,
     (x / 0x1_0000 % 0x100) as char, (x / 0x100_0000 % 0x100) as char]
  }

  /** Reads four little-endian bytes back into a uint32. */
  function FromLittleEndian32(s: string): (x: int)
    requires |s| == 4
  {
    s[0] as int + 0x100 * s[1] as int + 0x1_0000 * s[2] as int + 0x100_0000 * s[3] as int
  }

  lemma LittleEndian32RoundTrip(x: uint32)
    ensures FromLittleEndian32(LittleEndian32(x)) == x
  {
    var s := LittleEndian32(x);
    var b0, q0 := x % 0x100, x / 0x100;
    var b1, q1 := q0 % 0x100, q0 / 0x100;
    var b2, b3 := q1 % 0x100, q1 / 0x100;
    assert x == b0 + 0x100 * q0;
    assert q0 == b1 + 0x100 * q1;
    assert q1 == b2 + 0x100 * b3;
    assert x / 0x1_0000 == q1;
    assert x / 0x100_0000 == b3;
    assert s[0] as int == b0 && s[1] as int == b1 && s[2] as int == b2 && s[3] as int == b3;
  }
}
