/** Decimal text as the program prints and reads it, and the byte images of machine integers. */
module Numbers {
  import opened Bytes

  // ----- decimal text -----

  predicate IsDigit(b: byte) {
    48 <= b <= 57
  }

  predicate IsSpace(b: byte) {
    b == 32 || 9 <= b <= 13
  }

  /** What `stringstream << n` prints for a non-negative n. */
  function Decimal(n: nat): (r: bytes)
    ensures r != [] && forall i :: 0 <= i < |r| ==> IsDigit(r[i])
  {
    if n < 10 then [48 + n as byte] else Decimal(n / 10) + [48 + (n % 10) as byte]
  }

  /** What `stringstream << n` prints for an `int`. */
  function DecimalInt(n: int): (r: bytes)
    ensures r != [] && forall i :: 0 <= i < |r| ==> IsDigit(r[i]) || r[i] == 45
  {
    if n < 0 then [45] + Decimal(-n) else Decimal(n)
  }

  /** The value of the digits s begins with, read after digits worth `acc`. */
  function DigitsValue(s: bytes, acc: int): int {
    if s == [] || !IsDigit(s[0]) then acc
    else DigitsValue(s[1..], 10 * acc + (s[0] as int - 48))
  }

  /** `atoi`: white space, an optional sign, digits; None where C leaves the result undefined. */
  function Atoi(s: bytes): (r: Option<int>)
    ensures r.Some? ==> INT_MIN <= r.value <= INT_MAX
  {
    if s != [] && IsSpace(s[0]) then Atoi(s[1..])
    else
      var n := if s != [] && s[0] == 45 then -DigitsValue(s[1..], 0)
               else if s != [] && s[0] == 43 then DigitsValue(s[1..], 0)
               else DigitsValue(s, 0);
      if INT_MIN <= n <= INT_MAX then Some(n) else None
  }

  lemma {:induction false} DigitsValueAppend(a: bytes, b: bytes, acc: int)
    requires forall i :: 0 <= i < |a| ==> IsDigit(a[i])
    ensures DigitsValue(a + b, acc) == DigitsValue(b, DigitsValue(a, acc))
  {
    if a == [] {
      assert a + b == b;
    } else {
      assert (a + b)[1..] == a[1..] + b;
      DigitsValueAppend(a[1..], b, 10 * acc + (a[0] as int - 48));
    }
  }

  lemma {:induction false} DecimalValue(n: nat)
    ensures DigitsValue(Decimal(n), 0) == n
  {
    if n < 10 {
      assert Decimal(n)[1..] == [];
    } else {
      var last: bytes := [48 + (n % 10) as byte];
      DecimalValue(n / 10);
      DigitsValueAppend(Decimal(n / 10), last, 0);
      assert last[1..] == [];
    }
  }

  /** Every `int` printed in decimal is read back by `atoi`. */
  lemma {:induction false} AtoiReadsDecimal(n: int)
    requires INT_MIN <= n <= INT_MAX
    ensures Atoi(DecimalInt(n)) == Some(n)
  {
    if n < 0 {
      DecimalValue(-n);
      assert DecimalInt(n)[1..] == Decimal(-n);
    } else {
      DecimalValue(n);
      assert IsDigit(Decimal(n)[0]);
    }
  }

  /** The number that decimal digits stand for. */
  function NumberOf(digits: bytes): int {
    if digits == [] then 0
    else 10 * NumberOf(digits[..|digits| - 1]) + (digits[|digits| - 1] as int - 48)
  }

  predicate AreDigits(s: bytes) {
    forall i :: 0 <= i < |s| ==> 48 <= s[i] <= 57
  }

  /** Digits without a leading zero. */
  predicate IsNumeral(s: bytes) {
    s != [] && AreDigits(s) && (s[0] == 48 ==> |s| == 1)
  }

  lemma {:induction false} NumeralIsPositive(s: bytes)
    requires s != [] && AreDigits(s) && s[0] != 48
    ensures NumberOf(s) > 0
  {
    if |s| > 1 {
      NumeralIsPositive(s[..|s| - 1]);
    } else {
      assert NumberOf(s[..0]) == 0;
    }
  }

  lemma {:induction false} DecimalIsNumeral(n: nat)
    ensures IsNumeral(Decimal(n)) && NumberOf(Decimal(n)) == n && (n > 0 ==> Decimal(n)[0] != 48)
  {
    var d := Decimal(n);
    if n < 10 {
      assert NumberOf(d[..0]) == 0;
    } else {
      DecimalIsNumeral(n / 10);
      assert d[..|d| - 1] == Decimal(n / 10);
    }
  }

  lemma {:induction false} NumeralIsDecimal(s: bytes)
    requires IsNumeral(s)
    ensures NumberOf(s) >= 0 && Decimal(NumberOf(s)) == s
  {
    var rest, last := s[..|s| - 1], s[|s| - 1] as int - 48;
    if |s| == 1 {
      assert NumberOf(rest) == 0 && s == [s[0]];
    } else {
      NumeralIsPositive(rest);
      NumeralIsDecimal(rest);
      assert NumberOf(s) / 10 == NumberOf(rest) && NumberOf(s) % 10 == last;
    }
  }

  /** The decimal text of n is the one numeral without a leading zero that stands for n. */
  lemma DecimalExactly(n: nat, s: bytes)
    ensures s == Decimal(n) <==> IsNumeral(s) && NumberOf(s) == n
  {
    DecimalIsNumeral(n);
    if IsNumeral(s) {
      NumeralIsDecimal(s);
    }
  }

  lemma {:induction false} DigitsAreNumber(digits: bytes)
    requires AreDigits(digits)
    ensures DigitsValue(digits, 0) == NumberOf(digits)
  {
    if digits != [] {
      var init, last := digits[..|digits| - 1], digits[|digits| - 1..];
      DigitsAreNumber(init);
      DigitsValueAppend(init, last, 0);
      assert init + last == digits && last[1..] == [];
    }
  }

  /** Behind the digits, `atoi` stops. */
  lemma DigitsStop(digits: bytes, rest: bytes)
    requires AreDigits(digits) && (rest == [] || !(48 <= rest[0] <= 57))
    ensures DigitsValue(digits + rest, 0) == NumberOf(digits)
  {
    DigitsValueAppend(digits, rest, 0);
    DigitsAreNumber(digits);
  }

  /** What `atoi` reads: white space, a sign or none, digits or none, and whatever does not go on with
      one of these. */
  ghost predicate IsAtoiText(white: bytes, sign: bytes, digits: bytes, rest: bytes) {
    (forall i :: 0 <= i < |white| ==> white[i] == 32 || 9 <= white[i] <= 13) &&
    (sign == [] || sign == Ascii("+") || sign == Ascii("-")) && AreDigits(digits) &&
    (rest == [] || !(48 <= rest[0] <= 57)) &&
    (sign == [] && digits == [] && rest != [] ==> !(rest[0] in {32, 43, 45}) && !(9 <= rest[0] <= 13))
  }

  /** `atoi` gives the signed number if it is an `int`, 0 without digits; beyond that C leaves it undefined. */
  lemma {:induction false} AtoiExactly(white: bytes, sign: bytes, digits: bytes, rest: bytes)
    requires IsAtoiText(white, sign, digits, rest)
    ensures var n := if sign == Ascii("-") then -NumberOf(digits) else NumberOf(digits);
            Atoi(white + (sign + (digits + rest))) ==
            if -0x8000_0000 <= n <= 0x7FFF_FFFF then Some(n) else None
    decreases |white|
  {
    hide NumberOf, DigitsValue, AreDigits;
    var tail := sign + (digits + rest);
    if white == [] {
      assert [] + tail == tail;
      AtoiSigned(sign, digits, rest);
    } else {
      var s := white + tail;
      assert s[1..] == white[1..] + tail && IsSpace(s[0]);
      AtoiExactly(white[1..], sign, digits, rest);
    }
  }

  lemma AtoiSigned(sign: bytes, digits: bytes, rest: bytes)
    requires IsAtoiText([], sign, digits, rest)
    ensures var n := if sign == Ascii("-") then -NumberOf(digits) else NumberOf(digits);
            Atoi(sign + (digits + rest)) == if -0x8000_0000 <= n <= 0x7FFF_FFFF then Some(n) else None
  {
    hide NumberOf, DigitsValue;
    DigitsStop(digits, rest);
    assert Ascii("+") == [43] && Ascii("-") == [45];
    var s, tail := sign + (digits + rest), digits + rest;
    if sign != [] {
      assert s[1..] == tail && s[0] == sign[0];
    } else {
      assert s == tail;
      assert digits != [] ==> s[0] == digits[0];
      assert digits == [] ==> s == rest;
    }
  }

  lemma AtoiEmpty()
    ensures Atoi([]) == Some(0)
  {
  }

  /** `int` to `unsigned int`, and back. */
  function ToUnsigned(n: int): int
    requires INT_MIN <= n <= INT_MAX
  {
    if n < 0 then n + UINT_RANGE else n
  }

  function ToInt(n: int): (r: int)
    requires 0 <= n < UINT_RANGE
    ensures INT_MIN <= r <= INT_MAX
    ensures ToUnsigned(r) == n
  {
    if n <= INT_MAX then n else n - UINT_RANGE
  }

  // ----- byte images -----

  type int8 = x: int | -0x80 <= x < 0x80
  type int16 = x: int | -0x8000 <= x < 0x8000
  type int32 = x: int | -0x8000_0000 <= x < 0x8000_0000
  type int64 = x: int | -0x8000_0000_0000_0000 <= x < 0x8000_0000_0000_0000

  /** The types the buffer's templates are instantiated with. */
  datatype Kind = ByteKind | CharKind | ShortKind | IntKind | LongKind

  datatype Scalar =
    | Byte(b: byte)
    | Char(c: int8)
    | Short(s: int16)
    | Int(i: int32)
    | Long(l: int64)
  {
    function Kind(): Kind {
      match this
      case Byte(_) => ByteKind
      case Char(_) => CharKind
      case Short(_) => ShortKind
      case Int(_) => IntKind
      case Long(_) => LongKind
    }
  }

  /** `sizeof(T)`. */
  function SizeOf(k: Kind): (n: nat)
    ensures 1 <= n <= 8
  {
    match k
    case ByteKind => 1
    case CharKind => 1
    case ShortKind => 2
    case IntKind => 4
    case LongKind => 8
  }

  /** The low k bytes of n in memory order (least significant first). */
  function Image(n: nat, k: nat): (r: bytes)
    ensures |r| == k
  {
    if k == 0 then [] else [(n % 256) as byte] + Image(n / 256, k - 1)
  }

  function Unimage(s: bytes): nat {
    if s == [] then 0 else s[0] as int + 256 * Unimage(s[1..])
  }

  function Pow256(k: nat): (r: nat)
    ensures r >= 1
  {
    if k == 0 then 1 else 256 * Pow256(k - 1)
  }

  lemma {:induction false} UnimageImage(n: nat, k: nat)
    requires n < Pow256(k)
    ensures Unimage(Image(n, k)) == n
  {
    if k > 0 {
      UnimageImage(n / 256, k - 1);
      assert Image(n, k)[1..] == Image(n / 256, k - 1);
    }
  }

  lemma {:induction false} UnimageBound(s: bytes)
    ensures Unimage(s) < Pow256(|s|)
  {
    if s != [] {
      UnimageBound(s[1..]);
    }
  }

  lemma Powers()
    ensures Pow256(1) == 0x100 && Pow256(2) == 0x1_0000 && Pow256(4) == 0x1_0000_0000
    ensures Pow256(8) == 0x1_0000_0000_0000_0000
  {
  }

  /** Two's complement over a range of 2 * half values. */
  function Signed(n: nat, half: int): int {
    if n < half then n else n - 2 * half
  }

  function Wrapped(n: int, half: int): nat
    requires -half <= n < half
  {
    if n < 0 then n + 2 * half else n
  }

  /** The bytes `memcpy` takes from a value. */
  function Encode(v: Scalar): (r: bytes)
    ensures |r| == SizeOf(v.Kind())
  {
    match v
    case Byte(b) => [b]
    case Char(c) => Image(Wrapped(c, 0x80), 1)
    case Short(s) => Image(Wrapped(s, 0x8000), 2)
    case Int(i) => Image(Wrapped(i, 0x8000_0000), 4)
    case Long(l) => Image(Wrapped(l, 0x8000_0000_0000_0000), 8)
  }

  /** The value of type k that the bytes in memory stand for. */
  function Decode(k: Kind, s: bytes): (v: Scalar)
    requires |s| == SizeOf(k)
    ensures v.Kind() == k
  {
    UnimageBound(s);
    Powers();
    match k
    case ByteKind => Byte(s[0])
    case CharKind => Char(Signed(Unimage(s), 0x80))
    case ShortKind => Short(Signed(Unimage(s), 0x8000))
    case IntKind => Int(Signed(Unimage(s), 0x8000_0000))
    case LongKind => Long(Signed(Unimage(s), 0x8000_0000_0000_0000))
  }

  /** The number a value is. */
  function ValueOf(v: Scalar): int {
    match v
    case Byte(b) => b as int
    case Char(c) => c
    case Short(s) => s
    case Int(i) => i
    case Long(l) => l
  }

  /** The number four bytes in memory make up, least significant first. */
  function FourBytes(a: byte, b: byte, c: byte, d: byte): int {
    a as int + 0x100 * b as int + 0x1_0000 * c as int + 0x100_0000 * d as int
  }

  /** In memory a value has its type's size, least significant byte first, in two's complement. */
  lemma EncodeIsLittleEndian(v: Scalar)
    ensures var e := Encode(v);
            match v
            case Byte(_) => |e| == 1 && e[0] as int == ValueOf(v)
            case Char(_) => |e| == 1 && e[0] as int == ValueOf(v) % 0x100
            case Short(_) => |e| == 2 && e[0] as int + 0x100 * e[1] as int == ValueOf(v) % 0x1_0000
            case Int(_) => |e| == 4 && FourBytes(e[0], e[1], e[2], e[3]) == ValueOf(v) % 0x1_0000_0000
            case Long(_) =>
              |e| == 8 &&
              FourBytes(e[0], e[1], e[2], e[3]) + 0x1_0000_0000 * FourBytes(e[4], e[5], e[6], e[7]) ==
              ValueOf(v) % 0x1_0000_0000_0000_0000
  {
    hide Image, FourBytes;
    match v
    case Byte(_) =>
    case Char(c) => ImageStep(Wrapped(c, 0x80), 1);
    case Short(s) => ImageOfTwo(Wrapped(s, 0x8000), 2);
    case Int(i) => ImageOfFour(Wrapped(i, 0x8000_0000), 4);
    case Long(l) => ImageOfEight(Wrapped(l, 0x8000_0000_0000_0000));
  }

  lemma ImageStep(n: nat, k: nat)
    requires k > 0
    ensures Image(n, k) == [(n % 256) as byte] + Image(n / 256, k - 1)
  {
  }

  lemma ImageOfTwo(n: nat, k: nat)
    requires k >= 2
    ensures var e := Image(n, k);
            e[0] as int + 0x100 * e[1] as int == n % 0x1_0000 && e[2..] == Image(n / 0x1_0000, k - 2)
  {
    hide Image;
    ImageStep(n, k);
    ImageStep(n / 256, k - 1);
    assert n / 256 / 256 == n / 0x1_0000;
  }

  lemma ImageOfFour(n: nat, k: nat)
    requires k >= 4
    ensures var e := Image(n, k);
            FourBytes(e[0], e[1], e[2], e[3]) == n % 0x1_0000_0000 && e[4..] == Image(n / 0x1_0000_0000, k - 4)
  {
    hide Image;
    ImageOfTwo(n, k);
    ImageOfTwo(n / 0x1_0000, k - 2);
    var e, f := Image(n, k), Image(n / 0x1_0000, k - 2);
    assert n / 0x1_0000 / 0x1_0000 == n / 0x1_0000_0000;
    assert f == e[2..] && f[2..] == e[4..] && f[0] == e[2] && f[1] == e[3];
  }

  lemma ImageOfEight(n: nat)
    requires n < 0x1_0000_0000_0000_0000
    ensures var e := Image(n, 8);
            FourBytes(e[0], e[1], e[2], e[3]) + 0x1_0000_0000 * FourBytes(e[4], e[5], e[6], e[7]) == n
  {
    hide Image, FourBytes;
    ImageOfFour(n, 8);
    ImageOfFour(n / 0x1_0000_0000, 4);
    var e, f := Image(n, 8), Image(n / 0x1_0000_0000, 4);
    assert f == e[4..] && f[0] == e[4] && f[1] == e[5] && f[2] == e[6] && f[3] == e[7];
  }

  lemma {:induction false} ImageUnimage(s: bytes)
    ensures Image(Unimage(s), |s|) == s
  {
    if s != [] {
      hide Image;
      ImageUnimage(s[1..]);
      ImageStep(Unimage(s), |s|);
      assert s == [s[0]] + s[1..] && Unimage(s) / 256 == Unimage(s[1..]) && Unimage(s) % 256 == s[0] as int;
    } else {
      assert Image(0, 0) == [];
    }
  }

  /** Every byte image of the right size is the image of the value read from it. */
  lemma EncodeDecode(k: Kind, s: bytes)
    requires |s| == SizeOf(k)
    ensures Encode(Decode(k, s)) == s
  {
    UnimageBound(s);
    Powers();
    ImageUnimage(s);
  }

  /** `return 0;` at type T. */
  function Zero(k: Kind): (v: Scalar)
    ensures v.Kind() == k
  {
    match k
    case ByteKind => Byte(0)
    case CharKind => Char(0)
    case ShortKind => Short(0)
    case IntKind => Int(0)
    case LongKind => Long(0)
  }

  /** Reading a value of its own type out of its own bytes gives the value back. */
  lemma DecodeEncode(v: Scalar)
    ensures Decode(v.Kind(), Encode(v)) == v
  {
    Powers();
    match v
    case Byte(b) =>
    case Char(c) => UnimageImage(Wrapped(c, 0x80), 1);
    case Short(s) => UnimageImage(Wrapped(s, 0x8000), 2);
    case Int(i) => UnimageImage(Wrapped(i, 0x8000_0000), 4);
    case Long(l) => UnimageImage(Wrapped(l, 0x8000_0000_0000_0000), 8);
  }
}
