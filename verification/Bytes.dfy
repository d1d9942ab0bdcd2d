/** Bytes, the two-way outcomes of operations that may throw, and the hexadecimal
    digits shared by the packet checksum and the argument coders. */
module Bytes {
  type u8 = x: int | 0 <= x < 256

  /** size_t. */
  type Word = n: int | 0 <= n < 0x1_0000_0000_0000_0000

  datatype Option<+T> = None | Some(value: T)

  datatype Result<+T, +E> = Ok(value: T) | Err(error: E) {
    function GetOr(default: T): T {
      match this
      case Ok(v) => v
      case Err(_) => default
    }
  }

  const BYTE_ZERO: u8 := '0' as int
  const LOWER_A: u8 := 'a' as int
  const UPPER_A: u8 := 'A' as int
  const COMMA: u8 := ',' as int
  const COLON: u8 := ':' as int
  const SEMICOLON: u8 := ';' as int
  const PLUS: u8 := '+' as int
  const MINUS: u8 := '-' as int
  const EQUALS: u8 := '=' as int

  lemma Punctuation()
    ensures [COMMA, COLON, SEMICOLON, PLUS, MINUS, EQUALS] == Ascii(",:;+-=")
  {
  }

  /** The value of a hexadecimal digit of either case, -1 for any other byte. */
  function DecodeHex(c: u8): (v: int)
    ensures -1 <= v < 16
  {
    if LOWER_A <= c < LOWER_A + 6 then 10 + (c - LOWER_A)
    else if UPPER_A <= c < UPPER_A + 6 then 10 + (c - UPPER_A)
    else if BYTE_ZERO <= c < BYTE_ZERO + 10 then c - BYTE_ZERO
    else -1
  }

  /** The lower-case digit of the low nibble. */
  function EncodeHex(v: u8): (c: u8)
    ensures DecodeHex(c) == v % 16
    ensures BYTE_ZERO <= c < BYTE_ZERO + 10 || LOWER_A <= c < LOWER_A + 6
  {
    var n := v % 16;
    if n < 10 then BYTE_ZERO + n else LOWER_A + (n - 10)
  }

  const LOWER_DIGITS: string := "0123456789abcdef"
  const UPPER_DIGITS: string := "0123456789ABCDEF"

  /** The byte is the digit for v, in either case. */
  predicate Spells(c: u8, v: nat)
    requires v < 16
  {
    c == LOWER_DIGITS[v] as int || c == UPPER_DIGITS[v] as int
  }

  /** Both digit functions in terms of the two lists of digits. */
  lemma HexDigits(c: u8, v: u8)
    requires v < 16
    ensures DecodeHex(c) == v <==> Spells(c, v)
    ensures EncodeHex(v) == LOWER_DIGITS[v] as int
  {
  }

  lemma NotHexDigits(c: u8)
    ensures DecodeHex(c) == -1 <==> forall v: nat :: v < 16 ==> !Spells(c, v)
  {
    if DecodeHex(c) != -1 {
      HexDigits(c, DecodeHex(c));
    }
  }

  /** Capital letters for small ones. */
  function Upper(c: u8): u8 {
    if 'a' as int <= c <= 'z' as int then c - 32 else c
  }

  function UpperAll(s: seq<u8>): (r: seq<u8>)
    ensures |r| == |s| && forall i :: 0 <= i < |s| ==> r[i] == Upper(s[i])
  {
    seq(|s|, i requires 0 <= i < |s| => Upper(s[i]))
  }

  lemma UpperIsTheSameDigit(c: u8)
    ensures DecodeHex(Upper(c)) == DecodeHex(c)
    ensures DecodeHex(c) >= 10 ==> Upper(c) == UPPER_DIGITS[DecodeHex(c)] as int
  {
  }

  /** The bytes of a text in a single-byte alphabet. */
  function Ascii(t: string): seq<u8> {
    seq(|t|, i requires 0 <= i < |t| => t[i] as int % 256)
  }

  /** The plain sum of the bytes, in unbounded arithmetic. */
  function Sum(s: seq<u8>): nat {
    if s == [] then 0 else s[0] + Sum(s[1..])
  }

  lemma {:induction false} SumConcat(a: seq<u8>, b: seq<u8>)
    ensures Sum(a + b) == Sum(a) + Sum(b)
  {
    if a == [] {
      assert a + b == b;
    } else {
      assert (a + b)[1..] == a[1..] + b;
      SumConcat(a[1..], b);
    }
  }

  lemma SumShort(a: u8, b: u8)
    ensures Sum([a]) == a && Sum([a, b]) == a + b
  {
    assert [a, b] == [a] + [b];
    SumConcat([a], [b]);
  }

  /** Replacing one byte moves the sum by exactly the difference. */
  lemma {:induction false} SumUpdate(s: seq<u8>, i: nat, x: u8)
    requires i < |s|
    ensures Sum(s[i := x]) == Sum(s) - s[i] + x
  {
    assert s == s[..i] + ([s[i]] + s[i + 1..]);
    assert s[i := x] == s[..i] + ([x] + s[i + 1..]);
    SumConcat(s[..i], [s[i]] + s[i + 1..]);
    SumConcat(s[..i], [x] + s[i + 1..]);
    assert ([s[i]] + s[i + 1..])[1..] == s[i + 1..] == ([x] + s[i + 1..])[1..];
  }
}
