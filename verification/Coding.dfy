/** What the argument coders of src/gdb/coding.h and src/gdb/query_handler.h mean, as
    functions on byte strings; the coders that walk a buffer are in Coders. */
module Coding {
  import opened Bytes

  /** InvalidArgument and OutOfRange are std::errc from std::from_chars; ValueTooLarge is the
      one from std::to_chars. Undefined marks a read outside a string. */
  datatype Error = InvalidArgument | OutOfRange | ValueTooLarge | NoSeparator | NoMoreBytes | BadFeature | Undefined

  // ---- hexadecimal numbers ----

  predicate IsHexDigit(c: u8) { DecodeHex(c) >= 0 }

  predicate AllHex(s: seq<u8>) { forall c :: c in s ==> IsHexDigit(c) }

  /** Positional value, most significant digit first. */
  function HexValue(s: seq<u8>): nat
    requires AllHex(s)
  {
    if s == [] then 0
    else
      assert IsHexDigit(s[|s| - 1]);
      HexValue(s[..|s| - 1]) * 16 + DecodeHex(s[|s| - 1])
  }

  /** Length of the longest run of digits at the front. */
  function DigitRun(s: seq<u8>): (n: nat)
    ensures n <= |s| && AllHex(s[..n]) && (n < |s| ==> !IsHexDigit(s[n]))
  {
    if s == [] || !IsHexDigit(s[0]) then 0
    else
      var n := DigitRun(s[1..]) + 1;
      assert s[..n] == [s[0]] + s[1..][..n - 1];
      n
  }

  /** The number at the front, if there is a digit at all. */
  function LeadingNumber(s: seq<u8>): Option<nat> {
    var n := DigitRun(s);
    if n == 0 then None else Some(HexValue(s[..n]))
  }

  /** std::from_chars in base 16 into an integer type with the given range; a minus sign is
      part of the pattern for signed types only, and what follows the digits is ignored. */
  function FromChars(s: seq<u8>, lo: int, hi: int): Result<int, Error> {
    var neg := lo < 0 && s != [] && s[0] == MINUS;
    match LeadingNumber(if neg then s[1..] else s)
    case None => Err(InvalidArgument)
    case Some(n) =>
      var v: int := if neg then 0 - n else n;
      if lo <= v <= hi then Ok(v) else Err(OutOfRange)
  }

  function HexOf(n: nat): (s: seq<u8>)
    ensures s != [] && AllHex(s)
  {
    if n < 16 then [EncodeHex(n)] else HexOf(n / 16) + [EncodeHex(n % 16)]
  }

  /** std::to_chars in base 16. */
  function ToChars(v: int): seq<u8> {
    if v < 0 then [MINUS] + HexOf(-v) else HexOf(v)
  }

  const SCRATCH: nat := 17

  /** NumCoder::encode_to with its scratch string. */
  function EncodeNum(v: int): Result<seq<u8>, Error> {
    if |ToChars(v)| <= SCRATCH then Ok(ToChars(v)) else Err(ValueTooLarge)
  }

  const SIZE_MAX: int := 0xFFFF_FFFF_FFFF_FFFF
  const INT64_MIN: int := -0x8000_0000_0000_0000
  const INT64_MAX: int := 0x7FFF_FFFF_FFFF_FFFF

  function DecodeSize(s: seq<u8>): Result<Word, Error> {
    match FromChars(s, 0, SIZE_MAX)
    case Ok(v) => Ok(v)
    case Err(e) => Err(e)
  }

  function DecodeInt64(s: seq<u8>): Result<int, Error> { FromChars(s, INT64_MIN, INT64_MAX) }

  lemma {:induction false} HexValueOfHex(n: nat)
    ensures HexValue(HexOf(n)) == n
  {
    var s := HexOf(n);
    if n >= 16 {
      HexValueOfHex(n / 16);
      assert s[..|s| - 1] == HexOf(n / 16);
    } else {
      assert s[..0] == [];
    }
  }

  lemma {:induction false} DigitRunStops(s: seq<u8>, junk: seq<u8>)
    requires AllHex(s) && (junk == [] || !IsHexDigit(junk[0]))
    ensures DigitRun(s + junk) == |s|
  {
    if s == [] {
      assert s + junk == junk;
    } else {
      assert (s + junk)[1..] == s[1..] + junk;
      DigitRunStops(s[1..], junk);
    }
  }

  /** A printed number reads back, whatever non-digit follows it. */
  lemma NumRoundTrip(v: int, lo: int, hi: int, junk: seq<u8>)
    requires lo <= v <= hi && (junk == [] || !IsHexDigit(junk[0]))
    ensures FromChars(ToChars(v) + junk, lo, hi) == Ok(v)
  {
    hide FromChars, HexOf, LeadingNumber;
    var n := if v < 0 then -v else v;
    DigitsRoundTrip(n, junk);
    FromSigned(HexOf(n) + junk, n, lo, hi);
    var s := HexOf(n) + junk;
    if v < 0 {
      assert ToChars(v) + junk == [MINUS] + s;
    } else {
      assert ToChars(v) + junk == s;
    }
  }

  lemma FromSigned(s: seq<u8>, n: int, lo: int, hi: int)
    requires 0 <= n && s != [] && s[0] != MINUS && LeadingNumber(s) == Some(n)
    ensures lo <= n <= hi ==> FromChars(s, lo, hi) == Ok(n)
    ensures lo <= -n <= hi && lo < 0 ==> FromChars([MINUS] + s, lo, hi) == Ok(-n)
  {
    assert ([MINUS] + s)[1..] == s;
  }

  lemma DigitsRoundTrip(n: nat, junk: seq<u8>)
    requires junk == [] || !IsHexDigit(junk[0])
    ensures var s := HexOf(n) + junk;
            LeadingNumber(s) == Some(n) && s != [] && s[0] != MINUS
  {
    DigitRunStops(HexOf(n), junk);
    HexValueOfHex(n);
    assert (HexOf(n) + junk)[..|HexOf(n)|] == HexOf(n);
    assert HexOf(n)[0] in HexOf(n) && !IsHexDigit(MINUS);
  }

  // ---- which texts are which numbers ----

  lemma HexValueAppend(s: seq<u8>, c: u8)
    requires AllHex(s) && IsHexDigit(c)
    ensures AllHex(s + [c]) && HexValue(s + [c]) == 16 * HexValue(s) + DecodeHex(c)
  {
    assert (s + [c])[..|s|] == s;
  }

  /** A text of digits is read positionally. */
  lemma {:induction false} HexValueConcat(a: seq<u8>, b: seq<u8>)
    requires AllHex(a) && AllHex(b)
    ensures AllHex(a + b) && HexValue(a + b) == HexValue(a) * Pow16(|b|) + HexValue(b)
  {
    hide HexValue;
    if b == [] {
      assert a + b == a && Pow16(0) == 1;
      HexValueEmpty();
    } else {
      var n := |b| - 1;
      var b', c := b[..n], b[n];
      assert c in b && b == b' + [c] && a + b == (a + b') + [c];
      HexValueConcat(a, b');
      HexValueAppend(b', c);
      HexValueAppend(a + b', c);
      Shifted(HexValue(a), n);
    }
  }

  lemma HexValueEmpty()
    ensures HexValue([]) == 0
  {
  }

  lemma Shifted(x: nat, n: nat)
    ensures 16 * (x * Pow16(n)) == x * Pow16(n + 1)
  {
    var p := Pow16(n);
    assert Pow16(n + 1) == 16 * p;
    assert 16 * (x * p) == x * (16 * p);
  }

  /** Zeros in front do not change the number. */
  lemma {:induction false} LeadingZeros(k: nat, s: seq<u8>)
    requires AllHex(s)
    ensures var z := seq(k, i => '0' as int); AllHex(z + s) && HexValue(z + s) == HexValue(s)
  {
    var z := seq(k, i => '0' as int);
    assert z + s == z + s;
    ZerosAreZero(k);
    HexValueConcat(z, s);
  }

  lemma {:induction false} ZerosAreZero(k: nat)
    ensures var z := seq(k, i => '0' as int); AllHex(z) && HexValue(z) == 0
  {
    var z: seq<u8> := seq(k, i => '0' as int);
    assert AllHex(z);
    if k > 0 {
      ZerosAreZero(k - 1);
      assert z[..k - 1] == seq(k - 1, i => '0' as int);
    }
  }

  /** A number text taken apart: an optional minus sign, digits, and what follows them. */
  datatype NumText = NumText(minus: bool, digits: seq<u8>, junk: seq<u8>) {
    predicate Valid() {
      && AllHex(digits) && (junk == [] || !IsHexDigit(junk[0]))
      && (!minus && digits == [] ==> !StartsWithMinus(junk))
    }

    function Unsigned(): seq<u8> { digits + junk }

    function Text(): seq<u8> { if minus then ['-' as int] + Unsigned() else Unsigned() }
  }

  predicate StartsWithMinus(s: seq<u8>) { s != [] && s[0] == '-' as int }

  lemma UnsignedReads(t: NumText)
    requires t.Valid()
    ensures LeadingNumber(t.Unsigned()) == if t.digits == [] then None else Some(HexValue(t.digits))
    ensures !t.minus ==> !StartsWithMinus(t.Unsigned())
  {
    DigitRunStops(t.digits, t.junk);
    assert t.Unsigned()[..|t.digits|] == t.digits;
    assert t.digits != [] ==> t.Unsigned()[0] in t.digits;
  }

  lemma SignReads(s: seq<u8>, lo: int, hi: int)
    requires lo <= 0 <= hi
    ensures !StartsWithMinus(s) ==>
              FromChars(s, lo, hi)
              == match LeadingNumber(s)
                 case None => Err(InvalidArgument)
                 case Some(n) => if n <= hi then Ok(n) else Err(OutOfRange)
    ensures lo < 0 ==>
              FromChars([MINUS] + s, lo, hi)
              == match LeadingNumber(s)
                 case None => Err(InvalidArgument)
                 case Some(n) => if lo <= 0 - n then Ok(0 - n) else Err(OutOfRange)
    ensures lo == 0 ==> FromChars([MINUS] + s, lo, hi) == Err(InvalidArgument)
  {
    var t := [MINUS] + s;
    assert t[1..] == s && DigitRun(t) == 0;
    hide DigitRun, HexValue;
  }

  /** Which texts from_chars reads as which numbers: a signed type takes a minus sign, an
      unsigned one stops there; without a digit there is no number, and a number outside the
      type is an error. */
  lemma NumberReads(t: NumText, lo: int, hi: int)
    requires t.Valid() && lo <= 0 <= hi
    ensures var v: int := if t.minus then 0 - HexValue(t.digits) else HexValue(t.digits);
            FromChars(t.Text(), lo, hi)
            == if t.digits == [] || (t.minus && lo == 0) then Err(InvalidArgument)
               else if lo <= v <= hi then Ok(v)
               else Err(OutOfRange)
  {
    UnsignedReads(t);
    SignReads(t.Unsigned(), lo, hi);
    hide FromChars, LeadingNumber, HexValue, StartsWithMinus, NumText.Unsigned;
  }

  /** Every text is one. */
  lemma NumTextExists(s: seq<u8>) returns (t: NumText)
    ensures t.Valid() && t.Text() == s
  {
    var minus := StartsWithMinus(s);
    var rest := if minus then s[1..] else s;
    var n := DigitRun(rest);
    assert minus ==> s == ['-' as int] + rest;
    hide DigitRun, IsHexDigit, AllHex, StartsWithMinus;
    t := NumText(minus, rest[..n], rest[n..]);
    assert t.Unsigned() == rest;
  }

  /** Case does not matter, in numbers or in data. */
  lemma {:induction false} CapitalNumber(s: seq<u8>, lo: int, hi: int)
    ensures FromChars(UpperAll(s), lo, hi) == FromChars(s, lo, hi)
  {
    hide LeadingNumber;
    var t := UpperAll(s);
    CapitalDigits(s);
    if s != [] {
      assert t[1..] == UpperAll(s[1..]) && (t[0] == MINUS <==> s[0] == MINUS);
      CapitalDigits(s[1..]);
    }
  }

  lemma {:induction false} CapitalDigits(s: seq<u8>)
    ensures LeadingNumber(UpperAll(s)) == LeadingNumber(s)
  {
    CapitalRun(s);
    var n := DigitRun(s);
    CapitalValue(s[..n]);
    assert UpperAll(s)[..n] == UpperAll(s[..n]);
  }

  lemma {:induction false} CapitalRun(s: seq<u8>)
    ensures DigitRun(UpperAll(s)) == DigitRun(s)
  {
    if s != [] {
      UpperIsTheSameDigit(s[0]);
      assert UpperAll(s)[1..] == UpperAll(s[1..]);
      CapitalRun(s[1..]);
    }
  }

  lemma {:induction false} CapitalValue(s: seq<u8>)
    requires AllHex(s)
    ensures AllHex(UpperAll(s)) && HexValue(UpperAll(s)) == HexValue(s)
  {
    var t := UpperAll(s);
    forall c | c in t ensures IsHexDigit(c) {
      var i :| 0 <= i < |t| && t[i] == c;
      assert s[i] in s;
      UpperIsTheSameDigit(s[i]);
    }
    if s != [] {
      var n := |s| - 1;
      assert t[..n] == UpperAll(s[..n]);
      CapitalValue(s[..n]);
      UpperIsTheSameDigit(s[n]);
    }
  }

  /** The two types of numbers the handlers ask for, size_t and int64_t. */
  lemma WordsRead(t: NumText)
    requires t.Valid()
    ensures var n := HexValue(t.digits);
            && DecodeSize(t.Text())
               == (if t.digits == [] || t.minus then Err(InvalidArgument)
                   else if n < 0x1_0000_0000_0000_0000 then Ok(n)
                   else Err(OutOfRange))
            && DecodeInt64(t.Text())
               == (if t.digits == [] then Err(InvalidArgument)
                   else if t.minus && n <= 0x8000_0000_0000_0000 then Ok(0 - n)
                   else if !t.minus && n < 0x8000_0000_0000_0000 then Ok(n)
                   else Err(OutOfRange))
  {
    NumberReads(t, 0, SIZE_MAX);
    NumberReads(t, INT64_MIN, INT64_MAX);
  }

  function Pow16(k: nat): nat { if k == 0 then 1 else 16 * Pow16(k - 1) }

  /** The number of digits, both ways. */
  lemma {:induction false} HexLength(n: nat, k: nat)
    requires k >= 1
    ensures |HexOf(n)| <= k <==> n < Pow16(k)
  {
    if n < 16 {
      PowAtLeast16(k);
    } else if k == 1 {
      assert Pow16(0) == 1;
    } else {
      HexLength(n / 16, k - 1);
    }
  }

  lemma {:induction false} PowAtLeast16(k: nat)
    requires k >= 1
    ensures Pow16(k) >= 16
  {
    if k > 1 {
      PowAtLeast16(k - 1);
    } else {
      assert Pow16(0) == 1;
    }
  }

  lemma Pow16Values()
    ensures Pow16(15) == 0x1000_0000_0000_0000 && Pow16(16) == 0x1_0000_0000_0000_0000
  {
    assert Pow16(4) == 0x1_0000;
    assert Pow16(8) == 0x1_0000_0000;
    assert Pow16(12) == 0x1_0000_0000_0000;
  }

  /** The scratch string holds every size_t and every int64_t; 17 bytes are needed exactly
      from -16^15 down, so by the least int64_t, and 16 would not do. */
  lemma ScratchIsTight(v: int)
    requires INT64_MIN <= v <= SIZE_MAX
    ensures EncodeNum(v) == Ok(ToChars(v))
    ensures |ToChars(v)| == SCRATCH <==> -v >= Pow16(15)
    ensures |ToChars(INT64_MIN)| == SCRATCH
  {
    Pow16Values();
    var n := if v < 0 then -v else v;
    HexLength(n, 16);
    HexLength(n, 15);
    HexLength(-INT64_MIN, 16);
    HexLength(-INT64_MIN, 15);
  }

  // ---- hexadecimal bytes ----

  function HexByte(b: u8): seq<u8> { [EncodeHex(b / 16), EncodeHex(b % 16)] }

  function HexBytes(bs: seq<u8>): (s: seq<u8>)
    ensures |s| == 2 * |bs| && AllHex(s)
  {
    if bs == [] then [] else HexByte(bs[0]) + HexBytes(bs[1..])
  }

  /** (decode_hex(hi) << 4) | decode_hex(lo), cut to a byte: on a non-digit the -1 shows. */
  function JoinNibbles(hi: u8, lo: u8): u8 {
    var h, l := DecodeHex(hi), DecodeHex(lo);
    if l < 0 then 255 else if h < 0 then 240 + l else 16 * h + l
  }

  /** BytesCoder::decode_from on single-byte elements. */
  function DecodeBytes(s: seq<u8>): Result<seq<u8>, Error> {
    if s == [] then Ok([])
    else if |s| == 1 then Err(NoMoreBytes)
    else
      match DecodeBytes(s[2..])
      case Ok(bs) => Ok([JoinNibbles(s[0], s[1])] + bs)
      case Err(e) => Err(e)
  }

  /** A digit as the source shifts it: one that is none is -1, all ones in a byte. */
  function NibbleBits(c: u8): (b: bv8)
    ensures b as int == (if DecodeHex(c) < 0 then 255 else DecodeHex(c)) && (b < 16 || b == 0xFF)
  {
    if DecodeHex(c) < 0 then 0xFF else DecodeHex(c) as bv8
  }

  /** The source's bit operations. */
  lemma NibblesAreBits(hi: u8, lo: u8)
    ensures JoinNibbles(hi, lo) == ((NibbleBits(hi) << 4) | NibbleBits(lo)) as int
  {
    hide NibbleBits, DecodeHex;
    BitsJoin(NibbleBits(hi), NibbleBits(lo));
    assert NibbleBits(hi) < 16 ==> NibbleBits(hi) as int < 16;
    assert NibbleBits(lo) < 16 ==> NibbleBits(lo) as int < 16;
  }

  lemma BitsJoin(h: bv8, l: bv8)
    ensures l == 0xFF ==> (h << 4) | l == 0xFF
    ensures h == 0xFF && l < 16 ==> ((h << 4) | l) as int == 240 + l as int
    ensures h < 16 && l < 16 ==> ((h << 4) | l) as int == 16 * h as int + l as int
  {
    assert h == 0xFF && l < 16 ==> (h << 4) | l == 0xF0 + l;
    assert h < 16 && l < 16 ==> (h << 4) | l == 16 * h + l;
  }

  /** Which bytes are read from a text: none from one of odd length, else one per pair. */
  lemma {:induction false} BytesRead(s: seq<u8>)
    ensures if |s| % 2 == 1 then DecodeBytes(s) == Err(NoMoreBytes)
            else
              var r := DecodeBytes(s);
              && r.Ok? && |r.value| == |s| / 2
              && forall i :: 0 <= i < |s| / 2 ==> r.value[i] == JoinNibbles(s[2 * i], s[2 * i + 1])
  {
    if |s| >= 2 {
      BytesRead(s[2..]);
      assert forall i :: 0 < i < |s| / 2 ==> s[2..][2 * (i - 1)] == s[2 * i] && s[2..][2 * (i - 1) + 1] == s[2 * i + 1];
    }
  }

  lemma {:induction false} CapitalBytes(s: seq<u8>)
    ensures DecodeBytes(UpperAll(s)) == DecodeBytes(s)
  {
    if |s| >= 2 {
      assert UpperAll(s)[2..] == UpperAll(s[2..]);
      CapitalBytes(s[2..]);
      UpperIsTheSameDigit(s[0]);
      UpperIsTheSameDigit(s[1]);
    }
  }

  lemma {:induction false} BytesRoundTrip(bs: seq<u8>)
    ensures DecodeBytes(HexBytes(bs)) == Ok(bs)
  {
    if bs != [] {
      var s := HexBytes(bs);
      BytesRoundTrip(bs[1..]);
      assert s == HexByte(bs[0]) + HexBytes(bs[1..]) && s[2..] == HexBytes(bs[1..]);
      assert DecodeBytes(s) == Ok([JoinNibbles(s[0], s[1])] + bs[1..]);
      NibblesJoin(bs[0]);
      assert [bs[0]] + bs[1..] == bs;
    }
  }

  lemma NibblesJoin(b: u8)
    ensures JoinNibbles(HexByte(b)[0], HexByte(b)[1]) == b
  {
    assert b == 16 * (b / 16) + b % 16;
  }

  // ---- separated strings ----

  /** The bytes in front of the first separator. */
  function Token(s: seq<u8>, sep: u8): (t: seq<u8>)
    ensures t <= s && sep !in t && (t != s ==> s[|t|] == sep)
    ensures t == s <==> sep !in s
  {
    if s == [] || s[0] == sep then [] else [s[0]] + Token(s[1..], sep)
  }

  /** What a string coder leaves: the bytes behind the separator, if there was one. */
  function AfterToken(s: seq<u8>, sep: u8): (r: seq<u8>)
    ensures |r| <= |s| && (s != [] ==> |r| < |s|)
  {
    var n := |Token(s, sep)|;
    if n < |s| then s[n + 1..] else []
  }

  lemma TokenSplits(s: seq<u8>, sep: u8)
    ensures var t, rest := Token(s, sep), AfterToken(s, sep);
            if rest == [] then s == t || s == t + [sep] else s == t + [sep] + rest
  {
  }

  lemma {:induction false} TokenIs(t: seq<u8>, sep: u8, rest: seq<u8>)
    requires sep !in t
    ensures Token(t + [sep] + rest, sep) == t && AfterToken(t + [sep] + rest, sep) == rest
    ensures Token(t, sep) == t && AfterToken(t, sep) == []
  {
    var s := t + [sep] + rest;
    if t == [] {
      assert s[0] == sep && s[1..] == rest;
    } else {
      assert s[1..] == t[1..] + [sep] + rest;
      TokenIs(t[1..], sep, rest);
      assert Token(s, sep) == t;
      assert s[|t| + 1..] == rest;
    }
  }

  // ---- arrays ----

  /** ArrayCoder::encode_to for a child that prints each element. */
  function EncodeArray<T>(enc: T -> seq<u8>, sep: u8, xs: seq<T>): seq<u8> {
    if xs == [] then []
    else if |xs| == 1 then enc(xs[0])
    else enc(xs[0]) + [sep] + EncodeArray(enc, sep, xs[1..])
  }

  /** A separator stands between elements and nowhere else. */
  lemma {:induction false} EncodeArrayAppend<T>(enc: T -> seq<u8>, sep: u8, xs: seq<T>, x: T)
    ensures EncodeArray(enc, sep, xs + [x]) == (if xs == [] then [] else EncodeArray(enc, sep, xs) + [sep]) + enc(x)
    ensures EncodeArray(enc, sep, []) == []
  {
    if xs == [] {
      assert xs + [x] == [x];
    } else {
      assert (xs + [x])[1..] == xs[1..] + [x];
      EncodeArrayAppend(enc, sep, xs[1..], x);
    }
  }

  /** ArrayCoder::decode_from: cut at separators while there are bytes, decode each piece. */
  function DecodeArray<T>(dec: seq<u8> -> Result<T, Error>, sep: u8, s: seq<u8>): Result<seq<T>, Error>
    decreases |s|
  {
    if s == [] then Ok([])
    else
      match dec(Token(s, sep))
      case Err(e) => Err(e)
      case Ok(x) =>
        match DecodeArray(dec, sep, AfterToken(s, sep))
        case Err(e) => Err(e)
        case Ok(xs) => Ok([x] + xs)
  }

  /** Reading a list element by element: the first piece decides, then what is behind its
      separator is read; a separator at the end starts no element. */
  lemma ArrayReads<T>(dec: seq<u8> -> Result<T, Error>, sep: u8, t: seq<u8>, rest: seq<u8>)
    requires sep !in t
    ensures DecodeArray(dec, sep, []) == Ok([])
    ensures t != [] ==> DecodeArray(dec, sep, t) == match dec(t) case Ok(x) => Ok([x]) case Err(e) => Err(e)
    ensures DecodeArray(dec, sep, t + [sep] + rest)
         == match dec(t)
            case Err(e) => Err(e)
            case Ok(x) =>
              match DecodeArray(dec, sep, rest)
              case Err(e) => Err(e)
              case Ok(xs) => Ok([x] + xs)
  {
    hide Token, AfterToken;
    TokenIs(t, sep, rest);
    assert DecodeArray(dec, sep, []) == Ok([]);
    if t != [] && dec(t).Ok? {
      assert [dec(t).value] + [] == [dec(t).value];
    }
  }

  /** An element that survives on its own: printed without separator and read back. */
  ghost predicate Survives<T>(enc: T -> seq<u8>, dec: seq<u8> -> Result<T, Error>, sep: u8, x: T) {
    sep !in enc(x) && dec(enc(x)) == Ok(x)
  }

  /** Half of the round trip, which needs nothing of the child as a whole. */
  lemma {:induction false} SurvivorsReadBack<T>(enc: T -> seq<u8>, dec: seq<u8> -> Result<T, Error>, sep: u8,
                                                xs: seq<T>)
    requires forall x :: x in xs ==> Survives(enc, dec, sep, x)
    requires xs != [] ==> enc(xs[|xs| - 1]) != []
    ensures DecodeArray(dec, sep, EncodeArray(enc, sep, xs)) == Ok(xs)
  {
    hide Token, AfterToken;
    if xs != [] {
      assert Survives(enc, dec, sep, xs[0]);
      var rest := EncodeArray(enc, sep, xs[1..]);
      TokenIs(enc(xs[0]), sep, rest);
      if |xs| == 1 {
        assert DecodeArray(dec, sep, []) == Ok([]);
      } else {
        assert xs[1..][|xs| - 2] == xs[|xs| - 1];
        SurvivorsReadBack(enc, dec, sep, xs[1..]);
      }
      assert xs == [xs[0]] + xs[1..];
    }
  }

  /** A decoder that accepts nothing but what the encoder prints. */
  ghost predicate Canonical<T(!new)>(enc: T -> seq<u8>, dec: seq<u8> -> Result<T, Error>) {
    forall t, x :: dec(t) == Ok(x) ==> enc(x) == t
  }

  /** Converse, for a canonical child: every element of any decoded array survives on its
      own, and (below) the bytes were its encoding, up to one separator at the end. */
  lemma {:induction false} DecodedArraySurvives<T(!new)>(enc: T -> seq<u8>, dec: seq<u8> -> Result<T, Error>, sep: u8,
                                                         s: seq<u8>, xs: seq<T>)
    requires Canonical(enc, dec) && DecodeArray(dec, sep, s) == Ok(xs)
    ensures forall x :: x in xs ==> Survives(enc, dec, sep, x)
    decreases |s|
  {
    if s != [] {
      DecodeArrayFirst(dec, sep, s, xs);
      assert Survives(enc, dec, sep, xs[0]);
      DecodedArraySurvives(enc, dec, sep, AfterToken(s, sep), xs[1..]);
      assert xs == [xs[0]] + xs[1..];
    }
  }

  /** An empty last element leaves a separator at the end, behind which nothing is decoded. */
  lemma {:induction false} EmptyLastIsLost<T>(enc: T -> seq<u8>, dec: seq<u8> -> Result<T, Error>, sep: u8, xs: seq<T>)
    requires forall x :: x in xs ==> Survives(enc, dec, sep, x)
    requires xs != [] && enc(xs[|xs| - 1]) == []
    ensures DecodeArray(dec, sep, EncodeArray(enc, sep, xs)) == Ok(xs[..|xs| - 1])
  {
    hide Token, AfterToken;
    assert Survives(enc, dec, sep, xs[0]);
    if |xs| > 1 {
      TokenIs(enc(xs[0]), sep, EncodeArray(enc, sep, xs[1..]));
      assert xs[1..][|xs| - 2] == xs[|xs| - 1];
      EmptyLastIsLost(enc, dec, sep, xs[1..]);
      assert xs[..|xs| - 1] == [xs[0]] + xs[1..][..|xs| - 2];
    }
  }

  /** Round trip of a list with its exact condition, for a canonical child: each element
      survives on its own and the last prints something. */
  lemma ArrayRoundTrip<T(!new)>(enc: T -> seq<u8>, dec: seq<u8> -> Result<T, Error>, sep: u8, xs: seq<T>)
    requires Canonical(enc, dec)
    ensures DecodeArray(dec, sep, EncodeArray(enc, sep, xs)) == Ok(xs)
       <==> (forall x :: x in xs ==> Survives(enc, dec, sep, x)) && (xs != [] ==> enc(xs[|xs| - 1]) != [])
  {
    hide DecodeArray, EncodeArray, Canonical;
    if DecodeArray(dec, sep, EncodeArray(enc, sep, xs)) == Ok(xs) {
      DecodedArraySurvives(enc, dec, sep, EncodeArray(enc, sep, xs), xs);
    }
    if forall x :: x in xs ==> Survives(enc, dec, sep, x) {
      if xs != [] && enc(xs[|xs| - 1]) == [] {
        EmptyLastIsLost(enc, dec, sep, xs);
      } else {
        SurvivorsReadBack(enc, dec, sep, xs);
      }
    }
  }

  lemma {:induction false} DecodedArrayReprints<T(!new)>(enc: T -> seq<u8>, dec: seq<u8> -> Result<T, Error>, sep: u8,
                                                         s: seq<u8>, xs: seq<T>)
    requires Canonical(enc, dec) && DecodeArray(dec, sep, s) == Ok(xs)
    ensures s == EncodeArray(enc, sep, xs) || s == EncodeArray(enc, sep, xs) + [sep]
    decreases |s|
  {
    if s != [] {
      var rest := AfterToken(s, sep);
      DecodeArrayFirst(dec, sep, s, xs);
      DecodedArrayReprints(enc, dec, sep, rest, xs[1..]);
      assert rest == [] <==> xs[1..] == [] by {
        if rest != [] {
          DecodeArrayFirst(dec, sep, rest, xs[1..]);
        }
      }
      ReprintFirst(enc, sep, s, xs);
    }
  }

  lemma ReprintFirst<T>(enc: T -> seq<u8>, sep: u8, s: seq<u8>, xs: seq<T>)
    requires s != [] && xs != [] && enc(xs[0]) == Token(s, sep)
    requires var rest, e := AfterToken(s, sep), EncodeArray(enc, sep, xs[1..]);
             (rest == [] <==> xs[1..] == []) && (rest == e || rest == e + [sep])
    ensures s == EncodeArray(enc, sep, xs) || s == EncodeArray(enc, sep, xs) + [sep]
  {
    hide Token, AfterToken;
    var t, rest := Token(s, sep), AfterToken(s, sep);
    TokenSplits(s, sep);
    EncodeArrayFirst(enc, sep, xs);
    if rest != [] {
      GrowRight(t + [sep], rest, EncodeArray(enc, sep, xs[1..]), [sep]);
    }
  }

  lemma GrowRight(a: seq<u8>, b: seq<u8>, c: seq<u8>, d: seq<u8>)
    requires b == c || b == c + d
    ensures a + b == a + c || a + b == a + c + d
  {
    assert a + (c + d) == a + c + d;
  }

  lemma DecodeArrayFirst<T>(dec: seq<u8> -> Result<T, Error>, sep: u8, s: seq<u8>, xs: seq<T>)
    requires s != [] && DecodeArray(dec, sep, s) == Ok(xs)
    ensures xs != [] && dec(Token(s, sep)) == Ok(xs[0]) && DecodeArray(dec, sep, AfterToken(s, sep)) == Ok(xs[1..])
  {
    assert [xs[0]] + xs[1..] == xs;
  }

  lemma EncodeArrayFirst<T>(enc: T -> seq<u8>, sep: u8, xs: seq<T>)
    requires xs != []
    ensures EncodeArray(enc, sep, xs)
         == if xs[1..] == [] then enc(xs[0]) else enc(xs[0]) + [sep] + EncodeArray(enc, sep, xs[1..])
  {
    assert xs[1..] == [] ==> |xs| == 1;
  }

  // ---- features ----

  datatype Feature = Feature(name: seq<u8>, value: Option<seq<u8>>, supported: bool) {
    /** The two constructors: a plain feature, or one with a value, which is supported. */
    predicate Constructed() { value.Some? ==> supported }
  }

  function EncodeFeature(f: Feature): seq<u8> {
    match f.value
    case Some(v) => f.name + [EQUALS] + v
    case None => f.name + [if f.supported then PLUS else MINUS]
  }

  predicate EndsInSign(s: seq<u8>) { s != [] && (s[|s| - 1] == PLUS || s[|s| - 1] == MINUS) }

  function DecodeFeature(s: seq<u8>): Result<Feature, Error> {
    if s == [] then Err(Undefined)
    else if EndsInSign(s) then Ok(Feature(s[..|s| - 1], None, s[|s| - 1] == PLUS))
    else
      var name := Token(s, EQUALS);
      if name == s then Err(BadFeature)
      else Ok(Feature(name, Some(AfterToken(s, EQUALS)), true))
  }

  /** Which texts are which features: a sign at the end decides first, then the first '='. */
  lemma FeatureReads(name: seq<u8>, value: seq<u8>)
    ensures DecodeFeature(name + ['+' as int]) == Ok(Feature(name, None, true))
    ensures DecodeFeature(name + ['-' as int]) == Ok(Feature(name, None, false))
    ensures '=' as int !in name && !EndsInSign(value) ==>
              DecodeFeature(name + ['=' as int] + value) == Ok(Feature(name, Some(value), true))
    ensures name != [] && '=' as int !in name && !EndsInSign(name) ==> DecodeFeature(name) == Err(BadFeature)
    ensures EndsInSign(value) <==> value != [] && (value[|value| - 1] == '+' as int || value[|value| - 1] == '-' as int)
  {
    assert (name + [PLUS])[..|name|] == name && (name + [MINUS])[..|name|] == name;
    if EQUALS !in name && !EndsInSign(value) {
      var s := name + [EQUALS] + value;
      TokenIs(name, EQUALS, value);
      assert s[|s| - 1] == if value == [] then EQUALS else value[|value| - 1];
    }
  }

  /** Exactly the features that print to something that reads back. */
  predicate Transparent(f: Feature) {
    SEMICOLON !in EncodeFeature(f) && (f.value.Some? ==> EQUALS !in f.name && !EndsInSign(f.value.value))
  }

  lemma FeatureSurvives(f: Feature)
    requires f.Constructed()
    ensures Survives(EncodeFeature, DecodeFeature, SEMICOLON, f) <==> Transparent(f)
  {
    var s := EncodeFeature(f);
    if f.value.Some? {
      var v := f.value.value;
      assert s[|s| - 1] == if v == [] then EQUALS else v[|v| - 1];
      if EQUALS !in f.name {
        TokenIs(f.name, EQUALS, v);
      }
    } else {
      assert s[..|s| - 1] == f.name;
    }
  }

  /** The decoder is canonical: it accepts only what the encoder prints. */
  lemma FeatureIsCanonical(s: seq<u8>, f: Feature)
    requires DecodeFeature(s) == Ok(f)
    ensures f.Constructed() && EncodeFeature(f) == s
  {
    if EndsInSign(s) {
      assert s == s[..|s| - 1] + [s[|s| - 1]];
    } else {
      assert s == Token(s, EQUALS) + [EQUALS] + AfterToken(s, EQUALS);
    }
  }

  lemma FeaturesAreCanonical()
    ensures Canonical(EncodeFeature, DecodeFeature)
  {
    forall t, f | DecodeFeature(t) == Ok(f) ensures EncodeFeature(f) == t {
      FeatureIsCanonical(t, f);
    }
  }

  /** Reading a feature list and printing it again gives the bytes back, up to one ';' at
      the end. */
  lemma FeatureListReprints(s: seq<u8>, fs: seq<Feature>)
    requires DecodeArray(DecodeFeature, SEMICOLON, s) == Ok(fs)
    ensures var e := EncodeArray(EncodeFeature, SEMICOLON, fs); s == e || s == e + [SEMICOLON]
  {
    FeaturesAreCanonical();
    DecodedArrayReprints(EncodeFeature, DecodeFeature, SEMICOLON, s, fs);
  }

  /** Round trip of the feature list, with its exact condition. */
  lemma FeatureListRoundTrip(fs: seq<Feature>)
    requires forall f :: f in fs ==> f.Constructed()
    ensures DecodeArray(DecodeFeature, SEMICOLON, EncodeArray(EncodeFeature, SEMICOLON, fs)) == Ok(fs)
       <==> forall f :: f in fs ==> Transparent(f)
  {
    forall f | f in fs ensures Survives(EncodeFeature, DecodeFeature, SEMICOLON, f) <==> Transparent(f) {
      FeatureSurvives(f);
    }
    FeaturesAreCanonical();
    ArrayRoundTrip(EncodeFeature, DecodeFeature, SEMICOLON, fs);
  }
}
