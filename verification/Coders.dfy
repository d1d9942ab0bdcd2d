/** The coders of src/gdb/coding.h that walk a buffer, and the two argument lists that
    src/gdb/connection.cpp decodes with several of them in turn. */
module Coders {
  import opened Bytes
  import opened Buffers
  import opened Coding

  const NUL: u8 := 0

  // ---- strings ----

  /** Cutting works through any front part without separator. */
  lemma {:induction false} TokenPrefix(a: seq<u8>, b: seq<u8>, sep: u8)
    requires sep !in a
    ensures Token(a + b, sep) == a + Token(b, sep) && AfterToken(a + b, sep) == AfterToken(b, sep)
  {
    if a == [] {
      assert a + b == b;
    } else {
      assert (a + b)[1..] == a[1..] + b;
      TokenPrefix(a[1..], b, sep);
      var t := Token(b, sep);
      assert Token(a + b, sep) == a + t;
      if |t| < |b| {
        assert (a + b)[|a| + |t| + 1..] == b[|t| + 1..];
      }
    }
  }

  /** StrCoder::decode_from up to its child. */
  function StrToken(s: seq<u8>, sep: u8, sepReq: bool): Result<seq<u8>, Error> {
    if sepReq && sep !in s then Err(NoSeparator) else Ok(Token(s, sep))
  }

  method DecodeStr(buf: Buffer, sep: u8, sepReq: bool) returns (r: Result<seq<u8>, Error>)
    requires buf.Valid()
    modifies buf`readOff
    ensures buf.Valid()
    ensures var s := old(buf.View().unread);
            && r == (if sepReq && sep !in s then Err(NoSeparator) else Ok(Token(s, sep)))
            && buf.View().unread == AfterToken(s, sep)
  {
    ghost var s := buf.View().unread;
    var ret: seq<u8> := [];
    while true
      invariant buf.Valid() && |ret| <= |s| && ret == s[..|ret|] && sep !in ret
      invariant buf.View().unread == s[|ret|..]
      decreases |s| - |ret|
    {
      ghost var n := |ret|;
      var curr := buf.GetByte();
      if curr == None {
        TokenAt(s, n, sep);
        return if sepReq then Err(NoSeparator) else Ok(ret);
      }
      if curr.value == sep {
        TokenAt(s, n, sep);
        assert s[n..][1..] == s[n + 1..];
        return Ok(ret);
      }
      ret := ret + [curr.value];
    }
  }

  lemma TokenAt(s: seq<u8>, n: nat, sep: u8)
    requires n <= |s| && sep !in s[..n] && (n < |s| ==> s[n] == sep)
    ensures Token(s, sep) == s[..n] && (sep in s <==> n < |s|)
    ensures AfterToken(s, sep) == if n < |s| then s[n + 1..] else []
  {
    TokenPrefix(s[..n], s[n..], sep);
    assert s == s[..n] + s[n..];
  }

  // ---- bytes ----

  /** A decoded list behind elements decoded before it. */
  function Prefixed<T>(xs: seq<T>, r: Result<seq<T>, Error>): Result<seq<T>, Error> {
    match r
    case Ok(ys) => Ok(xs + ys)
    case Err(e) => Err(e)
  }

  lemma PrefixedTwice<T>(a: seq<T>, b: seq<T>, r: Result<seq<T>, Error>)
    ensures Prefixed(a, Prefixed(b, r)) == Prefixed(a + b, r)
    ensures Prefixed([], r) == r && Prefixed(a, Ok([])) == Ok(a)
  {
    if r.Ok? {
      assert a + (b + r.value) == (a + b) + r.value && [] + r.value == r.value;
    }
    assert a + [] == a;
  }

  method DecodeBytesFrom(buf: Buffer) returns (r: Result<seq<u8>, Error>)
    requires buf.Valid()
    modifies buf`readOff
    ensures buf.Valid() && r == DecodeBytes(old(buf.View().unread)) && buf.View().unread == []
  {
    ghost var all := DecodeBytes(buf.View().unread);
    var ret: seq<u8> := [];
    PrefixedTwice(ret, ret, all);
    while buf.ReadSize() > 0
      invariant buf.Valid()
      invariant all == Prefixed(ret, DecodeBytes(buf.View().unread))
      decreases buf.ReadSize()
    {
      ghost var s := buf.View().unread;
      var hi := buf.GetByte();
      var lo := buf.GetByte();
      if lo == None {
        return Err(NoMoreBytes);
      }
      assert s[1..][1..] == s[2..];
      var b := JoinNibbles(hi.value, lo.value);
      assert DecodeBytes(s) == Prefixed([b], DecodeBytes(s[2..]));
      PrefixedTwice(ret, [b], DecodeBytes(s[2..]));
      ret := ret + [b];
    }
    PrefixedTwice(ret, ret, all);
    r := Ok(ret);
  }

  /** What a run of single-byte puts leaves of s when there is room for n bytes. */
  function FirstBytes(s: seq<u8>, n: nat): (r: seq<u8>)
    ensures r <= s && |r| == (if |s| <= n then |s| else n)
  {
    if |s| <= n then s else s[..n]
  }

  method EncodeBytesTo(val: seq<u8>, buf: Buffer) returns (ok: bool)
    requires buf.Valid()
    modifies buf`writeOff, buf.storage
    ensures buf.Valid() && ok == (2 * |val| <= old(buf.WriteSize()))
    ensures buf.View() == old(buf.View()).Put(FirstBytes(HexBytes(val), old(buf.WriteSize())))
  {
    ghost var q, room := buf.View(), buf.WriteSize();
    PutTwice(q, [], []);
    assert HexBytes(val[..0]) == [] && FirstBytes(HexBytes([]), room) == [];
    hide HexBytes, FirstBytes, HexByte;
    for i := 0 to |val|
      invariant buf.Valid() && buf.View() == q.Put(HexBytes(val[..i])) && 2 * i <= room
      invariant 2 * i == |HexBytes(val[..i])|
      invariant i == |val| ==> HexBytes(val[..i]) == FirstBytes(HexBytes(val), room)
    {
      ok := EncodeByteTo(val[i], buf);
      BytesCut(val, i, room);
      PutTwice(q, HexBytes(val[..i]), FirstBytes(HexByte(val[i]), room - 2 * i));
      if !ok {
        return;
      }
    }
    ok := true;
  }

  /** Where the room ends: behind byte i, or inside it. */
  lemma BytesCut(val: seq<u8>, i: nat, room: nat)
    requires i < |val| && 2 * i <= room
    ensures |HexBytes(val[..i + 1])| == 2 * (i + 1)
    ensures var part := FirstBytes(HexByte(val[i]), room - 2 * i);
            HexBytes(val[..i]) + part
            == if 2 * (i + 1) <= room then HexBytes(val[..i + 1]) else FirstBytes(HexBytes(val), room)
    ensures i + 1 == |val| <= room / 2 ==> HexBytes(val[..i + 1]) == FirstBytes(HexBytes(val), room)
  {
    HexBytesAt(val, i);
    hide HexBytes;
    assert i + 1 == |val| ==> val[..i + 1] == val;
  }

  method EncodeByteTo(b: u8, buf: Buffer) returns (ok: bool)
    requires buf.Valid()
    modifies buf`writeOff, buf.storage
    ensures buf.Valid() && ok == (2 <= old(buf.WriteSize()))
    ensures buf.View() == old(buf.View()).Put(FirstBytes(HexByte(b), old(buf.WriteSize())))
  {
    PutTwice(buf.View(), [EncodeHex(b / 16)], [EncodeHex(b % 16)]);
    ok := buf.PutByte(EncodeHex(b / 16));
    if ok {
      ok := buf.PutByte(EncodeHex(b % 16));
    }
  }

  lemma HexBytesAt(val: seq<u8>, i: nat)
    requires i < |val|
    ensures |HexBytes(val[..i])| == 2 * i && |HexBytes(val)| == 2 * |val|
    ensures HexBytes(val[..i + 1]) == HexBytes(val[..i]) + HexByte(val[i])
    ensures HexBytes(val) == HexBytes(val[..i]) + HexByte(val[i]) + HexBytes(val[i + 1..])
  {
    assert val[..i + 1] == val[..i] + [val[i]];
    assert val == val[..i + 1] + val[i + 1..];
    HexBytesConcat(val[..i], [val[i]]);
    HexBytesConcat(val[..i + 1], val[i + 1..]);
  }

  lemma {:induction false} HexBytesConcat(a: seq<u8>, b: seq<u8>)
    ensures HexBytes(a + b) == HexBytes(a) + HexBytes(b)
    ensures |b| == 1 ==> HexBytes(b) == HexByte(b[0])
    ensures |HexBytes(a)| == 2 * |a| && |HexBytes(b)| == 2 * |b|
  {
    if a == [] {
      assert a + b == b;
    } else {
      assert (a + b)[1..] == a[1..] + b;
      HexBytesConcat(a[1..], b);
    }
  }

  // ---- arrays ----

  method DecodeArrayFrom<T>(buf: Buffer, dec: seq<u8> -> Result<T, Error>, sep: u8) returns (r: Result<seq<T>, Error>)
    requires buf.Valid()
    modifies buf`readOff
    ensures buf.Valid() && r == DecodeArray(dec, sep, old(buf.View().unread))
    ensures r.Ok? ==> buf.View().unread == []
  {
    ghost var all := DecodeArray(dec, sep, buf.View().unread);
    var ret: seq<T> := [];
    PrefixedTwice(ret, ret, all);
    while buf.ReadSize() > 0
      invariant buf.Valid()
      invariant all == Prefixed(ret, DecodeArray(dec, sep, buf.View().unread))
      decreases buf.ReadSize()
    {
      var t := DecodeStr(buf, sep, false);
      var x := dec(t.value);
      if x.Err? {
        return Err(x.error);
      }
      PrefixedTwice(ret, [x.value], DecodeArray(dec, sep, buf.View().unread));
      ret := ret + [x.value];
    }
    PrefixedTwice(ret, ret, all);
    r := Ok(ret);
  }

  /** The elements and separators that are put before the first that does not fit. */
  function FittingPieces<T>(enc: T -> seq<u8>, sep: u8, xs: seq<T>, room: nat): seq<u8> {
    if xs == [] || |enc(xs[0])| > room then []
    else if |xs| == 1 || |enc(xs[0])| == room then enc(xs[0])
    else enc(xs[0]) + [sep] + FittingPieces(enc, sep, xs[1..], room - |enc(xs[0])| - 1)
  }

  /** They are what fits of the printed list, and all of it exactly when it fits. */
  lemma {:induction false} FittingPiecesArePrefix<T>(enc: T -> seq<u8>, sep: u8, xs: seq<T>, room: nat)
    ensures FittingPieces(enc, sep, xs, room) <= EncodeArray(enc, sep, xs)
    ensures |FittingPieces(enc, sep, xs, room)| <= room
    ensures FittingPieces(enc, sep, xs, room) == EncodeArray(enc, sep, xs) <==> |EncodeArray(enc, sep, xs)| <= room
  {
    if xs != [] {
      EncodeArrayFirst(enc, sep, xs);
      if |enc(xs[0])| < room {
        FittingPiecesArePrefix(enc, sep, xs[1..], room - |enc(xs[0])| - 1);
      }
    }
  }

  /** The puts of the array coder: the text of each element and a separator between two. */
  function Pieces<T>(enc: T -> seq<u8>, sep: u8, xs: seq<T>): seq<seq<u8>> {
    if xs == [] then []
    else if |xs| == 1 then [enc(xs[0])]
    else [enc(xs[0]), [sep]] + Pieces(enc, sep, xs[1..])
  }

  function Joined(ps: seq<seq<u8>>): seq<u8> {
    if ps == [] then [] else ps[0] + Joined(ps[1..])
  }

  /** The puts up to the first that does not fit: n of them, and the next, if any, is too long. */
  lemma {:induction false} FittingPiecesAreMost<T>(enc: T -> seq<u8>, sep: u8, xs: seq<T>, room: nat) returns (n: nat)
    ensures var ps, put := Pieces(enc, sep, xs), FittingPieces(enc, sep, xs, room);
            && n <= |ps| && put == Joined(ps[..n])
            && (n < |ps| ==> |put| + |ps[n]| > room)
  {
    var ps := Pieces(enc, sep, xs);
    if xs == [] || |enc(xs[0])| > room {
      n := 0;
    } else if |xs| == 1 || |enc(xs[0])| == room {
      n := 1;
      assert ps[..1] == [enc(xs[0])];
      assert Joined(ps[..1]) == enc(xs[0]) + Joined([]);
    } else {
      var m := FittingPiecesAreMost(enc, sep, xs[1..], room - |enc(xs[0])| - 1);
      n := m + 2;
      JoinedTwo(enc(xs[0]), [sep], Pieces(enc, sep, xs[1..])[..n - 2]);
      assert ps[..n] == [enc(xs[0]), [sep]] + Pieces(enc, sep, xs[1..])[..n - 2];
    }
  }

  lemma JoinedTwo(a: seq<u8>, b: seq<u8>, ps: seq<seq<u8>>)
    ensures Joined([a, b] + ps) == a + b + Joined(ps)
  {
    assert ([a, b] + ps)[1..] == [b] + ps;
    assert ([b] + ps)[1..] == ps;
    assert a + (b + Joined(ps)) == a + b + Joined(ps);
  }

  method EncodeArrayTo<T>(enc: T -> seq<u8>, sep: u8, val: seq<T>, buf: Buffer) returns (ok: bool)
    requires buf.Valid()
    modifies buf`writeOff, buf.storage
    ensures buf.Valid() && ok == (|EncodeArray(enc, sep, val)| <= old(buf.WriteSize()))
    ensures buf.View() == old(buf.View()).Put(FittingPieces(enc, sep, val, old(buf.WriteSize())))
    ensures ok ==> buf.View() == old(buf.View()).Put(EncodeArray(enc, sep, val))
  {
    ghost var q, room := buf.View(), buf.WriteSize();
    ghost var done: seq<u8> := [];
    PutTwice(q, [], []);
    assert Halfway(enc, sep, val, 0, done, room) by {
      assert val[0..] == val;
    }
    hide Halfway, FittingPart, FittingPieces, EncodeArray;
    for i := 0 to |val|
      invariant buf.Valid() && |done| <= room && buf.View() == q.Put(done)
      invariant Halfway(enc, sep, val, i, done, room)
    {
      ok := EncodeElementTo(enc(val[i]), i == |val| - 1, sep, buf);
      ghost var part := FittingPart(enc(val[i]), i == |val| - 1, sep, room - |done|);
      ArrayCut(enc, sep, val, i, done, room);
      PutTwice(q, done, part);
      done := done + part;
      if !ok {
        return;
      }
    }
    ok := true;
    AllPieces(enc, sep, val, done, room);
  }

  /** What was put in front of element i, and what is still to come, make up the whole. */
  ghost predicate Halfway<T>(enc: T -> seq<u8>, sep: u8, val: seq<T>, i: nat, done: seq<u8>, room: nat) {
    && i <= |val| && |done| <= room
    && done + EncodeArray(enc, sep, val[i..]) == EncodeArray(enc, sep, val)
    && done + FittingPieces(enc, sep, val[i..], room - |done|) == FittingPieces(enc, sep, val, room)
  }

  lemma AllPieces<T>(enc: T -> seq<u8>, sep: u8, val: seq<T>, done: seq<u8>, room: nat)
    requires Halfway(enc, sep, val, |val|, done, room)
    ensures done == EncodeArray(enc, sep, val) == FittingPieces(enc, sep, val, room)
  {
    assert done + [] == done;
  }

  lemma ArrayCut<T>(enc: T -> seq<u8>, sep: u8, val: seq<T>, i: nat, done: seq<u8>, room: nat)
    requires Halfway(enc, sep, val, i, done, room) && i < |val|
    ensures var e, last := enc(val[i]), i == |val| - 1;
            var now := done + FittingPart(e, last, sep, room - |done|);
            if |done| + |e| + (if last then 0 else 1) <= room then
              |now| <= room && Halfway(enc, sep, val, i + 1, now, room)
            else now == FittingPieces(enc, sep, val, room) && room < |EncodeArray(enc, sep, val)|
  {
    hide EncodeArray, FittingPieces;
    var piece := EncodeArrayPiece(enc, sep, val, i, done);
    assert val[i..][0] == val[i] && val[i..][1..] == val[i + 1..];
    FittingPiecesFirst(enc, sep, val[i..], room - |done|);
    var part := FittingPart(enc(val[i]), i == |val| - 1, sep, room - |done|);
    if part == piece {
      GroupLeft(done, part, FittingPieces(enc, sep, val[i + 1..], room - |done| - |part|));
    }
  }

  lemma GroupLeft(a: seq<u8>, b: seq<u8>, c: seq<u8>)
    ensures a + (b + c) == a + b + c
  {
  }

  /** What one element and its separator leave when there is room for n bytes. */
  function FittingPart(e: seq<u8>, last: bool, sep: u8, n: nat): seq<u8> {
    if |e| > n then [] else if last || |e| == n then e else e + [sep]
  }

  /** One element and, unless it is the last, the separator. */
  method EncodeElementTo(e: seq<u8>, last: bool, sep: u8, buf: Buffer) returns (ok: bool)
    requires buf.Valid()
    modifies buf`writeOff, buf.storage
    ensures buf.Valid() && ok == (|e| + (if last then 0 else 1) <= old(buf.WriteSize()))
    ensures buf.View() == old(buf.View()).Put(FittingPart(e, last, sep, old(buf.WriteSize())))
  {
    PutTwice(buf.View(), e, [sep]);
    ok := buf.AppendBuf(e);
    if ok && !last {
      ok := buf.PutByte(sep);
    }
  }

  lemma FittingPiecesFirst<T>(enc: T -> seq<u8>, sep: u8, xs: seq<T>, room: nat)
    requires xs != []
    ensures var part := FittingPart(enc(xs[0]), xs[1..] == [], sep, room);
            FittingPieces(enc, sep, xs, room)
            == if |part| < |enc(xs[0])| + (if xs[1..] == [] then 0 else 1) then part
               else part + FittingPieces(enc, sep, xs[1..], room - |part|)
  {
  }

  lemma EncodeArrayPiece<T>(enc: T -> seq<u8>, sep: u8, val: seq<T>, i: nat, done: seq<u8>) returns (piece: seq<u8>)
    requires i < |val|
    ensures piece == if i == |val| - 1 then enc(val[i]) else enc(val[i]) + [sep]
    ensures done + EncodeArray(enc, sep, val[i..]) == done + piece + EncodeArray(enc, sep, val[i + 1..])
  {
    var e, rest := enc(val[i]), EncodeArray(enc, sep, val[i + 1..]);
    piece := if i == |val| - 1 then e else e + [sep];
    EncodeArrayFirst(enc, sep, val[i..]);
    assert val[i..][0] == val[i] && val[i..][1..] == val[i + 1..];
    assert EncodeArray(enc, sep, val[i..]) == piece + rest;
  }

  // ---- the arguments of a memory write: addr ',' len ':' data ----

  datatype WriteArgs = WriteArgs(addr: Word, len: Word, data: seq<u8>)

  function NumField(t: Result<seq<u8>, Error>): Result<Word, Error> {
    match t
    case Ok(s) => DecodeSize(s)
    case Err(e) => Err(e)
  }

  function ParseWriteMem(s: seq<u8>): Result<WriteArgs, Error> {
    match NumField(StrToken(s, COMMA, true))
    case Err(e) => Err(e)
    case Ok(addr) =>
      var s1 := AfterToken(s, COMMA);
      match NumField(StrToken(s1, COLON, true))
      case Err(e) => Err(e)
      case Ok(len) =>
        match DecodeBytes(AfterToken(s1, COLON))
        case Err(e) => Err(e)
        case Ok(data) => Ok(WriteArgs(addr, len, data))
  }

  /** Which texts are which arguments: two fields up to their separators, then data to the end.
      The first field that is wrong decides the error, a missing separator among them. */
  lemma WriteMemReads(addr: seq<u8>, len: seq<u8>, data: seq<u8>)
    requires COMMA !in addr && COLON !in len
    ensures ParseWriteMem(addr) == Err(NoSeparator)
    ensures DecodeSize(addr).Ok? ==> ParseWriteMem(addr + [COMMA] + len) == Err(NoSeparator)
    ensures DecodeSize(addr).Err? ==> ParseWriteMem(addr + [COMMA] + len) == Err(DecodeSize(addr).error)
    ensures ParseWriteMem(addr + [COMMA] + (len + [COLON] + data))
         == match (DecodeSize(addr), DecodeSize(len), DecodeBytes(data))
            case (Err(e), _, _) => Err(e)
            case (Ok(_), Err(e), _) => Err(e)
            case (Ok(_), Ok(_), Err(e)) => Err(e)
            case (Ok(a), Ok(n), Ok(bs)) => Ok(WriteArgs(a, n, bs))
  {
    hide Token, AfterToken, DecodeSize, DecodeBytes;
    TokenIs(addr, COMMA, len);
    TokenIs(addr, COMMA, len + [COLON] + data);
    TokenIs(len, COLON, data);
    assert COMMA in addr + [COMMA] + len;
    assert COMMA in addr + [COMMA] + (len + [COLON] + data) && COLON in len + [COLON] + data;
  }

  // ---- the arguments of a memory read: addr ',' len ----

  datatype ReadArgs = ReadArgs(addr: Word, len: Word)

  function ParseReadMem(s: seq<u8>): Result<ReadArgs, Error> {
    match NumField(StrToken(s, COMMA, true))
    case Err(e) => Err(e)
    case Ok(addr) =>
      match DecodeSize(Token(AfterToken(s, COMMA), NUL))
      case Err(e) => Err(e)
      case Ok(len) => Ok(ReadArgs(addr, len))
  }

  function PrintReadMem(r: ReadArgs): seq<u8> {
    ToChars(r.addr) + [COMMA] + ToChars(r.len)
  }

  /** decode_buffer with the coder list of the read handler. */
  method DecodeReadMem(buf: Buffer) returns (r: Result<ReadArgs, Error>)
    requires buf.Valid()
    modifies buf`readOff
    ensures buf.Valid() && r == ParseReadMem(old(buf.View().unread))
  {
    var t := DecodeStr(buf, COMMA, true);
    var addr := NumField(t);
    if addr.Err? {
      return Err(addr.error);
    }
    t := DecodeStr(buf, NUL, false);
    var len := NumField(t);
    r := if len.Err? then Err(len.error) else Ok(ReadArgs(addr.value, len.value));
  }

  /** Which texts are which arguments of a read; a zero byte ends the second. */
  lemma ReadMemReads(addr: seq<u8>, len: seq<u8>, rest: seq<u8>)
    requires COMMA !in addr && 0 !in len && (rest == [] || rest[0] == 0)
    ensures ParseReadMem(addr) == Err(NoSeparator)
    ensures ParseReadMem(addr + [COMMA] + (len + rest))
         == match (DecodeSize(addr), DecodeSize(len))
            case (Err(e), _) => Err(e)
            case (Ok(_), Err(e)) => Err(e)
            case (Ok(a), Ok(n)) => Ok(ReadArgs(a, n))
  {
    hide Token, AfterToken, DecodeSize;
    TokenIs(addr, COMMA, len + rest);
    TokenIs(len, NUL, if rest == [] then [] else rest[1..]);
    assert rest == [] ==> len + rest == len;
    assert rest != [] ==> len + rest == len + [NUL] + rest[1..];
    assert COMMA in addr + [COMMA] + (len + rest);
  }

  lemma ReadMemRoundTrip(r: ReadArgs)
    ensures ParseReadMem(PrintReadMem(r)) == Ok(r)
  {
    var len := ToChars(r.len);
    NumRoundTrip(r.addr, 0, SIZE_MAX, []);
    NumRoundTrip(r.len, 0, SIZE_MAX, []);
    assert ToChars(r.addr) + [] == ToChars(r.addr) && len + [] == len;
    assert COMMA !in ToChars(r.addr) && NUL !in len;
    hide ToChars;
    ReadMemReads(ToChars(r.addr), len, []);
  }

  function PrintWriteMem(w: WriteArgs): seq<u8> {
    ToChars(w.addr) + [COMMA] + ToChars(w.len) + [COLON] + HexBytes(w.data)
  }

  /** decode_buffer with the coder list of the write handler, left to right. */
  method DecodeWriteMem(buf: Buffer) returns (r: Result<WriteArgs, Error>)
    requires buf.Valid()
    modifies buf`readOff
    ensures buf.Valid() && r == ParseWriteMem(old(buf.View().unread))
    ensures r.Ok? ==> buf.View().unread == []
  {
    var t := DecodeStr(buf, COMMA, true);
    var addr := NumField(t);
    if addr.Err? {
      return Err(addr.error);
    }
    t := DecodeStr(buf, COLON, true);
    var len := NumField(t);
    if len.Err? {
      return Err(len.error);
    }
    var data := DecodeBytesFrom(buf);
    r := if data.Err? then Err(data.error) else Ok(WriteArgs(addr.value, len.value, data.value));
  }

  /** One printed number in front of a separator, read by the string coder. */
  lemma SizeField(v: Word, sep: u8, rest: seq<u8>, sepReq: bool)
    requires !IsHexDigit(sep)
    ensures var s := ToChars(v) + [sep] + rest;
            NumField(StrToken(s, sep, sepReq)) == Ok(v) && AfterToken(s, sep) == rest
  {
    TokenIs(ToChars(v), sep, rest);
    NumRoundTrip(v, 0, SIZE_MAX, []);
    assert ToChars(v) + [] == ToChars(v);
    assert sep in ToChars(v) + [sep] + rest;
  }

  /** What the encoders print the decoder returns, for every address, length and data. */
  lemma WriteMemRoundTrip(w: WriteArgs)
    ensures ParseWriteMem(PrintWriteMem(w)) == Ok(w)
  {
    var rest := ToChars(w.len) + [COLON] + HexBytes(w.data);
    assert PrintWriteMem(w) == ToChars(w.addr) + [COMMA] + rest;
    SizeField(w.addr, COMMA, rest, true);
    SizeField(w.len, COLON, HexBytes(w.data), true);
    BytesRoundTrip(w.data);
  }

  // ---- the File-I/O reply: retcode [',' errno [",C"]] [';' attachment] ----

  datatype FileReply = FileReply(retcode: int, errno: Option<Word>, ctrlc: bool, attachment: Option<seq<u8>>) {
    /** The break flag is only ever sent behind an errno. */
    predicate Valid() {
      INT64_MIN <= retcode <= INT64_MAX && (ctrlc ==> errno.Some?)
    }
  }

  const CTRLC_FLAG: seq<u8> := ['C' as int]

  function OptNum(s: seq<u8>, sep: u8): Result<Option<Word>, Error> {
    if s == [] then Ok(None)
    else
      match DecodeSize(Token(s, sep))
      case Ok(v) => Ok(Some(v))
      case Err(e) => Err(e)
  }

  function OptStr(s: seq<u8>, sep: u8): Option<seq<u8>> {
    if s == [] then None else Some(Token(s, sep))
  }

  /** decode_buffer with the coder list of the File-I/O handler. */
  function ParseFileReply(s: seq<u8>): Result<FileReply, Error> {
    match DecodeInt64(Token(s, COMMA))
    case Err(e) => Err(e)
    case Ok(retcode) => ParseBehindCode(retcode, AfterToken(s, COMMA))
  }

  /** The three optional fields. */
  function ParseBehindCode(retcode: int, s: seq<u8>): Result<FileReply, Error> {
    match OptNum(s, COMMA)
    case Err(e) => Err(e)
    case Ok(errno) =>
      var s2 := AfterToken(s, COMMA);
      Ok(FileReply(retcode, errno, OptStr(s2, SEMICOLON) == Some(CTRLC_FLAG), OptStr(AfterToken(s2, SEMICOLON), NUL)))
  }

  /** What an attachment field holds: the bytes up to a zero byte; none if the reply ends there. */
  ghost predicate IsAttachment(s: seq<u8>, a: Option<seq<u8>>) {
    match a
    case None => s == []
    case Some(t) => s != [] && 0 !in t && (s == t || exists rest :: s == t + [0] + rest)
  }

  lemma AttachmentReads(s: seq<u8>, a: Option<seq<u8>>)
    requires IsAttachment(s, a)
    ensures OptStr(s, NUL) == a
  {
    if a.Some? {
      TokenIs(a.value, NUL, []);
      if s != a.value {
        var rest :| s == a.value + [0] + rest;
        TokenIs(a.value, NUL, rest);
      }
    }
  }

  /** Which texts are which replies, by the number of commas: a return code alone; an errno
      behind it; and behind that the break flag, which ends at the first ';', and an attachment. */
  lemma FileReplyReads(code: seq<u8>, errno: seq<u8>, flag: seq<u8>, rest: seq<u8>, v: int, e: Word, a: Option<seq<u8>>)
    requires COMMA !in code && COMMA !in errno && SEMICOLON !in flag
    requires DecodeInt64(code) == Ok(v) && DecodeSize(errno) == Ok(e) && IsAttachment(rest, a)
    ensures var s1 := code + [COMMA];
            var s2 := errno + [COMMA];
            var ctrlc := flag == CTRLC_FLAG;
            && ParseFileReply(code) == ParseFileReply(s1) == Ok(FileReply(v, None, false, None))
            && ParseFileReply(s1 + errno) == Ok(FileReply(v, Some(e), false, None))
            && ParseFileReply(s1 + (s2 + flag)) == Ok(FileReply(v, Some(e), ctrlc, None))
            && ParseFileReply(s1 + (s2 + (flag + [SEMICOLON] + rest))) == Ok(FileReply(v, Some(e), ctrlc, a))
  {
    hide ParseFileReply, ParseBehindCode, DecodeInt64, DecodeSize, IsAttachment;
    CodeReads(code, []);
    CodeReads(code, errno);
    CodeReads(code, errno + [COMMA] + flag);
    CodeReads(code, errno + [COMMA] + (flag + [SEMICOLON] + rest));
    ErrnoReads(v, errno, flag);
    ErrnoReads(v, errno, flag + [SEMICOLON] + rest);
    FlagReads(flag, rest, a);
    assert code + [COMMA] == code + [COMMA] + [];
  }

  lemma CodeReads(code: seq<u8>, s: seq<u8>)
    requires COMMA !in code
    ensures ParseFileReply(code)
         == match DecodeInt64(code) case Ok(v) => Ok(FileReply(v, None, false, None)) case Err(e) => Err(e)
    ensures ParseFileReply(code + [COMMA] + s)
         == match DecodeInt64(code) case Ok(v) => ParseBehindCode(v, s) case Err(e) => Err(e)
    ensures forall v :: ParseBehindCode(v, []) == Ok(FileReply(v, None, false, None))
  {
    hide DecodeInt64;
    TokenIs(code, COMMA, s);
  }

  lemma ErrnoReads(v: int, errno: seq<u8>, s: seq<u8>)
    requires COMMA !in errno && DecodeSize(errno).Ok?
    ensures ParseBehindCode(v, errno) == Ok(FileReply(v, Some(DecodeSize(errno).value), false, None))
    ensures ParseBehindCode(v, errno + [COMMA] + s)
         == Ok(FileReply(v, Some(DecodeSize(errno).value), OptStr(s, SEMICOLON) == Some(CTRLC_FLAG),
                         OptStr(AfterToken(s, SEMICOLON), NUL)))
  {
    assert errno != [] by {
      assert DigitRun([]) == 0;
    }
    hide DecodeSize, Token, AfterToken;
    TokenIs(errno, COMMA, s);
    TokenIs([], SEMICOLON, []);
  }

  lemma FlagReads(flag: seq<u8>, rest: seq<u8>, a: Option<seq<u8>>)
    requires SEMICOLON !in flag && IsAttachment(rest, a)
    ensures OptStr(flag, SEMICOLON) == Some(CTRLC_FLAG) <==> flag == CTRLC_FLAG
    ensures OptStr(AfterToken(flag, SEMICOLON), NUL) == None
    ensures OptStr(flag + [SEMICOLON] + rest, SEMICOLON) == Some(flag)
    ensures OptStr(AfterToken(flag + [SEMICOLON] + rest, SEMICOLON), NUL) == a
  {
    hide Token, AfterToken, IsAttachment;
    TokenIs(flag, SEMICOLON, rest);
    AttachmentReads(rest, a);
  }

  /** ... and the errors: a return code or an errno that is no number. */
  lemma FileReplyErrors(code: seq<u8>, errno: seq<u8>, rest: seq<u8>)
    requires COMMA !in code && COMMA !in errno && errno + rest != [] && (rest == [] || rest[0] == COMMA)
    ensures DecodeInt64(code).Err? ==>
              ParseFileReply(code) == ParseFileReply(code + [COMMA] + rest) == Err(DecodeInt64(code).error)
    ensures DecodeInt64(code).Ok? && DecodeSize(errno).Err? ==>
              ParseFileReply(code + [COMMA] + (errno + rest)) == Err(DecodeSize(errno).error)
  {
    hide Token, AfterToken, FromChars, DecodeInt64, DecodeSize;
    TokenIs(code, COMMA, rest);
    TokenIs(code, COMMA, errno + rest);
    TokenIs(errno, COMMA, if rest == [] then [] else rest[1..]);
    assert rest == [] ==> errno + rest == errno;
    assert rest != [] ==> errno + rest == errno + [COMMA] + rest[1..];
  }

  method DecodeFileReply(buf: Buffer) returns (r: Result<FileReply, Error>)
    requires buf.Valid()
    modifies buf`readOff
    ensures buf.Valid() && r == ParseFileReply(old(buf.View().unread))
  {
    var t := DecodeStr(buf, COMMA, false);
    var retcode := DecodeInt64(t.value);
    if retcode.Err? {
      return Err(retcode.error);
    }
    var errno: Option<Word> := None;
    if buf.ReadSize() >= 1 {
      t := DecodeStr(buf, COMMA, false);
      var e := DecodeSize(t.value);
      if e.Err? {
        return Err(e.error);
      }
      errno := Some(e.value);
    }
    var flag := DecodeOptStr(buf, SEMICOLON);
    var attachment := DecodeOptStr(buf, NUL);
    r := Ok(FileReply(retcode.value, errno, flag == Some(CTRLC_FLAG), attachment));
  }

  /** OptCoder around a string coder. */
  method DecodeOptStr(buf: Buffer, sep: u8) returns (r: Option<seq<u8>>)
    requires buf.Valid()
    modifies buf`readOff
    ensures buf.Valid()
    ensures var s := old(buf.View().unread); r == OptStr(s, sep) && buf.View().unread == AfterToken(s, sep)
  {
    if buf.ReadSize() < 1 {
      return None;
    }
    var t := DecodeStr(buf, sep, false);
    r := Some(t.value);
  }

  function Tail(attachment: Option<seq<u8>>): seq<u8> {
    match attachment
    case None => []
    case Some(a) => [SEMICOLON] + a
  }

  function PrintFileReply(r: FileReply): seq<u8> {
    ToChars(r.retcode)
    + (if r.errno.Some? then [COMMA] + ToChars(r.errno.value) else [])
    + (if r.ctrlc then [COMMA] + CTRLC_FLAG else [])
    + Tail(r.attachment)
  }

  /** A number with an attachment, or nothing, behind it is still read; what the coder leaves
      is shorter than the attachment it cut into. */
  lemma NumberThenTail(v: int, lo: int, hi: int, tail: Option<seq<u8>>)
    requires lo <= v <= hi
    ensures var s := ToChars(v) + Tail(tail);
            && FromChars(Token(s, COMMA), lo, hi) == Ok(v)
            && (tail == None ==> AfterToken(s, COMMA) == [])
            && (tail.Some? && AfterToken(s, COMMA) != [] ==> |AfterToken(s, COMMA)| < |tail.value|)
  {
    var x := Tail(tail);
    assert COMMA !in ToChars(v);
    TokenPrefix(ToChars(v), x, COMMA);
    NumRoundTrip(v, lo, hi, Token(x, COMMA));
    if tail.Some? {
      assert SEMICOLON != COMMA;
      TokenPrefix([SEMICOLON], tail.value, COMMA);
    }
  }

  lemma NumberThenComma(v: int, lo: int, hi: int, rest: seq<u8>)
    requires lo <= v <= hi
    ensures var s := ToChars(v) + [COMMA] + rest;
            FromChars(Token(s, COMMA), lo, hi) == Ok(v) && AfterToken(s, COMMA) == rest
  {
    assert COMMA !in ToChars(v);
    TokenIs(ToChars(v), COMMA, rest);
    NumRoundTrip(v, lo, hi, []);
    assert ToChars(v) + [] == ToChars(v);
  }

  lemma OptStrIsShort(s: seq<u8>, sep: u8)
    ensures OptStr(s, sep).Some? ==> |OptStr(s, sep).value| <= |s|
  {
  }

  /** A printed File-I/O reply reads back exactly when it has no attachment, or has the break
      flag in front of it and the attachment is neither empty nor cut at a zero byte. Without
      the flag the attachment is taken for a piece of another field. */
  lemma FileReplyRoundTrip(r: FileReply)
    requires r.Valid()
    ensures ParseFileReply(PrintFileReply(r)) == Ok(r)
       <==> (r.attachment.Some? ==> r.ctrlc && r.attachment.value != [] && NUL !in r.attachment.value)
  {
    if r.ctrlc {
      FlaggedReply(r);
    } else {
      UnflaggedReply(r);
    }
  }

  /** One that does not: retcode 5 with the attachment "a", which is printed as 5;a. */
  lemma PlainAttachmentIsLost()
    ensures var r := FileReply(5, None, false, Some([LOWER_A]));
            && PrintFileReply(r) == ['5' as int, SEMICOLON, LOWER_A]
            && ParseFileReply(PrintFileReply(r)) == Ok(r.(attachment := None))
  {
    assert ToChars(5) == ['5' as int];
    NumberThenTail(5, INT64_MIN, INT64_MAX, Some([LOWER_A]));
    assert Tail(Some([LOWER_A])) == [SEMICOLON, LOWER_A];
  }

  /** Without the flag an attachment never comes back: whatever is decoded is shorter, or
      shows up as an errno that was not sent. */
  lemma UnflaggedReply(r: FileReply)
    requires r.Valid() && !r.ctrlc
    ensures ParseFileReply(PrintFileReply(r)) == Ok(r) <==> r.attachment == None
  {
    var s, x := PrintFileReply(r), Tail(r.attachment);
    if r.errno == None {
      assert s == ToChars(r.retcode) + x;
      NumberThenTail(r.retcode, INT64_MIN, INT64_MAX, r.attachment);
    } else {
      var e := ToChars(r.errno.value);
      assert s == ToChars(r.retcode) + [COMMA] + (e + x);
      NumberThenComma(r.retcode, INT64_MIN, INT64_MAX, e + x);
      NumberThenTail(r.errno.value, 0, SIZE_MAX, r.attachment);
      OptStrIsShort(AfterToken(AfterToken(e + x, COMMA), SEMICOLON), NUL);
    }
  }

  lemma FlaggedReply(r: FileReply)
    requires r.Valid() && r.ctrlc
    ensures ParseFileReply(PrintFileReply(r))
         == Ok(r.(attachment := if r.attachment.Some? then OptStr(r.attachment.value, NUL) else None))
  {
    hide Token, AfterToken, FromChars, ToChars;
    var s, x := PrintFileReply(r), Tail(r.attachment);
    var e := ToChars(r.errno.value);
    var s2 := CTRLC_FLAG + x;
    assert s == ToChars(r.retcode) + [COMMA] + (e + [COMMA] + s2);
    NumberThenComma(r.retcode, INT64_MIN, INT64_MAX, e + [COMMA] + s2);
    NumberThenComma(r.errno.value, 0, SIZE_MAX, s2);
    assert SEMICOLON !in CTRLC_FLAG;
    if r.attachment.Some? {
      assert s2 == CTRLC_FLAG + [SEMICOLON] + r.attachment.value;
      TokenIs(CTRLC_FLAG, SEMICOLON, r.attachment.value);
    } else {
      assert s2 == CTRLC_FLAG;
      TokenIs(CTRLC_FLAG, SEMICOLON, []);
    }
  }
}
