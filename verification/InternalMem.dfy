/** src/gdb/easter_eggs.h: memory that the debugger may read and write at addresses of its
    own, handed out by bumping the end, and the two packets that reach it. */
module InternalMem {
  import opened Bytes
  import opened Buffers
  import opened Coding
  import opened Coders

  const ADDRESS: nat := 0x1337_1337_1337_0000
  const WORD: nat := 0x1_0000_0000_0000_0000
  /** The most bytes a vector may hold. */
  const MAX_SIZE: nat := 0x7FFF_FFFF_FFFF_FFFF

  /** internal_buf: what an allocation returns. */
  datatype Region = Region(address: nat, len: nat)

  /** BadAddress is the exception of get_idx. NoRange: the iterators handed to the library
      do not bound a range. */
  datatype Access<T> = Done(value: T) | BadAddress | NoRange

  predicate HasAddr(storage: seq<u8>, addr: nat) {
    ADDRESS <= addr < ADDRESS + |storage|
  }

  /** The end of an access: idx + len in machine arithmetic, then the minimum with the size. */
  function EndIdx(storage: seq<u8>, idx: nat, len: Word): nat {
    var end := (idx + len) % WORD;
    if end < |storage| then end else |storage|
  }

  function ReadData(storage: seq<u8>, addr: nat, len: Word): Access<seq<u8>> {
    if !HasAddr(storage, addr) then BadAddress
    else
      var idx := addr - ADDRESS;
      var end := EndIdx(storage, idx, len);
      if end < idx then NoRange else Done(storage[idx..end])
  }

  /** write_data: the storage afterwards. */
  function WriteData(storage: seq<u8>, addr: nat, len: Word, data: seq<u8>): Access<seq<u8>> {
    if !HasAddr(storage, addr) then BadAddress
    else
      var idx := addr - ADDRESS;
      var end := EndIdx(storage, idx, len);
      if end < idx || |data| < end - idx then NoRange
      else Done(storage[..idx] + data[..end - idx] + storage[end..])
  }

  /** The bytes of a request that lie inside the storage. */
  function Clamp(storage: seq<u8>, addr: nat, len: Word): nat
    requires HasAddr(storage, addr)
  {
    var room := |storage| - (addr - ADDRESS);
    if len <= room then len else room
  }

  /** Reads and writes are defined exactly when the end of the request does not wrap and, for
      a write, there is data for every byte inside; then they touch the clamped range and
      nothing else. */
  lemma AccessCharacterised(storage: seq<u8>, addr: nat, len: Word, data: seq<u8>)
    requires |storage| <= MAX_SIZE && HasAddr(storage, addr)
    ensures var idx, n := addr - ADDRESS, Clamp(storage, addr, len);
            && (ReadData(storage, addr, len).Done? <==> idx + len < WORD)
            && (ReadData(storage, addr, len).Done? ==> ReadData(storage, addr, len).value == storage[idx..idx + n])
            && (WriteData(storage, addr, len, data).Done? <==> idx + len < WORD && n <= |data|)
            && (WriteData(storage, addr, len, data).Done? ==>
                 WriteData(storage, addr, len, data).value == storage[..idx] + data[..n] + storage[idx + n..])
  {
    var idx := addr - ADDRESS;
    if idx + len >= WORD {
      assert (idx + len) % WORD == idx + len - WORD < idx;
    } else {
      assert (idx + len) % WORD == idx + len;
    }
  }

  /** The i-th byte is at the i-th address from 0x1337133713370000 on, and no other address has
      one: the last byte can be read and the address behind it cannot. */
  lemma OneBytePerAddress(storage: seq<u8>, i: nat)
    requires |storage| <= MAX_SIZE
    ensures ReadData(storage, 0x1337_1337_1337_0000 + i, 1) == if i < |storage| then Done([storage[i]]) else BadAddress
    ensures i < 0x1337_1337_1337_0000 ==> ReadData(storage, i, 1) == BadAddress
  {
    if i < |storage| {
      AccessCharacterised(storage, ADDRESS + i, 1, []);
      assert storage[i..i + 1] == [storage[i]];
    }
  }

  /** A read whose end wraps: one byte into the memory, of the greatest length. */
  lemma WrappingReadFails(storage: seq<u8>)
    requires 1 < |storage|
    ensures ReadData(storage, ADDRESS + 1, WORD - 1) == NoRange
  {
  }

  /** A write of two bytes that brings one. */
  lemma ShortWriteFails()
    ensures WriteData([0, 0], ADDRESS, 2, [1]) == NoRange
  {
  }

  /** Reading back what was written: the data, clamped to the end of the storage. */
  lemma ReadAfterWrite(storage: seq<u8>, addr: nat, len: Word, data: seq<u8>)
    requires |storage| <= MAX_SIZE && WriteData(storage, addr, len, data).Done?
    ensures var after := WriteData(storage, addr, len, data).value;
            && |after| == |storage|
            && ReadData(after, addr, len) == Done(data[..Clamp(storage, addr, len)])
  {
    AccessCharacterised(storage, addr, len, data);
    var after := WriteData(storage, addr, len, data).value;
    AccessCharacterised(after, addr, len, data);
  }

  // ---- regions ----

  /** The bytes behind an allocation, not counting the zero byte of a string. */
  function Contents(storage: seq<u8>, r: Region): seq<u8>
    requires InStorage(storage, r)
  {
    storage[r.address - ADDRESS..r.address - ADDRESS + r.len]
  }

  predicate InStorage(storage: seq<u8>, r: Region) {
    ADDRESS <= r.address && r.address + r.len <= ADDRESS + |storage|
  }

  /** Allocations lie one behind the other. */
  ghost predicate Laid(storage: seq<u8>, rs: seq<Region>) {
    && (forall i :: 0 <= i < |rs| ==> InStorage(storage, rs[i]))
    && forall i, j :: 0 <= i < j < |rs| ==> rs[i].address + rs[i].len <= rs[j].address
  }

  /** Growth (add_data, and through it reserve and add_str) and writes, over time. */
  datatype MemOp = Grow(data: seq<u8>) | Write(addr: nat, len: Word, data: seq<u8>)

  function Effect(storage: seq<u8>, op: MemOp): seq<u8> {
    match op
    case Grow(data) => if |storage| + |data| <= MAX_SIZE then storage + data else storage
    case Write(addr, len, data) =>
      match WriteData(storage, addr, len, data)
      case Done(after) => after
      case _ => storage
  }

  function RunOps(storage: seq<u8>, ops: seq<MemOp>): seq<u8>
    decreases |ops|
  {
    if ops == [] then storage else RunOps(Effect(storage, ops[0]), ops[1..])
  }

  /** The operation does not write into the region. */
  predicate Misses(op: MemOp, r: Region) {
    op.Grow? || op.addr + op.len <= r.address || r.address + r.len <= op.addr
  }

  /** A write leaves the storage as it is or replaces a piece of it, inside the range asked for. */
  lemma WriteSplices(storage: seq<u8>, op: MemOp) returns (i: nat, mid: seq<u8>)
    requires |storage| <= MAX_SIZE && op.Write?
    ensures i + |mid| <= |storage| && Effect(storage, op) == storage[..i] + mid + storage[i + |mid|..]
    ensures mid != [] ==> ADDRESS + i == op.addr && |mid| <= op.len
  {
    if WriteData(storage, op.addr, op.len, op.data).Done? {
      AccessCharacterised(storage, op.addr, op.len, op.data);
      i, mid := op.addr - ADDRESS, op.data[..Clamp(storage, op.addr, op.len)];
    } else {
      i, mid := 0, [];
      assert storage == storage[..0] + [] + storage[0..];
    }
  }

  lemma StepKeepsRegion(storage: seq<u8>, op: MemOp, r: Region)
    requires |storage| <= MAX_SIZE && InStorage(storage, r) && Misses(op, r)
    ensures var after := Effect(storage, op);
            |after| <= MAX_SIZE && InStorage(after, r) && Contents(after, r) == Contents(storage, r)
  {
    if op.Write? {
      WriteKeepsRegion(storage, op, r);
    } else {
      GrownElsewhere(storage, op.data, r.address - ADDRESS, r.address - ADDRESS + r.len);
    }
  }

  lemma WriteKeepsRegion(storage: seq<u8>, op: MemOp, r: Region)
    requires |storage| <= MAX_SIZE && InStorage(storage, r) && Misses(op, r) && op.Write?
    ensures var after := Effect(storage, op);
            |after| == |storage| && InStorage(after, r) && Contents(after, r) == Contents(storage, r)
  {
    var i, mid := WriteSplices(storage, op);
    hide Effect;
    var lo, hi := r.address - ADDRESS, r.address - ADDRESS + r.len;
    if mid == [] {
      NothingSpliced(storage, i);
    } else {
      SplicedElsewhere(storage, i, mid, lo, hi);
    }
  }

  lemma NothingSpliced(s: seq<u8>, i: nat)
    requires i <= |s|
    ensures s[..i] + [] + s[i..] == s
  {
  }

  lemma GrownElsewhere(s: seq<u8>, more: seq<u8>, lo: nat, hi: nat)
    requires lo <= hi <= |s|
    ensures (s + more)[lo..hi] == s[lo..hi]
  {
  }

  lemma SplicedElsewhere(s: seq<u8>, i: nat, mid: seq<u8>, lo: nat, hi: nat)
    requires i + |mid| <= |s| && lo <= hi <= |s| && (hi <= i || i + |mid| <= lo)
    ensures var t := s[..i] + mid + s[i + |mid|..]; |t| == |s| && t[lo..hi] == s[lo..hi]
  {
  }

  /** Over any run, a region keeps its place and its contents unless it is written into
      itself, however much the storage grows and whatever the other writes do. */
  lemma {:induction false} RunKeepsRegion(storage: seq<u8>, ops: seq<MemOp>, r: Region)
    requires |storage| <= MAX_SIZE && InStorage(storage, r)
    requires forall op :: op in ops ==> Misses(op, r)
    ensures var after := RunOps(storage, ops);
            |after| <= MAX_SIZE && InStorage(after, r) && Contents(after, r) == Contents(storage, r)
    decreases |ops|
  {
    if ops != [] {
      StepKeepsRegion(storage, ops[0], r);
      RunKeepsRegion(Effect(storage, ops[0]), ops[1..], r);
    }
  }

  /** Allocations share no byte, so writing inside one misses every other. */
  lemma WritingOneMissesTheOthers(storage: seq<u8>, rs: seq<Region>, i: nat, j: nat, w: MemOp)
    requires Laid(storage, rs) && i < |rs| && j < |rs| && i != j && w.Write?
    requires rs[i].address <= w.addr && w.addr + w.len <= rs[i].address + rs[i].len
    ensures Misses(w, rs[j])
  {
    assert i < j ==> rs[i].address + rs[i].len <= rs[j].address;
    assert j < i ==> rs[j].address + rs[j].len <= rs[i].address;
  }

  // ---- the memory ----

  class Memory {
    var storage: seq<u8>
    ghost var regions: seq<Region>

    ghost predicate Valid()
      reads this
    {
      |storage| <= MAX_SIZE && Laid(storage, regions)
    }

    constructor ()
      ensures Valid() && storage == [] && regions == []
    {
      storage, regions := [], [];
    }

    /** add_data: the new region is the data, at the old end; None is std::length_error. */
    method AddData(data: seq<u8>) returns (r: Option<Region>)
      requires Valid()
      modifies this
      ensures Valid()
      ensures r == None <==> |old(storage)| + |data| > MAX_SIZE
      ensures r == None ==> storage == old(storage) && regions == old(regions)
      ensures r.Some? ==> storage == old(storage) + data && regions == old(regions) + [r.value]
      ensures r.Some? ==> InStorage(storage, r.value) && Contents(storage, r.value) == data
      ensures r.Some? ==> r.value.address == ADDRESS + |old(storage)|
      ensures storage == Effect(old(storage), Grow(data))
      ensures OthersKept(old(regions), old(storage), storage)
    {
      if |storage| + |data| > MAX_SIZE {
        return None;
      }
      var inserted := |storage|;
      storage := storage + data;
      var region := Region(ADDRESS + inserted, |data|);
      regions := regions + [region];
      r := Some(region);
    }

    /** reserve: zero bytes. */
    method Reserve(num: nat) returns (r: Option<Region>)
      requires Valid()
      modifies this
      ensures Valid()
      ensures r == None <==> |old(storage)| + num > MAX_SIZE
      ensures r == None ==> storage == old(storage) && regions == old(regions)
      ensures r.Some? ==> storage == old(storage) + seq(num, i => 0) && regions == old(regions) + [r.value]
      ensures r.Some? ==> InStorage(storage, r.value) && Contents(storage, r.value) == seq(num, i => 0)
      ensures OthersKept(old(regions), old(storage), storage)
    {
      r := AddData(seq(num, i => 0));
    }

    /** add_str: the text and a zero byte behind it; the region does not count the zero. The
        index is the one before either insertion. It is noexcept: None ends the program. */
    method AddStr(s: seq<u8>) returns (r: Option<Region>)
      requires Valid()
      modifies this
      ensures Valid()
      ensures r == None <==> |old(storage)| + |s| + 1 > MAX_SIZE
      ensures r.Some? ==>
        && storage == old(storage) + s + [0]
        && r.value == Region(ADDRESS + |old(storage)|, |s|)
        && InStorage(storage, r.value) && Contents(storage, r.value) == s
        && old(regions) <= regions && r.value in regions
      ensures OthersKept(old(regions), old(storage), storage)
    {
      ghost var before := storage;
      r := AddData(s);
      if r.Some? {
        assert r.value in regions;
        var zero := Reserve(1);
        if zero == None {
          return None;
        }
        assert storage == before + s + [0];
      }
    }

    /** handle_write_mem: out-of-range addresses are answered alike and change nothing. */
    method HandleWriteMem(w: WriteArgs, respBuf: Buffer) returns (r: Access<bool>)
      requires Valid() && respBuf.Valid()
      modifies this`storage, respBuf`writeOff, respBuf.storage
      ensures Valid() && respBuf.Valid()
      ensures storage == Effect(old(storage), MemOp.Write(w.addr, w.len, w.data))
      ensures var t := if HasAddr(old(storage), w.addr) then WriteData(old(storage), w.addr, w.len, w.data)
                       else Done(old(storage));
              match t
              case Done(after) =>
                && storage == after
                && r == Done(2 <= old(respBuf.WriteSize()))
                && respBuf.View() == if r == Done(true) then old(respBuf.View()).Put(OK_REPLY) else old(respBuf.View())
              case _ => r == NoRange && storage == old(storage) && respBuf.View() == old(respBuf.View())
    {
      if HasAddr(storage, w.addr) {
        var t := WriteData(storage, w.addr, w.len, w.data);
        if !t.Done? {
          return NoRange;
        }
        AccessCharacterised(storage, w.addr, w.len, w.data);
        storage := t.value;
      }
      var ok := respBuf.AppendBuf(OK_REPLY);
      r := Done(ok);
    }

    /** handle_read_mem: the clamped bytes in hex, or the hex of the letter a. */
    method HandleReadMem(addr: nat, len: Word, respBuf: Buffer) returns (r: Access<bool>)
      requires Valid() && respBuf.Valid()
      modifies respBuf`writeOff, respBuf.storage
      ensures respBuf.Valid()
      ensures match ReadReply(storage, addr, len)
              case Done(bytes) =>
                && r == Done(2 * |bytes| <= old(respBuf.WriteSize()))
                && respBuf.View() == old(respBuf.View()).Put(FirstBytes(HexBytes(bytes), old(respBuf.WriteSize())))
              case _ => r == NoRange && respBuf.View() == old(respBuf.View())
    {
      var t := ReadReply(storage, addr, len);
      if !t.Done? {
        return NoRange;
      }
      var ok := EncodeBytesTo(t.value, respBuf);
      r := Done(ok);
    }
  }

  const OK_REPLY: seq<u8> := ['O' as int, 'K' as int]

  function ReadReply(storage: seq<u8>, addr: nat, len: Word): Access<seq<u8>> {
    if HasAddr(storage, addr) then
      match ReadData(storage, addr, len)
      case Done(bytes) => Done(bytes)
      case _ => NoRange
    else Done([LOWER_A])
  }

  /** Growing the storage moves and changes nothing that was handed out before. */
  ghost predicate OthersKept(rs: seq<Region>, before: seq<u8>, after: seq<u8>)
  {
    forall r :: r in rs && InStorage(before, r) ==> InStorage(after, r) && Contents(after, r) == Contents(before, r)
  }

  /** A read of a region answers with its contents. */
  lemma RegionIsRead(storage: seq<u8>, r: Region)
    requires |storage| <= MAX_SIZE && InStorage(storage, r) && r.len > 0
    ensures ReadReply(storage, r.address, r.len) == Done(Contents(storage, r))
  {
    AccessCharacterised(storage, r.address, r.len, []);
  }

  lemma WriteThenRead(storage: seq<u8>, r: Region, data: seq<u8>)
    requires |storage| <= MAX_SIZE && InStorage(storage, r) && r.len == |data| > 0
    ensures WriteData(storage, r.address, r.len, data).Done?
    ensures ReadReply(WriteData(storage, r.address, r.len, data).value, r.address, r.len) == Done(data)
  {
    AccessCharacterised(storage, r.address, r.len, data);
    ReadAfterWrite(storage, r.address, r.len, data);
    assert data[..r.len] == data;
  }

  /** The debugger writes with one packet and reads with the next: for any region and data
      of that length, the argument text it prints for the write, decoded and carried out,
      makes the read, printed and decoded likewise, answer with exactly that data. */
  lemma WritePacketThenRead(storage: seq<u8>, r: Region, data: seq<u8>)
    requires |storage| <= MAX_SIZE && InStorage(storage, r) && r.len == |data| > 0
    ensures match (ParseWriteMem(PrintWriteMem(WriteArgs(r.address, r.len, data))),
                   ParseReadMem(PrintReadMem(ReadArgs(r.address, r.len))))
            case (Ok(w), Ok(q)) =>
              && WriteData(storage, w.addr, w.len, w.data).Done?
              && ReadReply(WriteData(storage, w.addr, w.len, w.data).value, q.addr, q.len) == Done(data)
            case _ => false
  {
    WriteMemRoundTrip(WriteArgs(r.address, r.len, data));
    ReadMemRoundTrip(ReadArgs(r.address, r.len));
    WriteThenRead(storage, r, data);
  }

  /** Reads outside the memory are answered with the letter a in hex. */
  lemma ReadOutside(storage: seq<u8>, addr: nat, len: Word)
    requires addr < 0x1337_1337_1337_0000 || addr >= 0x1337_1337_1337_0000 + |storage|
    ensures ReadReply(storage, addr, len).Done? && HexBytes(ReadReply(storage, addr, len).value) == Ascii("61")
  {
    assert HexBytes([LOWER_A][1..]) == [];
  }

  // ---- texts the debugger fetches itself ----

  const SLASH: u8 := '/' as int

  /** remote_io_encode_str: where a text is, and its length with the zero byte. */
  function Pointer(r: Region): seq<u8> {
    ToChars(r.address) + [SLASH] + ToChars(r.len + 1)
  }

  /** The debugger takes the two numbers of a pointer and reads there. */
  function Fetch(storage: seq<u8>, pointer: seq<u8>): Result<seq<u8>, Error> {
    match (DecodeSize(Token(pointer, SLASH)), DecodeSize(AfterToken(pointer, SLASH)))
    case (Ok(addr), Ok(len)) =>
      (match ReadReply(storage, addr, len)
       case Done(bytes) => Ok(bytes)
       case _ => Err(Undefined))
    case (Err(e), _) => Err(e)
    case (_, Err(e)) => Err(e)
  }

  /** A text that was added is what the debugger finds at the pointer printed for it, with one
      zero byte behind it, whatever was stored and written elsewhere meanwhile. */
  lemma TextIsFetched(before: seq<u8>, text: seq<u8>, ops: seq<MemOp>)
    requires |before| + |text| + 1 <= MAX_SIZE
    requires var whole := Region(ADDRESS + |before|, |text| + 1); forall op :: op in ops ==> Misses(op, whole)
    ensures Fetch(RunOps(before + text + [0], ops), Pointer(Region(ADDRESS + |before|, |text|))) == Ok(text + [0])
  {
    var whole := Region(ADDRESS + |before|, |text| + 1);
    var storage := before + text + [0];
    assert Contents(storage, whole) == text + [0];
    RunKeepsRegion(storage, ops, whole);
    PointerIsFollowed(RunOps(storage, ops), Region(whole.address, |text|), text);
  }

  lemma PointerIsFollowed(storage: seq<u8>, r: Region, text: seq<u8>)
    requires |storage| <= MAX_SIZE && r.len == |text|
    requires InStorage(storage, Region(r.address, |text| + 1))
    requires Contents(storage, Region(r.address, |text| + 1)) == text + [0]
    ensures Fetch(storage, Pointer(r)) == Ok(text + [0])
  {
    PointerParts(r);
    RegionIsRead(storage, Region(r.address, r.len + 1));
    hide DecodeSize, Pointer, Token, AfterToken, ReadReply;
  }

  lemma PointerParts(r: Region)
    requires r.address <= SIZE_MAX && r.len + 1 <= SIZE_MAX
    ensures DecodeSize(Token(Pointer(r), SLASH)) == Ok(r.address)
    ensures DecodeSize(AfterToken(Pointer(r), SLASH)) == Ok(r.len + 1)
  {
    var a, n := ToChars(r.address), ToChars(r.len + 1);
    assert SLASH !in a;
    hide ToChars, FromChars, Token, AfterToken;
    NumRoundTrip(r.address, 0, SIZE_MAX, []);
    NumRoundTrip(r.len + 1, 0, SIZE_MAX, []);
    assert a + [] == a && n + [] == n;
    TokenIs(a, SLASH, n);
  }
}
