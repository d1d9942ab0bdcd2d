/** src/gdb/buffer.h: fixed storage with a write head and a read head. */
module Buffers {
  import opened Bytes

  /** What a buffer holds: the bytes written since the last reset, split at the read head. */
  datatype Queue = Queue(cap: nat, consumed: seq<u8>, unread: seq<u8>) {
    function Written(): seq<u8> { consumed + unread }

    function Put(data: seq<u8>): Queue { this.(unread := unread + data) }

    function Take(n: nat): Queue
      requires n <= |unread|
    {
      Queue(cap, consumed + unread[..n], unread[n..])
    }

    function Cleared(): Queue { Queue(cap, [], []) }
  }

  lemma PutTwice(q: Queue, a: seq<u8>, b: seq<u8>)
    ensures q.Put(a).Put(b) == q.Put(a + b) && q.Put([]) == q
  {
    assert q.unread + (a + b) == (q.unread + a) + b;
  }

  datatype Op = Write(data: seq<u8>) | Read(n: nat) | Clear

  /** One call on a buffer, which is what the methods below do; a call that throws leaves it as it was. */
  function Apply(q: Queue, op: Op): (Queue, bool) {
    match op
    case Write(data) => if |q.Written()| + |data| <= q.cap then (q.Put(data), true) else (q, false)
    case Read(n) => if n <= |q.unread| then (q.Take(n), true) else (q, false)
    case Clear => (q.Cleared(), true)
  }

  class Buffer {
    const maxSize: nat
    const storage: array<u8>
    var writeOff: nat
    var readOff: nat

    ghost predicate Valid()
      reads this
    {
      storage.Length == maxSize && readOff <= writeOff <= maxSize
    }

    ghost function View(): Queue
      reads this, storage
      requires Valid()
    {
      Queue(maxSize, storage[..readOff], storage[readOff..writeOff])
    }

    constructor (size: nat)
      ensures Valid() && maxSize == size && fresh(storage)
      ensures View() == Queue(size, [], [])
    {
      maxSize := size;
      storage := new u8[size];
      writeOff, readOff := 0, 0;
    }

    function ReadSize(): (n: nat)
      reads this, storage
      requires Valid()
      ensures n == |View().unread|
    {
      writeOff - readOff
    }

    function WriteSize(): (n: nat)
      reads this, storage
      requires Valid()
      ensures n == maxSize - |View().Written()|
    {
      maxSize - writeOff
    }

    /** read_buf: the bytes still to be read, which stay unread. */
    function Unread(): (s: seq<u8>)
      reads this, storage
      requires Valid()
      ensures s == View().unread
    {
      storage[readOff..writeOff]
    }

    /** None is std::out_of_range. */
    method GetByte() returns (r: Option<u8>)
      requires Valid()
      modifies this`readOff
      ensures Valid()
      ensures (View(), r.Some?) == Apply(old(View()), Read(1)) && r.Some? == (old(View().unread) != [])
      ensures r.Some? ==> r.value == old(View().unread[0])
    {
      if ReadSize() < 1 {
        return None;
      }
      r := Some(storage[readOff]);
      readOff := readOff + 1;
      assert View() == old(View().Take(1));
    }

    /** get_str: the next num bytes, all unread ones if num is zero; None is std::out_of_range. */
    method GetStr(num: nat) returns (s: Option<seq<u8>>)
      requires Valid()
      modifies this`readOff
      ensures Valid()
      ensures var n := if num == 0 then |old(View().unread)| else num;
              && (View(), s.Some?) == Apply(old(View()), Read(n)) && s.Some? == (n <= |old(View().unread)|)
              && (s.Some? ==> s.value == old(View().unread[..n]))
    {
      var n := if num == 0 then ReadSize() else num;
      if ReadSize() < n {
        return None;
      }
      s := Some(storage[readOff..readOff + n]);
      readOff := readOff + n;
      assert s.value == old(View().unread)[..n];
      assert storage[..readOff] == storage[..old(readOff)] + s.value;
      assert storage[readOff..writeOff] == old(View().unread)[n..];
      assert View() == old(View().Take(n));
    }

    /** get_count: skip bytes, or throw when there are too few. */
    method GetCount(num: nat) returns (ok: bool)
      requires Valid()
      modifies this`readOff
      ensures Valid() && (View(), ok) == Apply(old(View()), Read(num)) && ok == (num <= |old(View().unread)|)
    {
      ok := num <= ReadSize();
      if ok {
        readOff := readOff + num;
        assert storage[..readOff] == storage[..old(readOff)] + storage[old(readOff)..readOff];
        assert View() == old(View().Take(num));
      }
    }

    /** False is buffer_too_small. */
    method PutByte(val: u8) returns (ok: bool)
      requires Valid()
      modifies this`writeOff, storage
      ensures Valid() && (View(), ok) == Apply(old(View()), Write([val]))
    {
      if WriteSize() < 1 {
        return false;
      }
      storage[writeOff] := val;
      writeOff := writeOff + 1;
      assert View().consumed == old(View().consumed) && View().unread == old(View().unread) + [val];
      assert View() == old(View()).Put([val]);
      ok := true;
    }

    /** append_buf: all of the data or none of it. */
    method AppendBuf(data: seq<u8>) returns (ok: bool)
      requires Valid()
      modifies this`writeOff, storage
      ensures Valid() && (View(), ok) == Apply(old(View()), Write(data))
    {
      ok := |data| <= WriteSize();
      if ok {
        forall i | 0 <= i < |data| {
          storage[writeOff + i] := data[i];
        }
        writeOff := writeOff + |data|;
        assert View().consumed == old(View().consumed) && View().unread == old(View().unread) + data;
        assert View() == old(View()).Put(data);
      }
    }

    /** put_count: count as written what was stored behind the write head. */
    method PutCount(num: nat) returns (ok: bool)
      requires Valid()
      modifies this`writeOff
      ensures Valid() && ok == (|old(View().Written())| + num <= maxSize)
      ensures ok ==> View() == old(View()).Put(storage[old(writeOff)..old(writeOff) + num])
      ensures !ok ==> View() == old(View())
    {
      ok := num <= WriteSize();
      if ok {
        writeOff := writeOff + num;
      }
    }

    method Reset()
      requires Valid()
      modifies this`writeOff, this`readOff
      ensures Valid() && (View(), true) == Apply(old(View()), Clear)
    {
      writeOff, readOff := 0, 0;
    }
  }

  // ---- runs ----

  function RunOps(q: Queue, ops: seq<Op>): Queue
    decreases |ops|
  {
    if ops == [] then q else RunOps(Apply(q, ops[0]).0, ops[1..])
  }

  /** The bytes a run put in since its last reset, after the bytes that were there: a
      history that looks at writes alone and never at how much has been read. */
  function WrittenBy(cap: nat, before: seq<u8>, ops: seq<Op>): seq<u8>
    decreases |ops|
  {
    if ops == [] then before
    else match ops[0]
      case Write(data) => WrittenBy(cap, if |before| + |data| <= cap then before + data else before, ops[1..])
      case Read(_) => WrittenBy(cap, before, ops[1..])
      case Clear => WrittenBy(cap, [], ops[1..])
  }

  /** After any run, what was written since the reset is consumed ++ unread, it fits, and
      the next write is refused exactly when it would not fit behind all of it: reading
      never makes room. */
  lemma {:induction false} BufferRuns(q: Queue, ops: seq<Op>, data: seq<u8>)
    requires |q.Written()| <= q.cap
    ensures var w := WrittenBy(q.cap, q.Written(), ops);
            var r := RunOps(q, ops);
            && r.cap == q.cap
            && r.consumed + r.unread == w && |w| <= q.cap
            && (Apply(r, Write(data)).1 <==> |w| + |data| <= q.cap)
            && (Apply(r, Read(|data|)).1 <==> |r.consumed| + |data| <= |w|)
            && (Apply(r, Write(data)).1 ==> RunOps(q, ops + [Write(data)]).unread == r.unread + data)
    decreases |ops|
  {
    if ops == [] {
      assert ops + [Write(data)] == [Write(data)];
    } else {
      var q' := Apply(q, ops[0]).0;
      match ops[0] {
        case Write(d) => assert q.Put(d).Written() == q.Written() + d;
        case Read(n) => if n <= |q.unread| { assert q.Take(n).Written() == q.Written(); }
        case Clear => assert q'.Written() == [];
      }
      BufferRuns(q', ops[1..], data);
      assert (ops + [Write(data)])[1..] == ops[1..] + [Write(data)];
    }
  }
}
