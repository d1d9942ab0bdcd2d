/** The query dispatcher of src/gdb/connection.packets.cpp: find the registered name at the
    front of a packet. */
module Queries {
  import opened Bytes
  import opened Buffers

  /** query_handler without its callbacks: which of the two are bound. */
  datatype Handler = Handler(separator: u8, gettable: bool, settable: bool)

  datatype Kind = Get | Set

  /** Called: the handler whose callback runs, on the bytes left in the packet. */
  datatype Dispatch = Called(name: seq<u8>) | NotGettable(name: seq<u8>) | NotSettable(name: seq<u8>) | Unknown

  /** The first k bytes are a registered name and the byte behind it fits its separator. */
  predicate MatchesAt(h: map<seq<u8>, Handler>, s: seq<u8>, k: int) {
    0 < k < |s| && s[..k] in h && (h[s[..k]].separator == 0 || h[s[..k]].separator == s[k])
  }

  predicate NoneBefore(h: map<seq<u8>, Handler>, s: seq<u8>, k: int) {
    forall j :: 0 <= j < k ==> !MatchesAt(h, s, j)
  }

  predicate FirstMatch(h: map<seq<u8>, Handler>, s: seq<u8>, k: int) {
    MatchesAt(h, s, k) && NoneBefore(h, s, k)
  }

  /** What happens once a name is found. */
  function Invoke(h: map<seq<u8>, Handler>, name: seq<u8>, kind: Kind): Dispatch
    requires name in h
  {
    match kind
    case Get => if h[name].gettable then Called(name) else NotGettable(name)
    case Set => if h[name].settable then Called(name) else NotSettable(name)
  }

  /** How a query packet s may end, left being what stays unread: the shortest registered name
      that fits wins, and its separator is consumed unless it is the zero byte; with no match
      the whole packet is consumed. */
  ghost predicate Dispatches(h: map<seq<u8>, Handler>, s: seq<u8>, kind: Kind, r: Dispatch, left: seq<u8>) {
    && (forall k :: FirstMatch(h, s, k) ==>
          r == Invoke(h, s[..k], kind) && left == if h[s[..k]].separator == 0 then s[k..] else s[k + 1..])
    && (r == Unknown <==> forall k :: !MatchesAt(h, s, k))
    && (r == Unknown ==> left == [])
  }

  /** handle_query. */
  method HandleQuery(h: map<seq<u8>, Handler>, packetBuf: Buffer, kind: Kind) returns (r: Dispatch)
    requires packetBuf.Valid()
    modifies packetBuf`readOff
    ensures packetBuf.Valid()
    ensures Dispatches(h, old(packetBuf.View().unread), kind, r, packetBuf.View().unread)
  {
    ghost var s := packetBuf.View().unread;
    var name := FindName(h, packetBuf);
    match name {
      case None => r := Unknown;
      case Some(n) =>
        forall k | FirstMatch(h, s, k) ensures k == |n| {
          FirstMatchIsUnique(h, s, k, |n|);
        }
        r := Invoke(h, n, kind);
    }
  }

  lemma MatchesMeans(h: map<seq<u8>, Handler>, s: seq<u8>, name: seq<u8>)
    requires |name| < |s| && name == s[..|name|]
    ensures MatchesAt(h, s, |name|) <==>
              name != [] && name in h && (h[name].separator == 0 || h[name].separator == s[|name|])
  {
  }

  lemma NoneAtAll(h: map<seq<u8>, Handler>, s: seq<u8>, name: seq<u8>)
    requires NoneBefore(h, s, |name|) && Splits(s, name, [])
    ensures forall k :: !MatchesAt(h, s, k)
  {
  }

  lemma NoMatchOrFirst(h: map<seq<u8>, Handler>, s: seq<u8>, k: nat)
    requires NoneBefore(h, s, k)
    ensures if MatchesAt(h, s, k) then FirstMatch(h, s, k) else NoneBefore(h, s, k + 1)
  {
  }

  predicate Splits(s: seq<u8>, name: seq<u8>, unread: seq<u8>) { s == name + unread }

  lemma NextByte(s: seq<u8>, name: seq<u8>, unread: seq<u8>)
    requires Splits(s, name, unread) && unread != []
    ensures |name| < |s| && s[..|name|] == name && s[|name|] == unread[0]
    ensures s[|name|..] == unread && s[|name| + 1..] == unread[1..]
    ensures Splits(s, name + [unread[0]], unread[1..])
  {
  }

  /** The loop of handle_query. */
  method FindName(h: map<seq<u8>, Handler>, packetBuf: Buffer) returns (r: Option<seq<u8>>)
    requires packetBuf.Valid()
    modifies packetBuf`readOff
    ensures packetBuf.Valid()
    ensures var s := old(packetBuf.View().unread);
            match r
            case Some(name) =>
              && |name| < |s| && name == s[..|name|] && FirstMatch(h, s, |name|)
              && packetBuf.View().unread == if h[name].separator == 0 then s[|name|..] else s[|name| + 1..]
            case None => packetBuf.View().unread == [] && forall k :: !MatchesAt(h, s, k)
  {
    ghost var s := packetBuf.View().unread;
    assert NoneBefore(h, s, 0) && Splits(s, [], s);
    hide MatchesAt, NoneBefore, FirstMatch, Splits;
    var name: seq<u8> := [];
    var found: Option<Handler> := None;
    var didFind := false;
    while packetBuf.ReadSize() > 0
      invariant packetBuf.Valid() && Splits(s, name, packetBuf.View().unread)
      invariant found == if name != [] && name in h then Some(h[name]) else None
      invariant NoneBefore(h, s, |name|)
      invariant !didFind
      decreases packetBuf.ReadSize()
    {
      NextByte(s, name, packetBuf.View().unread);
      MatchesMeans(h, s, name);
      NoMatchOrFirst(h, s, |name|);
      if found.Some? && found.value.separator == 0 {
        didFind := true;
        break;
      }
      var curr := packetBuf.GetByte();
      if found.Some? && found.value.separator == curr.value {
        didFind := true;
        break;
      }
      name := name + [curr.value];
      found := if name in h then Some(h[name]) else None;
    }
    if didFind {
      r := Some(name);
    } else {
      NoneAtAll(h, s, name);
      r := None;
    }
  }

  /** At most one position is the first match, so the contract above fixes the outcome. */
  lemma FirstMatchIsUnique(h: map<seq<u8>, Handler>, s: seq<u8>, j: int, k: int)
    requires FirstMatch(h, s, j) && FirstMatch(h, s, k)
    ensures j == k
  {
  }

  lemma FirstMatchExists(h: map<seq<u8>, Handler>, s: seq<u8>, k: int) returns (j: int)
    requires MatchesAt(h, s, k)
    ensures FirstMatch(h, s, j) && j <= k
    decreases k
  {
    if i :| 0 <= i < k && MatchesAt(h, s, i) {
      j := FirstMatchExists(h, s, i);
    } else {
      j := k;
    }
  }

  /** No shorter registered name fits in front of this one. */
  predicate Unshadowed(h: map<seq<u8>, Handler>, name: seq<u8>) {
    forall k :: 0 < k < |name| && name[..k] in h ==>
      h[name[..k]].separator != 0 && h[name[..k]].separator != name[k]
  }

  /** The name is found with a byte behind it that it takes as its separator. */
  predicate Fits(h: map<seq<u8>, Handler>, name: seq<u8>, rest: seq<u8>)
    requires name in h
  {
    name != [] && rest != [] && (h[name].separator == 0 || h[name].separator == rest[0])
  }

  lemma NameFoundFirst(h: map<seq<u8>, Handler>, name: seq<u8>, rest: seq<u8>)
    requires name in h
    ensures FirstMatch(h, name + rest, |name|) <==> Fits(h, name, rest) && Unshadowed(h, name)
  {
    var s := name + rest;
    assert s[..|name|] == name;
    assert forall j :: 0 <= j < |name| ==> s[..j] == name[..j];
    if FirstMatch(h, s, |name|) {
      forall k | 0 < k < |name| && name[..k] in h
        ensures h[name[..k]].separator != 0 && h[name[..k]].separator != name[k]
      {
        assert !MatchesAt(h, s, k);
      }
    }
  }

  /** Exactly when the callback for a registered name runs on a packet that starts with it, and
      which bytes it then finds: a byte must follow the name and be its separator, no shorter
      registered name may fit, and the callback must be bound for this kind of query. */
  lemma HandlerReached(h: map<seq<u8>, Handler>, name: seq<u8>, rest: seq<u8>, kind: Kind, r: Dispatch, left: seq<u8>)
    requires name in h && Dispatches(h, name + rest, kind, r, left)
    ensures r == Called(name) <==>
              && Fits(h, name, rest) && Unshadowed(h, name)
              && (if kind == Get then h[name].gettable else h[name].settable)
    ensures r == Called(name) ==> left == if h[name].separator == 0 then rest else rest[1..]
    ensures r == NotGettable(name) <==> Fits(h, name, rest) && Unshadowed(h, name) && kind == Get && !h[name].gettable
    ensures r == NotSettable(name) <==> Fits(h, name, rest) && Unshadowed(h, name) && kind == Set && !h[name].settable
  {
    var s := name + rest;
    NameFoundFirst(h, name, rest);
    assert s[..|name|] == name && s[|name|..] == rest;
    assert rest != [] ==> s[|name| + 1..] == rest[1..];
    if r != Unknown {
      var k :| MatchesAt(h, s, k);
      var j := FirstMatchExists(h, s, k);
      assert |s[..j]| == j;
      assert j == |name| ==> s[..j] == name;
    }
  }

  /** The one query the program registers, without a colon behind it, is not recognised. */
  lemma BareNameFails(kind: Kind, r: Dispatch, left: seq<u8>)
    requires var name := Ascii("Supported");
             Dispatches(map[name := Handler(COLON, true, false)], name, kind, r, left)
    ensures r == Unknown
  {
  }
}
