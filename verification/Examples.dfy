/** Small packets, replies and lists written out byte by byte. Between them they fix every constant
    of the protocol. */
module Examples {
  import opened Bytes
  import opened Framing
  import opened PacketIo
  import opened Coding
  import opened Coders
  import opened InternalMem

  lemma FrameIs(esc: set<u8>, p: seq<u8>, body: seq<u8>, sum: u8)
    requires Body(esc, p) == body && Sum(body) % 256 == sum
    ensures Frame(esc, p) == [PACKET_BEGIN] + body + [PACKET_END, EncodeHex(sum / 16), EncodeHex(sum)]
  {
  }

  lemma BodyOfTwo(esc: set<u8>, a: u8, b: u8)
    ensures Body(esc, [a]) == EscapeByte(esc, a)
    ensures Body(esc, [a, b]) == EscapeByte(esc, a) + EscapeByte(esc, b)
  {
    BodyAppend(esc, [], a);
    BodyAppend(esc, [a], b);
    assert [] + [a] == [a] && [a] + [b] == [a, b];
  }

  /** The answer to a memory write. */
  lemma SentOk()
    ensures Frame(RESPONSE_ESCAPES, OK_REPLY) == Ascii("$OK#9a")
  {
    BodyOfTwo(RESPONSE_ESCAPES, 'O' as int, 'K' as int);
    SumShort('O' as int, 'K' as int);
    hide Frame, Body, Sum;
    FrameIs(RESPONSE_ESCAPES, OK_REPLY, OK_REPLY, 0x9A);
  }

  /** A byte that is escaped into code, the checksum of the two being sum. */
  lemma SentMarked(c: u8, code: u8, sum: u8)
    requires c in RESPONSE_ESCAPES && CodeEscapeChar(c) == code && sum == (ESCAPE + code) % 256
    ensures Frame(RESPONSE_ESCAPES, [c])
         == [PACKET_BEGIN, ESCAPE, code, PACKET_END, EncodeHex(sum / 16), EncodeHex(sum)]
  {
    BodyOfTwo(RESPONSE_ESCAPES, c, 0);
    SumShort(ESCAPE, code);
    hide Frame, Body, Sum;
    FrameIs(RESPONSE_ESCAPES, [c], [ESCAPE, code], sum);
  }

  /** The four marked bytes, as the stub sends them. */
  lemma SentMarkers()
    ensures Frame(RESPONSE_ESCAPES, ['}' as int]) == Ascii("$}]#da")
    ensures Frame(RESPONSE_ESCAPES, ['*' as int]) == Ascii("$}") + [10] + Ascii("#87")
    ensures Frame(RESPONSE_ESCAPES, ['$' as int]) == Ascii("$}") + [4] + Ascii("#81")
    ensures Frame(RESPONSE_ESCAPES, ['#' as int]) == Ascii("$}") + [3] + Ascii("#80")
  {
    hide Frame;
    SentMarked('}' as int, ']' as int, 0xDA);
    SentMarked('*' as int, 10, 0x87);
    SentMarked('$' as int, 4, 0x81);
    SentMarked('#' as int, 3, 0x80);
  }

  /** A right checksum in either case is answered with a plus, a wrong one with a minus. */
  lemma ReceivedFrames(s: seq<u8>)
    ensures Receive(Ascii("$OK#9a") + s, false, 2) == Reception(Packet, Ascii("OK"), s, Ascii("+"))
    ensures Receive(Ascii("$OK#9A") + s, false, 2) == Reception(Packet, Ascii("OK"), s, Ascii("+"))
    ensures var r := Receive(s, false, 2);
            Receive(Ascii("$OK#9f") + s, false, 2) == r.(replies := Ascii("-") + r.replies)
    ensures Receive([3] + s, false, 2) == Reception(Break, [], s, [])
  {
    OkIsClosed();
    OkFrames();
    assert Scan(FRESH, [3] + s, false, 2) == At(Interrupted, s) by {
      assert ([3] + s)[1..] == s;
    }
    hide Scan, Closed, Unescape, Sum, Ascii, Candidate;
    ScanCandidate(OK_REPLY, '9' as int, 'a' as int, s, false, 2);
    ScanCandidate(OK_REPLY, '9' as int, 'A' as int, s, false, 2);
    ScanCandidate(OK_REPLY, '9' as int, 'f' as int, s, false, 2);
  }

  lemma OkFrames()
    ensures Ascii("OK") == OK_REPLY && [ACK] == Ascii("+") && [NACK] == Ascii("-")
    ensures Ascii("$OK#9a") == Candidate(OK_REPLY, '9' as int, 'a' as int)
    ensures Ascii("$OK#9A") == Candidate(OK_REPLY, '9' as int, 'A' as int)
    ensures Ascii("$OK#9f") == Candidate(OK_REPLY, '9' as int, 'f' as int)
  {
  }

  lemma OkIsClosed()
    ensures Closed(OK_REPLY) && Unescape(OK_REPLY) == OK_REPLY && Sum(OK_REPLY) == 0x9A
  {
    var body := OK_REPLY;
    SumShort('O' as int, 'K' as int);
    assert body[1..] == ['K' as int] && body[1..][1..] == [];
  }

  /** A minus, a break and a plus: one more copy, and the break is reported. */
  lemma Replies(s: seq<u8>)
    ensures Await(Ascii("-") + [3] + Ascii("+") + s, false) == Sending(true, true, 1, s)
  {
    var t := Ascii("-") + [3] + Ascii("+") + s;
    assert t[1..][1..][1..] == s && t[1] == 3 && t[2] == '+' as int;
    assert Await(t[1..][1..], true) == Sending(true, true, 0, s);
    assert Await(t[1..], false) == Sending(true, true, 0, s);
  }

  /** The sizes of the buffers, and how the stub announces the first. */
  lemma Sizes()
    ensures GDB_TRANSPORT_BUFFER_SIZE == 4096 && MaxPacketExpansion(GDB_PACKET_BUFFER_SIZE) == 65541
    ensures EncodeFeature(Feature(Ascii("PacketSize"), Some(ToChars(GDB_PACKET_BUFFER_SIZE)), true))
         == Ascii("PacketSize=8000")
  {
    assert HexOf(8) == Ascii("8") && HexOf(0x80) == Ascii("80") && HexOf(0x800) == Ascii("800");
    assert ToChars(0x8000) == Ascii("8000");
  }

  /** The pointer to a text of fifteen bytes at address 0x10. */
  lemma PointerText()
    ensures Pointer(Region(0x10, 15)) == Ascii("10") + Ascii("/") + Ascii("10")
  {
    assert HexOf(1) == Ascii("1") && HexOf(0x10) == Ascii("10");
    assert [SLASH] == Ascii("/");
  }

  lemma OneDigit(c: u8)
    requires IsHexDigit(c)
    ensures AllHex([c]) && HexValue([c]) == DecodeHex(c)
    ensures DecodeSize([c]) == Ok(DecodeHex(c)) && DecodeInt64(['-' as int, c]) == Ok(0 - DecodeHex(c))
  {
    HexValueAppend([], c);
    HexValueEmpty();
    hide HexValue, DecodeSize, DecodeInt64;
    assert [] + [c] == [c];
    var t, m := NumText(false, [c], []), NumText(true, [c], []);
    assert t.Text() == [c] && m.Text() == ['-' as int, c];
    WordsRead(t);
    WordsRead(m);
  }

  lemma TwoDigits(c: u8, d: u8)
    requires IsHexDigit(c) && IsHexDigit(d)
    ensures DecodeSize([c, d]) == Ok(16 * DecodeHex(c) + DecodeHex(d))
  {
    OneDigit(c);
    HexValueAppend([c], d);
    hide HexValue, DecodeSize;
    assert [c] + [d] == [c, d];
    var t := NumText(false, [c, d], []);
    assert t.Text() == [c, d];
    WordsRead(t);
  }

  /** The separators of the argument lists, and the break flag. */
  lemma Separators()
    ensures [COMMA] == Ascii(",") && [COLON] == Ascii(":") && [SEMICOLON] == Ascii(";") && CTRLC_FLAG == Ascii("C")
  {
  }

  lemma OneAscii(t: string)
    requires |t| == 1
    ensures Ascii(t) == [t[0] as int % 256]
  {
  }

  lemma TwoAscii(t: string)
    requires |t| == 2
    ensures Ascii(t) == [t[0] as int % 256, t[1] as int % 256]
  {
  }

  lemma Field1F()
    ensures DecodeSize(Ascii("1F")) == Ok(31) && COMMA !in Ascii("1F")
  {
    TwoAscii("1F");
    TwoDigits('1' as int, 'F' as int);
    hide DecodeSize, Ascii;
  }

  lemma Field2()
    ensures DecodeSize(Ascii("2")) == Ok(2) && COLON !in Ascii("2") && NUL !in Ascii("2")
  {
    OneAscii("2");
    OneDigit('2' as int);
    hide DecodeSize, DecodeInt64, Ascii;
  }

  lemma Field4()
    ensures DecodeSize(Ascii("4")) == Ok(4) && COMMA !in Ascii("4")
  {
    OneAscii("4");
    OneDigit('4' as int);
    hide DecodeSize, DecodeInt64, Ascii;
  }

  lemma FieldMinus1()
    ensures DecodeInt64(Ascii("-1")) == Ok(-1) && COMMA !in Ascii("-1")
  {
    TwoAscii("-1");
    OneDigit('1' as int);
    hide DecodeSize, DecodeInt64, Ascii;
  }

  /** A memory write with data in both cases. */
  lemma WriteArguments()
    ensures ParseWriteMem(Ascii("1F") + Ascii(",") + (Ascii("2") + Ascii(":") + Ascii("FFa0")))
         == Ok(WriteArgs(31, 2, [255, 160]))
  {
    Separators();
    Field1F();
    Field2();
    DataBytes();
    hide DecodeSize, DecodeInt64, DecodeBytes, ParseWriteMem, Ascii;
    WriteMemReads(Ascii("1F"), Ascii("2"), Ascii("FFa0"));
  }

  /** A memory read. */
  lemma ReadArguments()
    ensures ParseReadMem(Ascii("1F") + Ascii(",") + Ascii("2")) == Ok(ReadArgs(31, 2))
  {
    Separators();
    Field1F();
    Field2();
    hide DecodeSize, DecodeInt64, ParseReadMem, Ascii;
    assert Ascii("2") + [] == Ascii("2");
    ReadMemReads(Ascii("1F"), Ascii("2"), []);
  }

  lemma DataBytes()
    ensures DecodeBytes(Ascii("FFa0")) == Ok([255, 160])
  {
    BytesRead(Ascii("FFa0"));
    hide DecodeBytes;
    assert DecodeBytes(Ascii("FFa0")).value == [255, 160];
  }

  /** A system call that a signal interrupted, without and with an attachment. */
  lemma InterruptedCall()
    ensures var front := Ascii("-1") + Ascii(",");
            && ParseFileReply(front + (Ascii("4") + Ascii(",") + Ascii("C"))) == Ok(FileReply(-1, Some(4), true, None))
            && ParseFileReply(front + (Ascii("4") + Ascii(",") + (Ascii("C") + Ascii(";") + Ascii("x"))))
               == Ok(FileReply(-1, Some(4), true, Some(Ascii("x"))))
  {
    Separators();
    FieldMinus1();
    Field4();
    assert IsAttachment(Ascii("x"), Some(Ascii("x"))) && SEMICOLON !in CTRLC_FLAG by {
      OneAscii("x");
    }
    hide DecodeSize, DecodeInt64, ParseFileReply, Ascii, IsAttachment;
    FileReplyReads(Ascii("-1"), Ascii("4"), CTRLC_FLAG, Ascii("x"), -1, 4, Some(Ascii("x")));
  }

  /** A list of two plain features and one with a value. */
  lemma FeatureList()
    ensures EncodeArray(EncodeFeature, SEMICOLON, [Feature(Ascii("a"), None, true), Feature(Ascii("b"), None, false),
                                                   Feature(Ascii("c"), Some(Ascii("8")), true)])
         == Ascii("a+;b-;c=8")
  {
    var a, b := Feature(Ascii("a"), None, true), Feature(Ascii("b"), None, false);
    var c := Feature(Ascii("c"), Some(Ascii("8")), true);
    EncodeArrayAppend(EncodeFeature, SEMICOLON, [], a);
    EncodeArrayAppend(EncodeFeature, SEMICOLON, [a], b);
    EncodeArrayAppend(EncodeFeature, SEMICOLON, [a, b], c);
    hide EncodeArray;
    assert [] + [a] == [a] && [a] + [b] == [a, b] && [a, b] + [c] == [a, b, c];
  }
}
