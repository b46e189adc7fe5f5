/** What the receiver's state machine makes of a packet built by `generatePacket`:
    which packets arrive, with which topic and payload, and what one pass of the
    read loop in `run()` makes of a buffer that starts with such a packet. */
module RoundTrip {
  import opened JavaInt
  import opened Frame
  import opened PacketParser
  import opened Seqs

  /** The topic id the receiver reports for a packet sent on `topicId`: its two
      bytes recombined by `(topicIdBytes[1] << 8) | topicIdBytes[0]`. */
  function DecodedTopic(topicId: int): int
  {
    ShlOr(ToByte(topicId / 256 % 256), ToByte(topicId % 256))
  }

  /** The reported topic is `topicId` itself for ids below 0x8000 whose low byte is
      below 0x80; a low byte of 0x80 or more turns into that byte minus 256, and a
      high byte of 0x80 or more makes the id negative. */
  lemma DecodedTopicValue(topicId: int)
    ensures var v := topicId % 0x1_0000;
      DecodedTopic(topicId) ==
        if v % 256 >= 128 then v % 256 - 256
        else if v >= 0x8000 then v - 0x1_0000
        else v
    ensures 0 <= topicId < 0x8000 && topicId % 256 < 0x80 ==> DecodedTopic(topicId) == topicId
  {
    var v := topicId % 0x1_0000;
    SecondByte(topicId);
    assert v % 256 == topicId % 256;
    ShlOrOfSplit(v);
  }

  /** Feeding one byte that neither throws nor delivers is feeding the rest from the
      next state. */
  lemma FeedOne(p: Parser, bs: seq<int8>, q: Parser)
    requires Inv(p) && bs != [] && Inv(q)
    requires Step(p, bs[0]) == Outcome(q, Returned(true), [])
    ensures FeedAll(p, bs) == FeedAll(q, bs[1..])
  {
    var rest := FeedAll(q, bs[1..]);
    assert FeedAll(p, bs) == Fed(rest.parser, [] + rest.delivered, rest.threw);
    assert [] + rest.delivered == rest.delivered;
  }

  /** The seven header bytes `FF FD lenLo lenHi lenChk topicLo topicHi`, with a
      length checksum that matches the low length byte, take a parser waiting in
      FLAGA to DATA with both two-byte fields stored and `data_len` computed. */
  lemma HeaderPhase(p: Parser, h: seq<int8>)
    requires Inv(p) && p.state == FlagA && |h| == 7
    requires h[0] == FLAG_A && h[1] == FLAG_B
    requires Unsigned(h[4]) == 255 - Unsigned(h[2])
    ensures FeedAll(p, h) ==
      Fed(Parser(Data, 0, ShlOr(h[3], h[2]), [h[2], h[3]], [h[5], h[6]], p.data), [], false)
  {
    var p4 := p.(lengthBytes := [h[2], h[3]], byteIndex := 0, state := LengthChecksum);
    SyncAndLength(p, h, p4);
    TopicAfterLength(p4, h[4..]);
  }

  /** `FF FD lenLo lenHi` take FLAGA to LENGTH_CHECKSUM with the length bytes stored. */
  lemma SyncAndLength(p: Parser, h: seq<int8>, p4: Parser)
    requires Inv(p) && p.state == FlagA && |h| >= 4
    requires h[0] == FLAG_A && h[1] == FLAG_B
    requires p4 == p.(lengthBytes := [h[2], h[3]], byteIndex := 0, state := LengthChecksum)
    ensures FeedAll(p, h) == FeedAll(p4, h[4..])
  {
    var p1 := p.(state := FlagB);
    var p2 := p1.(state := MessageLength);
    var p3 := p2.(lengthBytes := p.lengthBytes[0 := h[2]], byteIndex := 1);
    assert Step(p, h[0]) == Outcome(p1, Returned(true), []);
    FeedOne(p, h, p1);
    assert Step(p1, h[1]) == Outcome(p2, Returned(true), []);
    FeedOne(p1, h[1..], p2);
    assert Step(p2, h[2]) == Outcome(p3, Returned(true), []);
    FeedOne(p2, h[2..], p3);
    assert Step(p3, h[3]) == Outcome(p4, Returned(true), []);
    FeedOne(p3, h[3..], p4);
    assert h[1..][1..] == h[2..] && h[2..][1..] == h[3..] && h[3..][1..] == h[4..];
  }

  /** `lenChk topicLo topicHi`, with a matching length checksum, take LENGTH_CHECKSUM
      to DATA with `data_len` computed and the topic bytes stored. */
  lemma TopicAfterLength(p4: Parser, t: seq<int8>)
    requires Inv(p4) && p4.state == LengthChecksum && p4.byteIndex == 0 && |t| == 3
    requires Unsigned(t[0]) == 255 - Unsigned(p4.lengthBytes[0])
    ensures FeedAll(p4, t) ==
      Fed(p4.(dataLen := ShlOr(p4.lengthBytes[1], p4.lengthBytes[0]), state := Data,
              topicBytes := [t[1], t[2]]), [], false)
  {
    var p5 := p4.(dataLen := ShlOr(p4.lengthBytes[1], p4.lengthBytes[0]), state := TopicId);
    var p6 := p5.(topicBytes := p4.topicBytes[0 := t[1]], byteIndex := 1);
    var p7 := p6.(topicBytes := [t[1], t[2]], byteIndex := 0, state := Data);
    LengthChecksumRule(p4, t[0]);
    assert Step(p4, t[0]) == Outcome(p5, Returned(true), []);
    FeedOne(p4, t, p5);
    assert Step(p5, t[1]) == Outcome(p6, Returned(true), []);
    FeedOne(p5, t[1..], p6);
    assert Step(p6, t[2]) == Outcome(p7, Returned(true), []);
    FeedOne(p6, t[2..], p7);
    assert t[1..][1..] == t[2..] && t[2..][1..] == [];
  }

  /** In DATA with room for the rest of the payload, the payload bytes are stored at
      `byte_index` onwards and the last of them moves the parser to MSG_CHECKSUM. */
  lemma {:induction false} DataPhase(p: Parser, payload: seq<int8>)
    requires Inv(p) && p.state == Data && |payload| >= 1
    requires p.dataLen == p.byteIndex + |payload| <= |p.data|
    ensures FeedAll(p, payload) ==
      Fed(p.(state := MsgChecksum, byteIndex := p.dataLen,
             data := p.data[..p.byteIndex] + payload + p.data[p.dataLen..]), [], false)
    decreases |payload|
  {
    var k := p.byteIndex;
    var q := p.(data := p.data[k := payload[0]], byteIndex := k + 1);
    OverwriteStep(p.data, payload, k, p.dataLen);
    if |payload| == 1 {
      var q' := q.(state := MsgChecksum);
      assert Step(p, payload[0]) == Outcome(q', Returned(true), []);
      FeedOne(p, payload, q');
      assert payload[1..] == [];
    } else {
      assert Step(p, payload[0]) == Outcome(q, Returned(true), []);
      FeedOne(p, payload, q);
      DataPhase(q, payload[1..]);
    }
  }

  /** A packet built by `generatePacket` whose length the receiver reads back as
      itself (1 to 0x7FFF bytes, low length byte below 0x80) and whose payload fits
      the `data` array is delivered exactly once, with the decoded topic and the
      `data` array holding the payload in front, and the parser ends reset. The
      message checksum never hits the value the receiver rejects. */
  lemma RoundTrip(p: Parser, payload: seq<int8>, topicId: int)
    requires Inv(p) && p.state == FlagA
    requires 1 <= |payload| < 0x8000 && |payload| % 256 < 0x80
    requires |payload| <= |p.data|
    ensures var data := payload + p.data[|payload|..];
      FeedAll(p, GeneratePacket(payload, topicId)) ==
        Fed(Reset(p).(data := data), [Message(DecodedTopic(topicId), data)], false)
  {
    var r := GeneratePacket(payload, topicId);
    var n := |payload|;
    var chk := r[|r| - 1];
    HeadMiddleLast(r, payload);
    FeedAllAppend(p, r[..7], payload + [chk]);
    HeaderPhase(p, r[..7]);
    LengthBytes(n, r);
    ShlOrOfSplit(n);
    var q7 := Parser(Data, 0, n, [r[2], r[3]], [r[5], r[6]], p.data);
    FeedAllAppend(q7, payload, [chk]);
    DataPhase(q7, payload);
    OverwritePrefix(p.data, payload);
    var data := payload + p.data[n..];
    var q8 := q7.(state := MsgChecksum, byteIndex := n, data := data);
    ChecksumPhase(q8, r, payload, topicId);
  }

  /** The last byte of a packet, fed to a parser that has stored the packet's topic
      bytes and payload, delivers the message and resets. */
  lemma ChecksumPhase(q: Parser, r: seq<int8>, payload: seq<int8>, topicId: int)
    requires r == GeneratePacket(payload, topicId)
    requires Inv(q) && q.state == MsgChecksum && q.dataLen == |payload|
    requires q.topicBytes == [r[5], r[6]] && q.data[..q.dataLen] == payload
    ensures FeedAll(q, [r[|r| - 1]]) ==
      Fed(Reset(q), [Message(DecodedTopic(topicId), q.data)], false)
  {
    assert MessageSum(q) == TopicAndDataSum(r);
    GeneratedChecksumNeverRawSum(payload, topicId);
    MsgChecksumRule(q, r[|r| - 1]);
    SplitTopic(topicId, r);
    var o := Step(q, r[|r| - 1]);
    assert o == Outcome(Reset(q), Returned(true), [Message(DecodedTopic(topicId), q.data)]);
    var rest := FeedAll(Reset(q), []);
    assert FeedAll(q, [r[|r| - 1]]) == Fed(rest.parser, o.delivered + rest.delivered, rest.threw);
    assert o.delivered + rest.delivered == o.delivered;
  }

  /** The length bytes of a packet with fewer than 0x1_0000 payload bytes are
      `(byte) (n % 256)` and `(byte) (n / 256)`. */
  lemma LengthBytes(n: int, r: seq<int8>)
    requires 0 <= n < 0x1_0000 && |r| >= 8
    requires Unsigned(r[2]) == n % 256 && Unsigned(r[3]) == n / 256 % 256
    ensures r[2] == ToByte(n % 256) && r[3] == ToByte(n / 256)
  {
    ToByteMatches(n % 256, r[2]);
    ToByteMatches(n / 256, r[3]);
  }

  /** The topic bytes of a packet are the two low bytes of the topic id. */
  lemma SplitTopic(topicId: int, r: seq<int8>)
    requires |r| >= 8
    requires Unsigned(r[5]) == topicId % 256 && Unsigned(r[6]) == topicId / 256 % 256
    ensures ShlOr(r[6], r[5]) == DecodedTopic(topicId)
  {
    ToByteMatches(topicId % 256, r[5]);
    ToByteMatches(topicId / 256 % 256, r[6]);
  }

  /** A packet from `generatePacket` with fewer than 0x1_0000 payload bytes, fed to a
      parser waiting in FLAGA, is delivered exactly when the receiver reads its length
      back as itself and that length is at least 1 and fits the `data` array. A zero
      length, a low length byte of 0x80 or more, a length of 0x8000 or more (these two
      make `data_len` negative) or a `data` array that is too short leave the parser
      in DATA without ever reaching MSG_CHECKSUM. */
  lemma DeliveredIff(p: Parser, payload: seq<int8>, topicId: int)
    requires Inv(p) && p.state == FlagA && |payload| < 0x1_0000
    ensures var n := |payload|;
      FeedAll(p, GeneratePacket(payload, topicId)).delivered != [] <==>
        1 <= n < 0x8000 && n % 256 < 0x80 && n <= |p.data|
  {
    var n := |payload|;
    if 1 <= n < 0x8000 && n % 256 < 0x80 && n <= |p.data| {
      RoundTrip(p, payload, topicId);
    } else {
      var r := GeneratePacket(payload, topicId);
      var tail := payload + [r[|r| - 1]];
      HeadMiddleLast(r, payload);
      FeedAllAppend(p, r[..7], tail);
      HeaderPhase(p, r[..7]);
      LengthBytes(n, r);
      ShlOrOfSplit(n);
      var q7 := Parser(Data, 0, ShlOr(r[3], r[2]), [r[2], r[3]], [r[5], r[6]], p.data);
      assert Stalled(q7);
      StalledDeliversNothing(q7, tail);
    }
  }

  /** One pass of the read loop over a buffer that starts with a whole packet from
      `generatePacket` (fewer than 0x1_0000 payload bytes): the `data` array is sized
      from the packet's own length bytes, so the packet is delivered exactly when its
      length reads back as itself and is at least 1; then the pass ends without an
      exception, with the parser reset and `data` holding exactly the payload. */
  lemma DispatchDeliversIff(p: Parser, buffer: seq<int8>, bytes: int, payload: seq<int8>, topicId: int)
    requires Inv(p) && p.state == FlagA && bytes > 8
    requires |payload| < 0x1_0000 && |payload| + 8 <= |buffer|
    requires buffer[..|payload| + 8] == GeneratePacket(payload, topicId)
    ensures var n := |payload|;
      var d := Dispatch(p, buffer, bytes);
      && (d.delivered != [] <==> 1 <= n < 0x8000 && n % 256 < 0x80)
      && (d.delivered != [] ==>
            d == DispatchOutcome(Reset(p).(data := payload), [Message(DecodedTopic(topicId), payload)], false))
  {
    var n := |payload|;
    var r := GeneratePacket(payload, topicId);
    assert buffer[2] == r[2] && buffer[3] == r[3];
    LengthBytes(n, r);
    ShlOrOfSplit(n);
    var size := ShlOr(buffer[3], buffer[2]);
    if size >= 0 {
      assert size == n;
      var q := p.(data := seq(size, _ => 0));
      DeliveredIff(q, payload, topicId);
      if 1 <= n < 0x8000 && n % 256 < 0x80 {
        RoundTrip(q, payload, topicId);
        assert payload + q.data[n..] == payload;
      }
    }
  }

  /** With the 256-byte buffer of `run()`, a packet read in one piece is delivered
      exactly when its payload has 1 to 127 bytes: from 128 bytes on the low length
      byte has its top bit set and `new byte[...]` is given a negative size. */
  lemma DispatchInReadBuffer(p: Parser, buffer: seq<int8>, bytes: int, payload: seq<int8>, topicId: int)
    requires Inv(p) && p.state == FlagA && bytes > 8 && |buffer| == 256
    requires |payload| + 8 <= |buffer|
    requires buffer[..|payload| + 8] == GeneratePacket(payload, topicId)
    ensures Dispatch(p, buffer, bytes).delivered != [] <==> 1 <= |payload| <= 127
  {
    DispatchDeliversIff(p, buffer, bytes, payload, topicId);
  }

  /** Bytes other than 0xFF in front of a packet are skipped: the packet is fed
      exactly as without them, whether or not it is then delivered. */
  lemma ResyncAfterNoise(p: Parser, noise: seq<int8>, payload: seq<int8>, topicId: int)
    requires Inv(p) && p.state == FlagA
    requires forall i :: 0 <= i < |noise| ==> noise[i] != FLAG_A
    ensures FeedAll(p, noise + GeneratePacket(payload, topicId)) == FeedAll(p, GeneratePacket(payload, topicId))
  {
    var r := GeneratePacket(payload, topicId);
    FeedAllAppend(p, noise, r);
    NoiseIsSkipped(p, noise);
    assert [] + FeedAll(p, r).delivered == FeedAll(p, r).delivered;
  }

  /** Two packets sent back to back are both delivered, in order; the second one
      finds the `data` array as the first left it. */
  lemma TwoPackets(p: Parser, a: seq<int8>, ta: int, b: seq<int8>, tb: int)
    requires Inv(p) && p.state == FlagA
    requires 1 <= |a| < 0x8000 && |a| % 256 < 0x80 && |a| <= |p.data|
    requires 1 <= |b| < 0x8000 && |b| % 256 < 0x80 && |b| <= |p.data|
    ensures var first := a + p.data[|a|..];
      var second := b + first[|b|..];
      FeedAll(p, GeneratePacket(a, ta) + GeneratePacket(b, tb)) ==
        Fed(Reset(p).(data := second), [Message(DecodedTopic(ta), first), Message(DecodedTopic(tb), second)], false)
  {
    var first := a + p.data[|a|..];
    var q := Reset(p).(data := first);
    FeedAllAppend(p, GeneratePacket(a, ta), GeneratePacket(b, tb));
    RoundTrip(p, a, ta);
    RoundTrip(q, b, tb);
  }

  /** A worked example: payload `01 02 03` on topic 5 is framed as
      `FF FD 03 00 FC 05 00 01 02 03 F4` ... */
  lemma ExampleFrame()
    ensures GeneratePacket([1, 2, 3], 5) == [-1, -3, 3, 0, -4, 5, 0, 1, 2, 3, -12]
  {
    assert SumUnsigned([1, 2, 3]) == 6 by {
      assert [1, 2, 3][..2] == [1, 2] && [1, 2][..1] == [1] && [1 as int8][..0] == [];
    }
    assert ToByte(5 % 0x1_0000 / 0x100) == 0 && ToByte(5 % 0x100) == 5;
    assert ToByte(3 % 0x1_0000 / 0x100) == 0 && ToByte(3 % 0x100) == 3;
    assert ToByte(255 - JavaRem256(3)) == -4;
    assert ToByte(255 - JavaRem256(11)) == -12;
  }

  /** ... and a receiver with a three-byte `data` array delivers it as topic 5 with
      that payload. */
  lemma ExampleDelivery()
    ensures var p := Parser(FlagA, 0, 0, [0, 0], [0, 0], [0, 0, 0]);
      FeedAll(p, [-1, -3, 3, 0, -4, 5, 0, 1, 2, 3, -12]) ==
        Fed(p.(data := [1, 2, 3]), [Message(5, [1, 2, 3])], false)
  {
    var p := Parser(FlagA, 0, 0, [0, 0], [0, 0], [0, 0, 0]);
    ExampleFrame();
    RoundTrip(p, [1, 2, 3], 5);
    DecodedTopicValue(5);
    assert [1, 2, 3] + p.data[3..] == [1, 2, 3];
  }
}
