/** The receiving side of `ROSSerial` as the Java class holds it: the parsing state
    in fields, the two scratch arrays and the `data` array updated in place, and the
    256-byte read buffer. Every method is proved to do exactly what the functions of
    module PacketParser say, so the lemmas proved there hold of this class. The
    messages handed to `protocol.parsePacket` are recorded in the ghost log
    `delivered`. */
module Endpoint {
  import opened JavaInt
  import opened PacketParser
  import opened Seqs

  class RosSerial {
    var packetState: PacketState
    var topicIdBytes: array<int8>
    var messageLengthBytes: array<int8>
    var dataLen: int
    var byteIndex: int
    /** `byte[] buffer = new byte[256]`, filled by `istream.read(buffer)`. */
    const buffer: array<int8>
    var data: array<int8>
    /** The arguments of every `protocol.parsePacket(topic_id, data)` call so far. */
    ghost var delivered: seq<Message>

    /** The arrays have the sizes the Java code gives them and are distinct objects. */
    ghost predicate Shape()
      reads this
    {
      && messageLengthBytes.Length == 2
      && topicIdBytes.Length == 2
      && buffer.Length == 256
      && messageLengthBytes != topicIdBytes
      && data != messageLengthBytes && data != topicIdBytes
      && buffer != messageLengthBytes && buffer != topicIdBytes && buffer != data
    }

    /** The parsing state held in the fields, as a value. */
    ghost function View(): Parser
      reads this, messageLengthBytes, topicIdBytes, data
    {
      Parser(packetState, byteIndex, dataLen, messageLengthBytes[..], topicIdBytes[..], data[..])
    }

    /** The scratch arrays are the same objects as before or were allocated since
        (by `resetPacket()`). */
    twostate predicate ScratchArraysKept()
      reads this
    {
      && (messageLengthBytes == old(messageLengthBytes) || fresh(messageLengthBytes))
      && (topicIdBytes == old(topicIdBytes) || fresh(topicIdBytes))
    }

    ghost predicate Valid()
      reads this, messageLengthBytes, topicIdBytes, data
    {
      Shape() && Inv(View())
    }

    /** The field initialisers followed by the `resetPacket()` that `run()` starts
        with; `data` starts out empty. */
    constructor ()
      ensures Valid() && IsReset(View()) && View().data == [] && delivered == []
      ensures fresh(buffer) && buffer[..] == seq(256, _ => 0)
    {
      topicIdBytes := new int8[2](_ => 0);
      messageLengthBytes := new int8[2](_ => 0);
      dataLen := 0;
      byteIndex := 0;
      buffer := new int8[256](_ => 0);
      data := new int8[0];
      packetState := FlagA;
      delivered := [];
    }

    /** `resetPacket()`: FLAGA, both counters zero, two fresh zeroed scratch arrays. */
    method ResetPacket()
      requires Shape()
      modifies this
      ensures Valid() && View() == Reset(old(View()))
      ensures data == old(data) && delivered == old(delivered)
      ensures fresh(messageLengthBytes) && fresh(topicIdBytes)
    {
      byteIndex := 0;
      dataLen := 0;
      messageLengthBytes := new int8[2](_ => 0);
      topicIdBytes := new int8[2](_ => 0);
      packetState := FlagA;
    }

    /** One pass of the `while (running)` loop of `run()`. `istream.read(buffer)`
        stores `chunk` at the front of the buffer (the rest keeps the bytes of earlier
        reads) and returns its length. With more than 8 bytes and the parser in FLAGA,
        `data` becomes a fresh zeroed array sized by buffer bytes 3 and 2 and the
        first `data.length + 8` buffer bytes go through `handleByte`; otherwise the
        parser is reset. `raised` says whether an exception (a negative array size,
        an index past the buffer, or one from `handleByte`) ended the pass in the
        `catch (Exception e)`. */
    method ReadPass(chunk: seq<int8>) returns (raised: bool)
      requires Valid() && |chunk| <= buffer.Length
      modifies this, buffer, messageLengthBytes, topicIdBytes, data
      ensures Valid()
      ensures buffer[..] == chunk + old(buffer[..])[|chunk|..]
      ensures var d := Dispatch(old(View()), buffer[..], |chunk|);
        View() == d.parser && raised == d.raised && delivered == old(delivered) + d.delivered
    {
      forall i | 0 <= i < |chunk| {
        buffer[i] := chunk[i];
      }
      assert buffer[..] == chunk + old(buffer[..])[|chunk|..];
      var bytes := |chunk|;
      if bytes > 8 && packetState == FlagA {
        var size := ShlOr(buffer[3], buffer[2]);
        if size < 0 {
          return true;
        }
        ghost var p := View();
        data := new int8[size](_ => 0);
        assert data[..] == seq(size, _ => 0);
        assert View() == p.(data := seq(size, _ => 0));
        raised := FeedBuffer();
      } else {
        ResetPacket();
        raised := false;
      }
    }

    /** The loop `for (i = 0; i < data.length + 8; i++) handleByte(buffer[i]);` of
        `run()`, run until it completes or throws. */
    method FeedBuffer() returns (raised: bool)
      requires Valid() && packetState == FlagA
      modifies this, messageLengthBytes, topicIdBytes, data
      ensures Valid() && data == old(data) && ScratchArraysKept()
      ensures var f := FeedAll(old(View()), buffer[..FedCount(data.Length, buffer.Length)]);
        && View() == f.parser
        && raised == (f.threw || data.Length + 8 > buffer.Length)
        && delivered == old(delivered) + f.delivered
    {
      ghost var p0 := View();
      ghost var log0 := delivered;
      ghost var bs := buffer[..];
      ghost var n := FedCount(data.Length, buffer.Length);
      var i := 0;
      assert bs[..0] == [];
      AppendEmpty(log0);
      while i < data.Length + 8
        invariant 0 <= i <= data.Length + 8 && i <= buffer.Length && i <= n
        invariant Valid() && data == old(data) && buffer[..] == bs && ScratchArraysKept()
        invariant !FeedAll(p0, bs[..i]).threw
        invariant View() == FeedAll(p0, bs[..i]).parser
        invariant delivered == log0 + FeedAll(p0, bs[..i]).delivered
      {
        if i == buffer.Length {
          assert bs[..n] == bs[..i];
          return true;
        }
        ghost var f := FeedAll(p0, bs[..i]);
        FeedExtend(p0, bs, i);
        FeedSingle(f.parser, bs[i]);
        var r := HandleByte(buffer[i]);
        if r == Threw {
          AppendEmpty(f.delivered);
          ThrownRunEnds(p0, bs, i + 1, n);
          return true;
        }
        AppendAssoc(log0, f.delivered, Step(f.parser, bs[i]).delivered);
        i := i + 1;
      }
      assert bs[..n] == bs[..i];
      raised := false;
    }

    /** `handleByte(b)`: the `switch (packet_state)`, one case per method below. An
        `ArrayIndexOutOfBoundsException` from `data[byte_index]` is the result
        `Threw`, with nothing changed. */
    method HandleByte(b: int8) returns (r: Handled)
      requires Valid()
      modifies this, messageLengthBytes, topicIdBytes, data
      ensures Valid() && data == old(data) && ScratchArraysKept()
      ensures var o := Step(old(View()), b);
        View() == o.parser && r == o.result && delivered == old(delivered) + o.delivered
    {
      match packetState
      case FlagA =>
        r := SyncByte(b);
      case FlagB =>
        r := SyncByte(b);
      case MessageLength =>
        r := LengthByte(b);
      case LengthChecksum =>
        r := LengthChecksumByte(b);
      case TopicId =>
        r := TopicByte(b);
      case Data =>
        r := DataByte(b);
      case MsgChecksum =>
        r := MsgChecksumByte(b);
    }

    /** Cases FLAGA and FLAGB. */
    method SyncByte(b: int8) returns (r: Handled)
      requires Valid() && packetState in {FlagA, FlagB}
      modifies this
      ensures Valid() && data == old(data) && ScratchArraysKept()
      ensures var o := Step(old(View()), b);
        View() == o.parser && r == o.result && delivered == old(delivered) + o.delivered
    {
      if packetState == FlagA {
        if b == FLAG_A {
          packetState := FlagB;
        }
        r := Returned(true);
      } else if b == FLAG_B {
        packetState := MessageLength;
        r := Returned(true);
      } else {
        ResetPacket();
        r := Returned(false);
      }
    }

    /** Case MESSAGE_LENGTH. */
    method LengthByte(b: int8) returns (r: Handled)
      requires Valid() && packetState == MessageLength
      modifies this, messageLengthBytes
      ensures Valid() && data == old(data) && ScratchArraysKept()
      ensures var o := Step(old(View()), b);
        View() == o.parser && r == o.result && delivered == old(delivered) + o.delivered
    {
      messageLengthBytes[byteIndex] := b;
      byteIndex := byteIndex + 1;
      if byteIndex == 2 {
        byteIndex := 0;
        packetState := LengthChecksum;
      }
      r := Returned(true);
    }

    /** Case LENGTH_CHECKSUM. */
    method LengthChecksumByte(b: int8) returns (r: Handled)
      requires Valid() && packetState == LengthChecksum
      modifies this
      ensures Valid() && data == old(data) && ScratchArraysKept()
      ensures var o := Step(old(View()), b);
        View() == o.parser && r == o.result && delivered == old(delivered) + o.delivered
    {
      dataLen := ShlOr(messageLengthBytes[1], messageLengthBytes[0]);
      var dataChk := 255 - JavaRem256(dataLen);
      if ToByte(dataChk) == b {
        packetState := TopicId;
        byteIndex := 0;
      } else {
        ResetPacket();
      }
      r := Returned(true);
    }

    /** Case TOPIC_ID. */
    method TopicByte(b: int8) returns (r: Handled)
      requires Valid() && packetState == TopicId
      modifies this, topicIdBytes
      ensures Valid() && data == old(data) && ScratchArraysKept()
      ensures var o := Step(old(View()), b);
        View() == o.parser && r == o.result && delivered == old(delivered) + o.delivered
    {
      topicIdBytes[byteIndex] := b;
      byteIndex := byteIndex + 1;
      if byteIndex == 2 {
        byteIndex := 0;
        packetState := Data;
      }
      r := Returned(true);
    }

    /** Case DATA. */
    method DataByte(b: int8) returns (r: Handled)
      requires Valid() && packetState == Data
      modifies this, data
      ensures Valid() && data == old(data) && ScratchArraysKept()
      ensures var o := Step(old(View()), b);
        View() == o.parser && r == o.result && delivered == old(delivered) + o.delivered
    {
      if byteIndex == data.Length {
        return Threw;
      }
      data[byteIndex] := b;
      byteIndex := byteIndex + 1;
      if byteIndex == dataLen {
        packetState := MsgChecksum;
      }
      r := Returned(true);
    }

    /** Case MSG_CHECKSUM: the two summing loops, the (inverted) comparison, and the
        call of `parsePacket`. */
    method MsgChecksumByte(b: int8) returns (r: Handled)
      requires Valid() && packetState == MsgChecksum
      modifies this
      ensures Valid() && data == old(data) && ScratchArraysKept()
      ensures var o := Step(old(View()), b);
        View() == o.parser && r == o.result && delivered == old(delivered) + o.delivered
    {
      ghost var p := View();
      var chk := 0;
      for i := 0 to 2
        modifies {}
        invariant chk == SumUnsigned(topicIdBytes[..i])
      {
        PrefixSnoc(topicIdBytes[..], i);
        chk := chk + Unsigned(topicIdBytes[i]);
      }
      TwoSum(topicIdBytes[..]);
      for i := 0 to dataLen
        modifies {}
        invariant chk == Unsigned(topicIdBytes[0]) + Unsigned(topicIdBytes[1]) + SumUnsigned(data[..i])
      {
        PrefixSnoc(data[..], i);
        chk := chk + Unsigned(data[i]);
      }
      assert chk == MessageSum(p);
      if ToByte(chk) == b {
        ResetPacket();
        ResetPacket();
        return Returned(false);
      }
      var topicId := ShlOr(topicIdBytes[1], topicIdBytes[0]);
      delivered := delivered + [Message(topicId, data[..])];
      ResetPacket();
      r := Returned(true);
    }
  }

  /** The unsigned sum of a two-byte array. */
  lemma TwoSum(s: seq<int8>)
    requires |s| == 2
    ensures SumUnsigned(s) == Unsigned(s[0]) + Unsigned(s[1])
  {
    assert s[..1][..0] == [];
  }
}
