/** The inbound half of the rosserial wire protocol, as values: the state of the
    receiver's parsing state machine, what one call of `handleByte` does to it, what
    feeding a run of bytes does, and what one pass of the read loop in `run()` does.
    The class in module Endpoint holds the same state in fields and arrays and is
    proved to follow these functions step for step. */
module PacketParser {
  import opened JavaInt
  import opened Seqs

  /** `PACKET_STATE`. */
  datatype PacketState = FlagA | FlagB | MessageLength | LengthChecksum | TopicId | Data | MsgChecksum

  /** One call of `protocol.parsePacket(topic_id, data)`: the topic and the whole
      `data` array as it stood at that moment. */
  datatype Message = Message(topicId: int, data: seq<int8>)

  /** The parser's fields: `packet_state`, `byte_index`, `data_len`, the contents of
      `messageLengthBytes` and `topicIdBytes`, and the contents of the `data` array
      (whose length `run()` chooses). */
  datatype Parser = Parser(
    state: PacketState,
    byteIndex: int,
    dataLen: int,
    lengthBytes: seq<int8>,
    topicBytes: seq<int8>,
    data: seq<int8>)

  /** What `handleByte` did: returned `true` or `false`, or threw
      (`ArrayIndexOutOfBoundsException` on `data`). */
  datatype Handled = Returned(value: bool) | Threw

  /** The parser after one byte, the result, and the messages handed to
      `parsePacket` (none or one). */
  datatype Outcome = Outcome(parser: Parser, result: Handled, delivered: seq<Message>)

  /** The parser after a run of bytes, everything delivered on the way, and whether
      the run was cut short by an exception. */
  datatype Fed = Fed(parser: Parser, delivered: seq<Message>, threw: bool)

  /** One pass of the read loop: the parser afterwards, the deliveries, and whether
      an exception reached the `catch (Exception e)` of `run()`. */
  datatype DispatchOutcome = DispatchOutcome(parser: Parser, delivered: seq<Message>, raised: bool)

  /** What the fields always satisfy: the two scratch arrays have two bytes, and
      `byte_index` is a valid position for whatever the current state writes. In
      MSG_CHECKSUM exactly `data_len` payload bytes have been stored. */
  predicate Inv(p: Parser)
  {
    && |p.lengthBytes| == 2
    && |p.topicBytes| == 2
    && match p.state
       case FlagA => p.byteIndex == 0
       case FlagB => p.byteIndex == 0
       case LengthChecksum => p.byteIndex == 0
       case MessageLength => 0 <= p.byteIndex < 2
       case TopicId => 0 <= p.byteIndex < 2
       case Data => 0 <= p.byteIndex <= |p.data|
       case MsgChecksum => 1 <= p.byteIndex == p.dataLen <= |p.data|
  }

  /** The state `resetPacket()` leaves: FLAGA, `byte_index == 0`, `data_len == 0`
      and two fresh zeroed scratch arrays. */
  predicate IsReset(p: Parser)
  {
    && p.state == FlagA
    && p.byteIndex == 0
    && p.dataLen == 0
    && p.lengthBytes == [0, 0]
    && p.topicBytes == [0, 0]
  }

  /** `resetPacket()`; the `data` array is not touched. */
  function Reset(p: Parser): (q: Parser)
    ensures IsReset(q) && Inv(q) && q.data == p.data
  {
    Parser(FlagA, 0, 0, [0, 0], [0, 0], p.data)
  }

  /** The unsigned sum the MSG_CHECKSUM state compares against: both topic bytes and
      the first `data_len` payload bytes. */
  function MessageSum(p: Parser): (s: int)
    requires Inv(p) && p.state == MsgChecksum
    ensures s >= 0
  {
    Unsigned(p.topicBytes[0]) + Unsigned(p.topicBytes[1]) + SumUnsigned(p.data[..p.dataLen])
  }

  /** `handleByte(b)`. */
  function Step(p: Parser, b: int8): (o: Outcome)
    requires Inv(p)
    ensures Inv(o.parser)
    ensures o.result == Threw ==> o.parser == p && o.delivered == [] && p.state == Data
    ensures o.result == Returned(false) ==>
              IsReset(o.parser) && o.delivered == [] && p.state in {FlagB, MsgChecksum}
    ensures o.delivered != [] ==>
              && p.state == MsgChecksum
              && IsReset(o.parser)
              && o.result == Returned(true)
              && o.delivered == [Message(ShlOr(p.topicBytes[1], p.topicBytes[0]), p.data)]
    ensures p.state != Data ==> o.parser.data == p.data
    ensures o.parser.data != p.data ==>
              p.byteIndex < |p.data| && o.parser.data == p.data[p.byteIndex := b]
  {
    match p.state
    case FlagA =>
      var q := if b == FLAG_A then p.(state := FlagB) else p;
      Outcome(q, Returned(true), [])
    case FlagB =>
      if b == FLAG_B then Outcome(p.(state := MessageLength), Returned(true), [])
      else Outcome(Reset(p), Returned(false), [])
    case MessageLength =>
      var bytes := p.lengthBytes[p.byteIndex := b];
      var index := p.byteIndex + 1;
      var q := if index == 2 then p.(lengthBytes := bytes, byteIndex := 0, state := LengthChecksum)
               else p.(lengthBytes := bytes, byteIndex := index);
      Outcome(q, Returned(true), [])
    case LengthChecksum =>
      var dataLen := ShlOr(p.lengthBytes[1], p.lengthBytes[0]);
      var dataChk := 255 - JavaRem256(dataLen);
      var q := if ToByte(dataChk) == b then p.(dataLen := dataLen, state := TopicId, byteIndex := 0)
               else Reset(p);
      Outcome(q, Returned(true), [])
    case TopicId =>
      var bytes := p.topicBytes[p.byteIndex := b];
      var index := p.byteIndex + 1;
      var q := if index == 2 then p.(topicBytes := bytes, byteIndex := 0, state := Data)
               else p.(topicBytes := bytes, byteIndex := index);
      Outcome(q, Returned(true), [])
    case Data =>
      if p.byteIndex == |p.data| then Outcome(p, Threw, [])
      else
        var index := p.byteIndex + 1;
        var q := p.(data := p.data[p.byteIndex := b], byteIndex := index);
        Outcome(if index == p.dataLen then q.(state := MsgChecksum) else q, Returned(true), [])
    case MsgChecksum =>
      if ToByte(MessageSum(p)) == b then Outcome(Reset(p), Returned(false), [])
      else
        var topicId := ShlOr(p.topicBytes[1], p.topicBytes[0]);
        Outcome(Reset(p), Returned(true), [Message(topicId, p.data)])
  }

  /** `handleByte` applied to each byte in turn, as the loop in `run()` does; an
      exception ends the run and leaves the parser as it was before the failing byte. */
  function FeedAll(p: Parser, bs: seq<int8>): (f: Fed)
    requires Inv(p)
    ensures Inv(f.parser)
    ensures f.threw ==> f.parser.state == Data
    ensures |f.delivered| <= |bs|
    decreases |bs|
  {
    if bs == [] then Fed(p, [], false)
    else
      var o := Step(p, bs[0]);
      if o.result == Threw then Fed(p, [], true)
      else
        var rest := FeedAll(o.parser, bs[1..]);
        Fed(rest.parser, o.delivered + rest.delivered, rest.threw)
  }

  /** Continues a run `f` with more bytes, unless it has already thrown. */
  function Continue(f: Fed, bs: seq<int8>): Fed
    requires Inv(f.parser)
  {
    if f.threw then f
    else
      var g := FeedAll(f.parser, bs);
      Fed(g.parser, f.delivered + g.delivered, g.threw)
  }

  /** The number of bytes the loop in `run()` hands to `handleByte`: the first
      `data.length + 8` bytes of the buffer, but no further than its end. */
  function FedCount(dataLength: nat, bufferLength: nat): (n: nat)
    ensures n <= bufferLength && n <= dataLength + 8
    ensures n == dataLength + 8 || n == bufferLength
  {
    if dataLength + 8 <= bufferLength then dataLength + 8 else bufferLength
  }

  /** One pass of the `run()` loop after `istream.read(buffer)` returned `bytes`:
      with more than 8 bytes and the parser in FLAGA, `data` becomes a fresh zeroed
      array of `(buffer[3] << 8) | buffer[2]` bytes and the first `data.length + 8`
      buffer bytes are fed (a negative size, an index past the buffer's end or an
      exception from `handleByte` ends the pass in the `catch`); otherwise the
      parser is reset. */
  function Dispatch(p: Parser, buffer: seq<int8>, bytes: int): (d: DispatchOutcome)
    requires Inv(p) && |buffer| >= 4
    ensures Inv(d.parser)
    ensures !(bytes > 8 && p.state == FlagA) ==> d == DispatchOutcome(Reset(p), [], false)
  {
    if bytes > 8 && p.state == FlagA then
      var size := ShlOr(buffer[3], buffer[2]);
      if size < 0 then DispatchOutcome(p, [], true)
      else
        var f := FeedAll(p.(data := seq(size, _ => 0)), buffer[..FedCount(size, |buffer|)]);
        DispatchOutcome(f.parser, f.delivered, f.threw || size + 8 > |buffer|)
    else DispatchOutcome(Reset(p), [], false)
  }

  // ---------------------------------------------------------------------------
  // Properties of single steps

  /** From FLAGA only the byte 0xFF moves on, to FLAGB; in FLAGB any byte other than
      0xFD resets and returns false, and that byte is consumed, not looked at again. */
  lemma SyncBytes(p: Parser, b: int8)
    requires Inv(p)
    ensures p.state == FlagA ==>
              Step(p, b) == Outcome(if b == FLAG_A then p.(state := FlagB) else p, Returned(true), [])
    ensures p.state == FlagB ==>
              (Step(p, b).parser.state == MessageLength <==> b == FLAG_B)
    ensures p.state == FlagB && b != FLAG_B ==>
              Step(p, b) == Outcome(Reset(p), Returned(false), [])
  {
  }

  /** In MESSAGE_LENGTH and TOPIC_ID a byte goes into its own scratch array at
      `byte_index` (0 or 1), nothing else is written, and the state advances after
      exactly the second byte. */
  lemma TwoByteFields(p: Parser, b: int8)
    requires Inv(p) && p.state in {MessageLength, TopicId}
    ensures var q := Step(p, b).parser;
      && Step(p, b).result == Returned(true)
      && q.data == p.data && q.dataLen == p.dataLen
      && q.byteIndex in {0, 1}
      && q.byteIndex == (p.byteIndex + 1) % 2
      && (p.state == MessageLength ==>
            q.lengthBytes == p.lengthBytes[p.byteIndex := b] && q.topicBytes == p.topicBytes)
      && (p.state == TopicId ==>
            q.topicBytes == p.topicBytes[p.byteIndex := b] && q.lengthBytes == p.lengthBytes)
      && (q.state == p.state <==> p.byteIndex == 0)
      && (p.byteIndex == 1 ==> q.state == (if p.state == MessageLength then LengthChecksum else Data))
  {
  }

  /** LENGTH_CHECKSUM accepts a byte exactly when its unsigned value is 255 minus the
      low length byte: `data_len % 256` only depends on that byte, however `data_len`
      was sign-extended. Acceptance stores `data_len` and moves to TOPIC_ID; rejection
      resets; both return true. No bound such as `MAX_MSG_DATA_SIZE` is checked. */
  lemma LengthChecksumRule(p: Parser, b: int8)
    requires Inv(p) && p.state == LengthChecksum
    ensures Step(p, b).result == Returned(true) && Step(p, b).delivered == []
    ensures Step(p, b).parser.state == TopicId <==> Unsigned(b) == 255 - Unsigned(p.lengthBytes[0])
    ensures Step(p, b).parser.state == TopicId ==>
              Step(p, b).parser.dataLen == ShlOr(p.lengthBytes[1], p.lengthBytes[0])
    ensures Step(p, b).parser.state != TopicId ==> IsReset(Step(p, b).parser)
  {
    var dataLen := ShlOr(p.lengthBytes[1], p.lengthBytes[0]);
    ShlOrLowByte(p.lengthBytes[1], p.lengthBytes[0]);
    NegatedChecksum(dataLen);
    ToByteMatches(255 - JavaRem256(dataLen), b);
  }

  /** MSG_CHECKSUM hands `(topic_id, data)` to `parsePacket` and resets exactly when
      the byte differs from the raw unsigned sum modulo 256; when it is equal, it
      resets and returns false without delivering anything. */
  lemma MsgChecksumRule(p: Parser, b: int8)
    requires Inv(p) && p.state == MsgChecksum
    ensures IsReset(Step(p, b).parser)
    ensures Step(p, b).delivered != [] <==> Unsigned(b) != MessageSum(p) % 256
    ensures Step(p, b).delivered == [] ==> Step(p, b).result == Returned(false)
  {
    ToByteMatches(MessageSum(p), b);
  }

  // ---------------------------------------------------------------------------
  // Properties of runs of bytes

  /** Feeding `a + b` is feeding `a` and then `b`. */
  lemma {:induction false} FeedAllAppend(p: Parser, a: seq<int8>, b: seq<int8>)
    requires Inv(p)
    ensures FeedAll(p, a + b) == Continue(FeedAll(p, a), b)
    decreases |a|
  {
    if a == [] {
      assert a + b == b;
    } else {
      var o := Step(p, a[0]);
      ConsOfAppend(a, b);
      if o.result != Threw {
        FeedAllAppend(o.parser, a[1..], b);
        var r := FeedAll(o.parser, a[1..]);
        if !r.threw {
          var g := FeedAll(r.parser, b);
          AppendAssoc(o.delivered, r.delivered, g.delivered);
        }
      }
    }
  }

  /** Feeding one more byte of `bs` continues the run over the shorter prefix. */
  lemma FeedExtend(p: Parser, bs: seq<int8>, i: nat)
    requires Inv(p) && i < |bs|
    ensures FeedAll(p, bs[..i + 1]) == Continue(FeedAll(p, bs[..i]), [bs[i]])
  {
    PrefixSnoc(bs, i);
    FeedAllAppend(p, bs[..i], [bs[i]]);
  }

  /** Feeding a single byte is one step, cut short if it throws. */
  lemma FeedSingle(q: Parser, b: int8)
    requires Inv(q)
    ensures var o := Step(q, b);
      FeedAll(q, [b]) ==
        if o.result == Threw then Fed(q, [], true) else Fed(o.parser, o.delivered, false)
  {
    var o := Step(q, b);
    if o.result != Threw {
      assert [b][1..] == [];
      AppendEmpty(o.delivered);
    }
  }

  /** Once a run has thrown, the bytes after it are never looked at. */
  lemma ThrownRunEnds(p: Parser, bs: seq<int8>, i: nat, n: nat)
    requires Inv(p) && i <= n <= |bs| && FeedAll(p, bs[..i]).threw
    ensures FeedAll(p, bs[..n]) == FeedAll(p, bs[..i])
  {
    PrefixSplit(bs, i, n);
    FeedAllAppend(p, bs[..i], bs[i..n]);
  }

  /** Bytes other than 0xFF leave a parser waiting in FLAGA exactly as it is. */
  lemma {:induction false} NoiseIsSkipped(p: Parser, noise: seq<int8>)
    requires Inv(p) && p.state == FlagA
    requires forall i :: 0 <= i < |noise| ==> noise[i] != FLAG_A
    ensures FeedAll(p, noise) == Fed(p, [], false)
    decreases |noise|
  {
    if noise != [] {
      NoiseIsSkipped(p, noise[1..]);
    }
  }

  /** A second 0xFF in a row is consumed by FLAGB and resets the parser, so a packet
      that starts right after a stray 0xFF loses its sync bytes: after `FF` and the
      packet's own `FF FD` the parser is back in FLAGA, past the packet's start. */
  lemma DoubledFlagLosesSync(p: Parser)
    requires Inv(p) && p.state == FlagA
    ensures FeedAll(p, [FLAG_A, FLAG_A, FLAG_B]) == Fed(Reset(p), [], false)
  {
    var q := p.(state := FlagB);
    var r := Reset(p);
    var none: seq<Message> := [];
    assert Step(p, FLAG_A) == Outcome(q, Returned(true), []);
    assert Step(q, FLAG_A) == Outcome(r, Returned(false), []);
    assert Step(r, FLAG_B) == Outcome(r, Returned(true), []);
    assert none + none == none;
    assert [FLAG_B][1..] == [];
    assert FeedAll(r, [FLAG_B]) == Fed(r, none, false);
    assert [FLAG_A, FLAG_B][1..] == [FLAG_B];
    assert FeedAll(q, [FLAG_A, FLAG_B]) == Fed(r, none, false);
    assert [FLAG_A, FLAG_A, FLAG_B][1..] == [FLAG_A, FLAG_B];
  }

  /** A parser in DATA that can never reach `byte_index == data_len` (the length is
      at most the bytes already stored, as for a zero or negative `data_len`, or it
      exceeds the `data` array) delivers nothing, whatever bytes follow: it stays in
      DATA until `data[byte_index]` throws. */
  ghost predicate Stalled(p: Parser)
  {
    p.state == Data && (p.dataLen <= p.byteIndex || p.dataLen > |p.data|)
  }

  lemma {:induction false} StalledDeliversNothing(p: Parser, bs: seq<int8>)
    requires Inv(p) && Stalled(p)
    ensures FeedAll(p, bs).delivered == []
    ensures FeedAll(p, bs).parser.state == Data
    decreases |bs|
  {
    if bs != [] {
      var o := Step(p, bs[0]);
      if o.result != Threw {
        assert Stalled(o.parser);
        StalledDeliversNothing(o.parser, bs[1..]);
      }
    }
  }
}
