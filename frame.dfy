/** The outbound half of the rosserial wire protocol: `generatePacket` frames a
    payload for one topic as
      FF FD lenLo lenHi lenChk topicLo topicHi payload... dataChk. */
module Frame {
  import opened JavaInt

  /** `generatePacket(data, topicId)`. The 16-bit fields are cut from Java ints with
      `& 0xFF00 >> 8` and `& 0xFF`, which Euclidean `%` and `/` compute for negative
      values too; `tLow` and `tHigh` enter the checksum as signed bytes and the payload
      bytes as unsigned ones, exactly as the Java loop adds them. */
  function GeneratePacket(data: seq<int8>, topicId: int): (r: seq<int8>)
    ensures |r| == |data| + 8
    ensures r[0] == FLAG_A && r[1] == FLAG_B
    ensures Unsigned(r[2]) == |data| % 256
    ensures Unsigned(r[3]) == |data| / 256 % 256
    ensures Unsigned(r[4]) == 255 - |data| % 256
    ensures Unsigned(r[5]) == topicId % 256
    ensures Unsigned(r[6]) == topicId / 256 % 256
    ensures r[7..|r| - 1] == data
  {
    LowBytes(topicId);
    LowBytes(|data|);
    NegatedChecksum(|data|);
    var length := |data|;
    var tHigh := ToByte(topicId % 0x1_0000 / 0x100);
    var tLow := ToByte(topicId % 0x100);
    var dataValues := tLow as int + tHigh as int + SumUnsigned(data);
    var lHigh := ToByte(length % 0x1_0000 / 0x100);
    var lLow := ToByte(length % 0x100);
    var lengthChk := ToByte(255 - JavaRem256(length));
    var dataChk := ToByte(255 - JavaRem256(dataValues));
    [FLAG_A, FLAG_B, lLow, lHigh, lengthChk, tLow, tHigh] + data + [dataChk]
  }

  /** The unsigned sum the receiver's message checksum is built on: the two topic
      bytes and every payload byte, all read as unsigned values. */
  function TopicAndDataSum(packet: seq<int8>): (s: int)
    requires |packet| >= 8
    ensures s >= 0
  {
    Unsigned(packet[5]) + Unsigned(packet[6]) + SumUnsigned(packet[7..|packet| - 1])
  }

  /** The last byte of a packet is 255 minus the unsigned topic-and-payload sum
      modulo 256, even though the two topic bytes were added as signed values:
      a signed byte and its unsigned reading agree modulo 256. */
  lemma GeneratePacketChecksum(data: seq<int8>, topicId: int)
    ensures var r := GeneratePacket(data, topicId);
      Unsigned(r[|r| - 1]) == 255 - TopicAndDataSum(r) % 256
  {
    var r := GeneratePacket(data, topicId);
    SecondByte(topicId);
    var tHigh := ToByte(topicId % 0x1_0000 / 0x100);
    var tLow := ToByte(topicId % 0x100);
    var signed := tLow as int + tHigh as int + SumUnsigned(data);
    var unsigned := Unsigned(tLow) + Unsigned(tHigh) + SumUnsigned(data);
    assert r[5] == tLow && r[6] == tHigh && r[7..|r| - 1] == data;
    assert TopicAndDataSum(r) == unsigned;
    SignedUnsignedSum(tLow, tHigh, SumUnsigned(data));
    NegatedChecksum(signed);
  }

  /** The receiver compares the last byte with `(byte)` of the raw (not negated)
      unsigned sum and treats equality as a failure; the byte written by
      `GeneratePacket` never equals it, because `255 - s` and `s` always differ
      modulo 256 (their sum, 255, is odd). */
  lemma GeneratedChecksumNeverRawSum(data: seq<int8>, topicId: int)
    ensures var r := GeneratePacket(data, topicId);
      ToByte(TopicAndDataSum(r)) != r[|r| - 1]
  {
    var r := GeneratePacket(data, topicId);
    GeneratePacketChecksum(data, topicId);
    ToByteMatches(TopicAndDataSum(r), r[|r| - 1]);
  }
}
