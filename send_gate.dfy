/** The outbound `Protocol.PacketHandler` of `ROSSerial`: `send(data, topicId)`
    frames the payload with `generatePacket` and writes it, but drops any call that
    comes too soon after the previous transmission. The clock is read twice per call
    and is a parameter here; the output stream is the ghost log `written`. */
module SendGate {
  import opened JavaInt
  import opened Frame

  /** The debounce test: the first packet always goes out (`-1` means none was sent
      yet); a later one only when the clock, less one millisecond, is past the time
      of the last transmission. */
  predicate GateOpen(lastAt: int, now: int): (open: bool)
    ensures lastAt != -1 ==> (open <==> now >= lastAt + 2)
    ensures lastAt == -1 ==> open
  {
    lastAt == -1 || now - 1 > lastAt
  }

  class PacketHandler {
    var lastPacketTransmittedAt: int
    /** Every packet handed to `ostream.write`. */
    ghost var written: seq<seq<int8>>

    constructor ()
      ensures lastPacketTransmittedAt == -1 && written == []
    {
      lastPacketTransmittedAt := -1;
      written := [];
    }

    /** `send(data, topicId)`. `testClock` is the `System.currentTimeMillis()` read in
        the test and `stampClock` the one stored afterwards; a write failure is
        caught and ignored, so the packet counts as written either way. */
    method Send(data: seq<int8>, topicId: int, testClock: int, stampClock: int)
      modifies this
      ensures if GateOpen(old(lastPacketTransmittedAt), testClock) then
          && lastPacketTransmittedAt == stampClock
          && written == old(written) + [GeneratePacket(data, topicId)]
        else
          && lastPacketTransmittedAt == old(lastPacketTransmittedAt)
          && written == old(written)
    {
      if lastPacketTransmittedAt == -1 || testClock - 1 > lastPacketTransmittedAt {
        lastPacketTransmittedAt := stampClock;
        var packet := GeneratePacket(data, topicId);
        written := written + [packet];
      }
    }
  }

  /** The two clock readings of one `send` call. */
  datatype Clock = Clock(testClock: int, stampClock: int)

  /** The clock never goes back and never reads below zero: within a call the stamp is
      read after the test, and each call comes after the previous one. */
  ghost predicate Ordered(calls: seq<Clock>)
  {
    && (forall i :: 0 <= i < |calls| ==> 0 <= calls[i].testClock <= calls[i].stampClock)
    && (forall i :: 0 < i < |calls| ==> calls[i - 1].stampClock <= calls[i].testClock)
  }

  /** The times recorded in `lastPacketTransmittedAt` by the calls that transmitted,
      for a series of `send` calls starting from `lastAt`. Each call is taken as
      `PacketHandler.Send`'s ensures describe it: when `GateOpen` holds the stamp is
      stored (and a packet written), otherwise nothing changes. */
  function Stamps(lastAt: int, calls: seq<Clock>): (s: seq<int>)
    ensures |s| <= |calls|
    decreases |calls|
  {
    if calls == [] then []
    else if GateOpen(lastAt, calls[0].testClock) then [calls[0].stampClock] + Stamps(calls[0].stampClock, calls[1..])
    else Stamps(lastAt, calls[1..])
  }

  /** Consecutive elements are at least 2 apart. */
  ghost predicate Spaced(s: seq<int>)
  {
    forall j :: 0 <= j < |s| - 1 ==> s[j] + 2 <= s[j + 1]
  }

  /** Every element is at least `m`. */
  ghost predicate AllAtLeast(s: seq<int>, m: int)
  {
    forall j :: 0 <= j < |s| ==> m <= s[j]
  }

  /** Putting `x` in front of a spaced sequence whose elements are all at least
      `x + 2` keeps it spaced, with every element at least `x`. */
  lemma ConsSpaced(x: int, t: seq<int>)
    requires Spaced(t) && AllAtLeast(t, x + 2)
    ensures Spaced([x] + t) && AllAtLeast([x] + t, x)
  {
    var s := [x] + t;
    forall j | 0 <= j < |s| - 1
      ensures s[j] + 2 <= s[j + 1]
    {
      assert s[j + 1] == t[j];
      if j > 0 {
        assert s[j] == t[j - 1];
      }
    }
  }

  /** With a clock that never goes back, two transmissions are at least 2 ms apart,
      and the first one is at least 2 ms after an earlier transmission at `lastAt`.
      Every transmission is stamped no earlier than the first call's test. */
  lemma {:induction false} StampsSpaced(lastAt: int, calls: seq<Clock>)
    requires Ordered(calls) && lastAt >= -1
    ensures Spaced(Stamps(lastAt, calls))
    ensures lastAt != -1 ==> AllAtLeast(Stamps(lastAt, calls), lastAt + 2)
    ensures calls != [] ==> AllAtLeast(Stamps(lastAt, calls), calls[0].testClock)
    decreases |calls|
  {
    if calls != [] {
      var c := calls[0];
      var rest := calls[1..];
      assert Ordered(rest);
      assert 0 <= c.testClock <= c.stampClock;
      if GateOpen(lastAt, c.testClock) {
        StampsSpaced(c.stampClock, rest);
        ConsSpaced(c.stampClock, Stamps(c.stampClock, rest));
      } else {
        StampsSpaced(lastAt, rest);
        if rest != [] {
          assert c.testClock <= rest[0].testClock;
        }
      }
    }
  }
}
