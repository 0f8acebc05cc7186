// Log packets keep their time at another place than sensor packets, but the device layer looks
// at the place of the sensor's for both. What that does to delivery.
module XferLogs {
  import opened LittleEndian
  import opened MemqSpec
  import opened XferSpec
  import opened XferTheorems

  const SENSOR: bv8 := 11

  const LOG: bv8 := 23

  // The fields of a log packet behind its header of four bytes.
  function ErrorCode(b: Packet): nat
    requires |b| >= 20
  {
    b[4] as nat
  }

  function HardwareErrorCode(b: Packet): nat
    requires |b| >= 20
  {
    b[5] as nat
  }

  function RestartCount(b: Packet): nat
    requires |b| >= 20
  {
    b[6] as nat + 0x100 * (b[7] as nat)
  }

  function LogTime(b: Packet): nat
    requires |b| >= 20
  {
    b[16] as nat + 0x100 * (b[17] as nat) + 0x1_0000 * (b[18] as nat) + 0x100_0000 * (b[19] as nat)
  }

  // Well-typed, and not from the future by the packet's own time.
  predicate Meant(b: Packet, now: nat)
    requires |b| >= 20
  {
    (b[0] == SENSOR && Word(b) <= now) || (b[0] == LOG && LogTime(b) <= now)
  }

  // What decides about a log packet are its error codes and its restart count.
  lemma LogKeptExactly(b: Packet, now: nat)
    requires |b| >= 20 && b[0] == LOG
    ensures Good(b, now) <==> 65536 * RestartCount(b) + 256 * HardwareErrorCode(b) + ErrorCode(b) <= now
  {
  }

  // The filter is the one meant, for all packets but the logs on which count and time disagree.
  lemma MeantExactly(b: Packet, now: nat)
    requires |b| >= 20
    ensures (Good(b, now) <==> Meant(b, now)) <==>
              (b[0] == LOG ==>
                 (65536 * RestartCount(b) + 256 * HardwareErrorCode(b) + ErrorCode(b) <= now <==> LogTime(b) <= now))
  {
    if b[0] == LOG {
      LogKeptExactly(b, now);
    }
  }

  // Sensor packets, type 11, are kept by their own time, the little-endian number in bytes 4 to 7;
  // packets of a type other than 11 and 23 are never kept.
  lemma TypesKeptExactly(b: Packet, now: nat)
    requires |b| >= 8
    ensures b[0] == 11 ==>
              (Good(b, now) <==> FromBytes([b[4] as int, b[5] as int, b[6] as int, b[7] as int]) <= now)
    ensures b[0] != 11 && b[0] != 23 ==> !Good(b, now)
  {
    FourBytes(0, [b[4] as int, b[5] as int, b[6] as int, b[7] as int]);
  }

  function LogPacket(restarts: bv8, time: bv8): (b: Packet)
    ensures |b| == 32
  {
    seq(32, i => if i == 0 then LOG else if i == 6 || i == 7 then restarts else if i == 19 then time else 0)
  }

  // A log of the past that is dropped: 65535 restarts.
  lemma PastLogDropped()
    ensures var b, now := LogPacket(0xFF, 0x60), 0x6500_0000;
            LogTime(b) <= now && Meant(b, now) && !Good(b, now)
  {
  }

  // A log of the future that is kept: no restart yet.
  lemma FutureLogKept()
    ensures var b, now := LogPacket(0, 0x70), 0x6500_0000;
            LogTime(b) > now && !Meant(b, now) && Good(b, now)
  {
  }

  // ---------------------------------------------------------------- what it means for delivery

  predicate LongTakes(taken: seq<Take>) {
    forall i :: 0 <= i < |taken| ==> |taken[i].pkt| >= 20
  }

  // The packets that are meant to be delivered, in order.
  function MeantOf(taken: seq<Take>): seq<Packet>
    requires LongTakes(taken)
    decreases |taken|
  {
    if taken == [] then []
    else
      var t := taken[|taken| - 1];
      MeantOf(taken[..|taken| - 1]) + if Meant(t.pkt, t.now) then [t.pkt] else []
  }

  predicate Judged(t: Take)
    requires |t.pkt| >= 20
  {
    Good(t.pkt, t.now) <==> Meant(t.pkt, t.now)
  }

  // After each of the packets, what is to be delivered so far is what is meant so far.
  predicate SameAlong(taken: seq<Take>)
    requires LongTakes(taken)
    decreases |taken|
  {
    taken == [] || (SameAlong(taken[..|taken| - 1]) && Wanted(taken) == MeantOf(taken))
  }

  // At every point of a run the packets to deliver are those meant, exactly if no log packet is
  // misjudged.
  lemma {:induction false} WantedIsMeantExactly(taken: seq<Take>)
    requires LongTakes(taken)
    ensures SameAlong(taken) <==> forall i :: 0 <= i < |taken| ==> Judged(taken[i])
    decreases |taken|
  {
    if taken != [] {
      var before := taken[..|taken| - 1];
      WantedIsMeantExactly(before);
      if SameAlong(before) {
        SameNow(before);
        LastJudged(taken);
      }
      assert taken == before + [taken[|taken| - 1]];
    }
  }

  lemma SameNow(taken: seq<Take>)
    requires LongTakes(taken) && SameAlong(taken)
    ensures Wanted(taken) == MeantOf(taken)
  {
  }

  lemma LastJudged(taken: seq<Take>)
    requires LongTakes(taken) && taken != []
    requires Wanted(taken[..|taken| - 1]) == MeantOf(taken[..|taken| - 1])
    ensures Wanted(taken) == MeantOf(taken) <==> Judged(taken[|taken| - 1])
  {
    var t, w := taken[|taken| - 1], Wanted(taken[..|taken| - 1]);
    assert |w + [t.pkt]| != |w + []|;
  }
}
