/** The transmit side of the application: one lcore that, until the exit
    indicator is set, takes a buffer from the packet pool, builds the frame in
    it and offers it to transmit queue 0 of the first port (`send_packet` and
    the loop of `main`). Ghost state records who holds each buffer: the pool,
    the application, or the device once it has accepted the buffer. */
module Transmit {
  import opened Bytes
  import opened Memory
  import opened Frame

  datatype Option<T> = None | Some(value: T)

  /** What one iteration of the transmit loop did. */
  datatype Outcome =
    | Exhausted   // `rte_mempool_get` failed: nothing was built or sent
    | Rejected    // `rte_eth_tx_burst` returned 0: the buffer was freed
    | Sent        // `rte_eth_tx_burst` returned 1: the device took the buffer

  /** The number of iterations whose frame the device accepted. */
  function CountSent(os: seq<Outcome>): nat {
    if os == [] then 0
    else CountSent(os[..|os| - 1]) + (if os[|os| - 1] == Sent then 1 else 0)
  }

  /** No more frames are accepted than iterations run, and exactly as many
      when no iteration was exhausted or rejected. */
  lemma {:induction false} CountSentBound(os: seq<Outcome>)
    ensures CountSent(os) <= |os|
    ensures CountSent(os) == |os| <==> forall i :: 0 <= i < |os| ==> os[i] == Sent
  {
    if os != [] {
      var init := os[..|os| - 1];
      CountSentBound(init);
      if CountSent(os) == |os| {
        forall i | 0 <= i < |os| ensures os[i] == Sent {
          if i < |os| - 1 { assert os[i] == init[i]; }
        }
      }
    }
  }

  /** One more iteration adds one to the count exactly when it sent. */
  lemma CountSentSnoc(os: seq<Outcome>, o: Outcome)
    ensures CountSent(os + [o]) == CountSent(os) + (if o == Sent then 1 else 0)
  {
    assert (os + [o])[..|os|] == os;
  }

  /** `n` copies of the frame image. */
  function Frames(n: nat): (r: seq<seq<byte>>)
    ensures |r| == n
  {
    seq(n, _ => FrameImage)
  }

  /** One more frame on the wire is one more copy. */
  lemma FramesSnoc(w: seq<seq<byte>>, n: nat)
    ensures w + Frames(n) + [FrameImage] == w + Frames(n + 1)
  {
    assert Frames(n) + [FrameImage] == Frames(n + 1);
  }

  /** The exit indicator as the loop head reads it: `signalAt` is the number of
      loop-head reads that happen before the signal handler has set it. */
  predicate ExitIndicator(signalAt: nat, headReads: nat) {
    headReads >= signalAt
  }

  /** Adding to a value already reduced modulo 2^64 is adding to the value. */
  lemma ModSucc(a: nat, b: nat, c: nat, d: nat)
    requires b == a % U64 && d == a + c
    ensures d % U64 == (b + c) % U64
  {
    var q := a / U64;
    assert a == q * U64 + b;
    assert d == q * U64 + (b + c);
  }

  /** The buffers a sequence names. */
  function Elems<T(==)>(s: seq<T>): set<T> {
    set x | x in s
  }

  /** No buffer is named twice. */
  predicate Distinct<T(==)>(s: seq<T>) {
    s == [] || (Distinct(s[..|s| - 1]) && s[|s| - 1] !in s[..|s| - 1])
  }

  /** Naming one more buffer adds it to the set named. */
  lemma ElemsSnoc<T>(s: seq<T>, x: T)
    ensures Elems(s + [x]) == Elems(s) + {x}
    ensures Distinct(s) && x !in s ==> Distinct(s + [x])
  {
    assert (s + [x])[..|s|] == s;
  }

  /** What was taken from a set is the set less what remains. */
  lemma DiffDiff<T>(a: set<T>, e: set<T>)
    requires e <= a
    ensures a - (a - e) == e
  {
  }

  /** What remains of `a` after taking the distinct elements of `s` has
      `|s|` fewer elements. */
  lemma Remaining<T>(a: set<T>, r: set<T>, s: seq<T>)
    requires Distinct(s) && Elems(s) <= a && r == a - Elems(s)
    ensures |r| == |a| - |s|
  {
    DistinctCard(a, s);
  }

  /** Taking the distinct elements of `s` out of a set that holds them all
      leaves `|s|` fewer. */
  lemma {:induction false} DistinctCard<T>(a: set<T>, s: seq<T>)
    requires Distinct(s) && Elems(s) <= a
    ensures |a - Elems(s)| == |a| - |s|
  {
    if s != [] {
      var init, x := s[..|s| - 1], s[|s| - 1];
      assert s == init + [x];
      ElemsSnoc(init, x);
      DistinctCard(a, init);
      assert a - Elems(s) == (a - Elems(init)) - {x};
    }
  }

  /** The buffer carries the frame as it was handed to the device: both its
      length fields and the bytes the device reads. */
  ghost predicate HoldsFrame(b: Mbuf)
    reads b, b.data
  {
    && FrameLen <= b.data.Length && b.dataLen == FrameLen && b.pktLen == FrameLen
    && b.data[..FrameLen] == FrameImage
  }

  class Transmitter {
    /** Every buffer of the mempool. */
    const buffers: set<Mbuf>
    /** Their data regions. */
    const regions: set<array<byte>>
    /** The free buffers of the mempool. */
    var pool: set<Mbuf>
    /** `transmitted_packet_count`, a `uint64_t`. */
    var transmittedPacketCount: u64
    /** Who holds each buffer that is not free: the application, between
        `rte_mempool_get` and the hand-off, or the device, once
        `rte_eth_tx_burst` has accepted it. */
    ghost var app: set<Mbuf>
    ghost var device: set<Mbuf>
    /** The frames the device has accepted, in order. */
    ghost var wire: seq<seq<byte>>

    /** Each buffer has exactly one holder, and the counter is the number of
        accepted frames modulo 2^64. */
    ghost predicate Valid()
      reads this
    {
      OwnershipValid() && transmittedPacketCount == |wire| % U64
    }

    ghost predicate OwnershipValid()
      reads this
    {
      && pool + app + device == buffers
      && pool !! app && pool !! device && app !! device
    }

    /** Every buffer can hold a frame and has a data region of its own. Both
        facts are about constant fields, so no operation can change them. */
    ghost predicate BuffersFit() {
      && (forall b :: b in buffers ==> b.data in regions && FrameLen <= b.data.Length)
      && (forall b, c :: b in buffers && c in buffers && b.data == c.data ==> b == c)
    }

    /** The mempool with all of `bufs` free and the counter at 0. */
    constructor (bufs: set<Mbuf>)
      requires forall b :: b in bufs ==> FrameLen <= b.data.Length
      requires forall b, c :: b in bufs && c in bufs && b.data == c.data ==> b == c
      ensures Valid() && BuffersFit()
      ensures buffers == bufs && pool == bufs && app == {} && device == {}
      ensures regions == set b | b in bufs :: b.data
      ensures transmittedPacketCount == 0 && wire == []
    {
      buffers, pool := bufs, bufs;
      regions := set b | b in bufs :: b.data;
      transmittedPacketCount := 0;
      app, device := {}, {};
      wire := [];
    }

    /** `rte_mempool_get`: fails, changing nothing, exactly when the pool is
        empty; otherwise hands one free buffer to the application. */
    method Acquire() returns (p: Option<Mbuf>)
      requires Valid()
      modifies this
      ensures Valid()
      ensures p.None? <==> old(pool) == {}
      ensures p.None? ==> pool == old(pool) && app == old(app)
      ensures p.Some? ==> p.value in old(pool) && pool == old(pool) - {p.value}
                          && app == old(app) + {p.value}
      ensures device == old(device) && wire == old(wire)
      ensures transmittedPacketCount == old(transmittedPacketCount)
    {
      if pool == {} {
        return None;
      }
      var m :| m in pool;
      pool := pool - {m};
      app := app + {m};
      p := Some(m);
    }

    /** `rte_pktmbuf_free`: the application gives its buffer back to the pool. */
    method Free(m: Mbuf)
      requires Valid() && m in app
      modifies this
      ensures Valid()
      ensures m !in old(pool) && pool == old(pool) + {m}
      ensures app == old(app) - {m} && device == old(device) && wire == old(wire)
      ensures transmittedPacketCount == old(transmittedPacketCount)
    {
      pool := pool + {m};
      app := app - {m};
    }

    /** `rte_eth_tx_burst` with a burst of one: the device accepts the buffer
        or not, at its own discretion. An accepted buffer belongs to the device
        and its first `dataLen` bytes go on the wire; the caller still has to
        count it. */
    method TxBurst(m: Mbuf) returns (n: nat)
      requires Valid() && m in app && m.dataLen <= m.data.Length
      modifies this
      ensures OwnershipValid() && n <= 1
      ensures n == 0 ==> app == old(app) && device == old(device) && wire == old(wire)
      ensures n == 1 ==> app == old(app) - {m} && device == old(device) + {m}
                         && wire == old(wire) + [m.data[..m.dataLen]]
      ensures pool == old(pool) && transmittedPacketCount == old(transmittedPacketCount)
    {
      n :| n <= 1;
      if n == 1 {
        app := app - {m};
        device := device + {m};
        wire := wire + [m.data[..m.dataLen]];
      }
    }

    /** `send_packet`: offer the buffer to the device. If it is refused the
        application frees it, so it returns to the pool exactly once and the
        counter stays; if it is accepted the counter rises by one (modulo
        2^64) and the buffer is the device's. Either way the application no
        longer holds it. */
    method SendPacket(m: Mbuf) returns (accepted: nat)
      requires Valid() && m in app && m.dataLen <= m.data.Length
      modifies this
      ensures Valid()
      ensures accepted <= 1 && app == old(app) - {m}
      ensures accepted == 0 ==>
        && m !in old(pool) && pool == old(pool) + {m} && device == old(device)
        && transmittedPacketCount == old(transmittedPacketCount) && wire == old(wire)
      ensures accepted == 1 ==>
        && pool == old(pool) && device == old(device) + {m}
        && transmittedPacketCount == (old(transmittedPacketCount) + 1) % U64
        && wire == old(wire) + [m.data[..m.dataLen]]
    {
      accepted := TxBurst(m);
      if accepted == 0 {
        Free(m);
      } else {
        ModSucc(|old(wire)|, transmittedPacketCount, 1, |old(wire)| + 1);
        transmittedPacketCount := (transmittedPacketCount + accepted) % U64;
      }
    }

    /** The part of an iteration after a successful acquisition: build the
        frame in the buffer the application holds and send it. Only that
        buffer's data region is written. */
    method BuildAndSend(m: Mbuf) returns (o: Outcome)
      requires Valid() && BuffersFit() && m in app
      modifies this, m, m.data
      ensures Valid() && o != Exhausted && app == old(app) - {m}
      ensures HoldsFrame(m)
      ensures forall b :: b in buffers && b != m ==> unchanged(b) && unchanged(b.data)
      ensures o == Rejected ==> pool == old(pool) + {m} && device == old(device)
                                && wire == old(wire)
                                && transmittedPacketCount == old(transmittedPacketCount)
      ensures o == Sent ==> pool == old(pool) && device == old(device) + {m}
                            && wire == old(wire) + [FrameImage]
                            && transmittedPacketCount == (old(transmittedPacketCount) + 1) % U64
    {
      BuildFrame(m);
      var accepted := SendPacket(m);
      o := if accepted == 0 then Rejected else Sent;
    }

    /** One iteration of the transmit loop: acquire a buffer, and when there
        is one, build the frame in it and send it. The application ends up
        holding nothing; a sent buffer, named by `taken`, moves from the pool
        to the device and its frame goes on the wire; no buffer the device
        held is written, neither its data nor its lengths. */
    method Step() returns (o: Outcome, ghost taken: Option<Mbuf>)
      requires Valid() && BuffersFit() && app == {}
      modifies this, buffers, regions
      ensures Valid() && app == {}
      ensures o == Exhausted <==> old(pool) == {}
      ensures o == Sent <==> taken.Some?
      ensures taken.None? ==> pool == old(pool) && device == old(device)
      ensures taken.Some? ==> taken.value in old(pool) && pool == old(pool) - {taken.value}
                              && device == old(device) + {taken.value}
                              && HoldsFrame(taken.value)
      ensures forall b :: b in old(device) ==> unchanged(b) && unchanged(b.data)
      ensures wire == old(wire) + (if o == Sent then [FrameImage] else [])
    {
      var p := Acquire();
      if p.None? {
        return Exhausted, None;
      }
      var m := p.value;
      assert m !in old(device);
      o := BuildAndSend(m);
      if o == Sent {
        taken := Some(m);
      } else {
        taken := None;
        assert pool == old(pool);
      }
    }

    /** What the transmit loop has done since the state `p0`, `d0`, `w0`,
        `c0`: the buffers `sent` it handed to the device, one per sent
        outcome, left the pool and joined the device, the wire gained one
        frame image for each of them and the counter rose by their number. */
    ghost predicate Progress(p0: set<Mbuf>, d0: set<Mbuf>, w0: seq<seq<byte>>, c0: nat,
                             sent: seq<Mbuf>, outcomes: seq<Outcome>)
      reads this
    {
      && Distinct(sent) && Elems(sent) <= p0 && |sent| == CountSent(outcomes)
      && pool == p0 - Elems(sent) && device == d0 + Elems(sent)
      && wire == w0 + Frames(CountSent(outcomes))
      && c0 == |w0| % U64
      && transmittedPacketCount == (c0 + CountSent(outcomes)) % U64
    }

    /** One iteration keeps `Progress`, recording the buffer it sent. */
    method Advance(ghost p0: set<Mbuf>, ghost d0: set<Mbuf>, ghost w0: seq<seq<byte>>,
                   ghost c0: nat, ghost sent: seq<Mbuf>, ghost outcomes: seq<Outcome>)
      returns (o: Outcome, ghost sent': seq<Mbuf>)
      requires Valid() && BuffersFit() && app == {}
      requires Progress(p0, d0, w0, c0, sent, outcomes)
      requires forall b :: b in Elems(sent) ==> HoldsFrame(b)
      modifies this, buffers, regions
      ensures Valid() && app == {}
      ensures Progress(p0, d0, w0, c0, sent', outcomes + [o])
      ensures forall b :: b in Elems(sent') ==> HoldsFrame(b)
      ensures forall b :: b in d0 ==> unchanged(b) && unchanged(b.data)
    {
      var o0; ghost var taken;
      o0, taken := Step();
      o := o0;
      CountSentSnoc(outcomes, o);
      if taken.Some? {
        FramesSnoc(w0, CountSent(outcomes));
        ElemsSnoc(sent, taken.value);
        sent' := sent + [taken.value];
      } else {
        sent' := sent;
      }
      ModSucc(|w0|, c0, CountSent(outcomes + [o]), |wire|);
    }

    /** The `while (!exit_indicator)` loop itself: it runs one iteration per
        loop-head test that finds the indicator clear, `signalAt` of them,
        and keeps `Progress` from the state it starts in. */
    method Loop(signalAt: nat) returns (outcomes: seq<Outcome>, ghost sent: seq<Mbuf>)
      requires Valid() && BuffersFit() && app == {}
      modifies this, buffers, regions
      ensures Valid() && app == {} && |outcomes| == signalAt
      ensures Progress(old(pool), old(device), old(wire), old(transmittedPacketCount), sent, outcomes)
      ensures forall b :: b in Elems(sent) ==> HoldsFrame(b)
      ensures forall b :: b in old(device) ==> unchanged(b) && unchanged(b.data)
    {
      outcomes, sent := [], [];
      var headReads := 0;
      while !ExitIndicator(signalAt, headReads)
        invariant Valid() && app == {}
        invariant headReads <= signalAt && |outcomes| == headReads
        invariant Progress(old(pool), old(device), old(wire), old(transmittedPacketCount), sent, outcomes)
        invariant forall b :: b in Elems(sent) ==> HoldsFrame(b)
        invariant forall b :: b in old(device) ==> unchanged(b) && unchanged(b.data)
        decreases signalAt - headReads
      {
        headReads := headReads + 1;
        var o;
        o, sent := Advance(old(pool), old(device), old(wire), old(transmittedPacketCount), sent, outcomes);
        outcomes := outcomes + [o];
      }
    }

    /** The transmit loop of `main`, `signalAt` being the number of loop-head
        tests that find the exit indicator clear. When it ends the
        application holds no buffer, the pool has lost exactly the accepted
        buffers, one per sent iteration, which are now the device's, the wire
        carries one frame image per accepted buffer, the counter has risen by
        their number modulo 2^64, and the buffers the device held before are
        untouched, their lengths and their data alike. */
    method Run(signalAt: nat) returns (outcomes: seq<Outcome>)
      requires Valid() && BuffersFit() && app == {}
      modifies this, buffers, regions
      ensures Valid() && app == {}
      ensures |outcomes| == signalAt
      ensures pool <= old(pool) && |pool| == |old(pool)| - CountSent(outcomes)
      ensures device == old(device) + (old(pool) - pool)
      ensures forall b :: b in device - old(device) ==> HoldsFrame(b)
      ensures forall b :: b in old(device) ==> unchanged(b) && unchanged(b.data)
      ensures wire == old(wire) + Frames(CountSent(outcomes))
      ensures transmittedPacketCount == (old(transmittedPacketCount) + CountSent(outcomes)) % U64
    {
      ghost var sent;
      outcomes, sent := Loop(signalAt);
      // The counter, first over named intermediate values, then as stated.
      ghost var c0, n := old(transmittedPacketCount), CountSent(outcomes);
      assert transmittedPacketCount == (c0 + n) % U64;
      assert transmittedPacketCount == (old(transmittedPacketCount) + CountSent(outcomes)) % U64;
      DiffDiff(old(pool), Elems(sent));
      Remaining(old(pool), pool, sent);
    }
  }

  /** The number of buffers `main` asks `rte_pktmbuf_pool_create` for. */
  const MempoolSize: nat := 1023
  /** The data room of an mbuf of `RTE_MBUF_DEFAULT_BUF_SIZE`, after the
      128-byte headroom: 2048 bytes. */
  const DataRoomSize: nat := 2048

  /** `rte_pktmbuf_pool_create`: `n` new mbufs, each with a data region of
      its own of `DataRoomSize` bytes, all free. */
  method PoolCreate(n: nat) returns (t: Transmitter)
    ensures fresh(t) && t.Valid() && t.BuffersFit()
    ensures |t.buffers| == n && t.pool == t.buffers && t.app == {} && t.device == {}
    ensures forall b :: b in t.buffers ==>
        fresh(b) && fresh(b.data) && b.data.Length == DataRoomSize
    ensures forall r :: r in t.regions ==> fresh(r)
    ensures t.transmittedPacketCount == 0 && t.wire == []
  {
    var bufs: set<Mbuf> := {};
    var i := 0;
    while i < n
      invariant i <= n && |bufs| == i
      invariant forall b :: b in bufs ==>
        fresh(b) && fresh(b.data) && b.data.Length == DataRoomSize
      invariant forall b, c :: b in bufs && c in bufs && b.data == c.data ==> b == c
    {
      var m := new Mbuf(DataRoomSize);
      assert m !in bufs;
      bufs := bufs + {m};
      i := i + 1;
    }
    t := new Transmitter(bufs);
  }

  /** The transmit part of `main`: create the pool of `MempoolSize` buffers,
      start the counter at 0 and run the loop. Every buffer is free or the
      device's at the end, one per accepted frame, and the counter is the
      number of accepted frames. */
  method App(signalAt: nat) returns (t: Transmitter, outcomes: seq<Outcome>)
    ensures t.Valid() && t.app == {} && |outcomes| == signalAt
    ensures |t.buffers| == MempoolSize && t.pool + t.device == t.buffers
    ensures |t.pool| == MempoolSize - CountSent(outcomes)
    ensures forall b :: b in t.device ==> HoldsFrame(b)
    ensures t.wire == Frames(CountSent(outcomes))
    ensures t.transmittedPacketCount == CountSent(outcomes) % U64
  {
    t := PoolCreate(MempoolSize);
    outcomes := t.Run(signalAt);
  }
}
