/**
 * The TashTalk receive state machine: LocalTalk frames arrive from the TashTalk UART one byte
 * at a time, with 0x00 as an escape introducer. 0x00 0xFF is a literal zero, 0x00 0xFD ends a
 * frame, 0x00 0xFE reports a framing error and 0x00 0xFA an abort. A complete frame loses its
 * two CRC bytes and goes to the LAP's queue, unless it is too short or an RTS or CTS.
 */
module TashTalk {
  import opened Bytes

  /** `ETHERNET_FRAME_LEN`: the capacity of each frame buffer. */
  const Capacity: nat := 1522
  /** `LLAP_TYPE_RTS` and `LLAP_TYPE_CTS`. */
  const LlapRts: byte := 0x84
  const LlapCts: byte := 0x85

  const EscapeByte: byte := 0x00
  const LiteralZero: byte := 0xFF
  const FrameDone: byte := 0xFD
  const FramingError: byte := 0xFE
  const FrameAbort: byte := 0xFA

  /** The statistics counters the state machine bumps. */
  datatype Stats = Stats(framesIn: nat, tooLong: nat, badCrc: nat, framingErrors: nat, aborts: nat,
                         tooShort: nat, controlNotForwarded: nat, queueFull: nat)

  const NoStats := Stats(0, 0, 0, 0, 0, 0, 0, 0)

  /**
   * The machine's state. `packet` is the frame buffer in progress, absent when none is allocated;
   * `crcInput` is every byte fed to the CRC since it was last initialised; `queue` is the output
   * queue to the LAP.
   */
  datatype RxState = RxState(send: bool, packet: Option<seq<byte>>, crcInput: seq<byte>, inEscape: bool,
                             queue: seq<seq<byte>>, stats: Stats)

  /** `append`: a byte goes into the frame while there is room, and is counted as an overflow otherwise. */
  function AppendByte(s: RxState, b: byte): RxState
    requires s.packet.Some?
  {
    if |s.packet.value| < Capacity then s.(packet := Some(s.packet.value + [b]))
    else s.(stats := s.stats.(tooLong := s.stats.tooLong + 1))
  }

  /** `do_something_sensible_with_packet` followed by dropping the buffer pointer. */
  function Deliver(s: RxState, queueCapacity: nat): RxState
    requires s.packet.Some?
  {
    var st := s.stats.(framesIn := s.stats.framesIn + 1);
    var p := s.packet.value;
    if !s.send then s.(stats := st, packet := None)
    else if |p| <= 2 then s.(stats := st.(tooShort := st.tooShort + 1), packet := None)
    else
      var f := p[..|p| - 2];
      if |f| == 3 && (f[2] == LlapRts || f[2] == LlapCts) then
        s.(stats := st.(controlNotForwarded := st.controlNotForwarded + 1), packet := None)
      else if |s.queue| < queueCapacity then s.(stats := st, queue := s.queue + [f], packet := None)
      else s.(stats := st.(queueFull := st.queueFull + 1), packet := None)
  }

  /** A frame buffer is allocated, and the CRC initialised, before each byte when none is in progress. */
  function WithBuffer(s: RxState): RxState {
    if s.packet.None? then s.(packet := Some([]), crcInput := []) else s
  }

  /** `tashtalk_feed`. */
  function Step(s: RxState, b: byte, crcOk: seq<byte> -> bool, queueCapacity: nat): RxState {
    var s1 := WithBuffer(s);
    if s1.inEscape then
      var s2 :=
        if b == LiteralZero then AppendByte(s1, 0).(crcInput := s1.crcInput + [0])
        else if b == FrameDone then
          Deliver(if crcOk(s1.crcInput) then s1 else s1.(stats := s1.stats.(badCrc := s1.stats.badCrc + 1)), queueCapacity)
        else if b == FramingError then s1.(stats := s1.stats.(framingErrors := s1.stats.framingErrors + 1), packet := None)
        else if b == FrameAbort then s1.(stats := s1.stats.(aborts := s1.stats.aborts + 1), packet := None)
        else s1;
      s2.(inEscape := false)
    else if b == EscapeByte then s1.(inEscape := true)
    else AppendByte(s1, b).(crcInput := s1.crcInput + [b])
  }

  /** `tashtalk_feed_all`: the bytes fed one at a time, in order. */
  function StepAll(s: RxState, bs: seq<byte>, crcOk: seq<byte> -> bool, queueCapacity: nat): RxState
    decreases |bs|
  {
    if |bs| == 0 then s else Step(StepAll(s, bs[..|bs| - 1], crcOk, queueCapacity), bs[|bs| - 1], crcOk, queueCapacity)
  }

  class TashTalkRx {
    /** `crc_state_ok` applied to the bytes fed to the CRC; the CRC code is not part of this model. */
    const crcOk: seq<byte> -> bool
    /** The size of the output queue, which is created elsewhere. */
    const queueCapacity: nat
    var sendOutputToQueue: bool
    var packetInProgress: Option<seq<byte>>
    var crcInput: seq<byte>
    var inEscape: bool
    var outputQueue: seq<seq<byte>>
    var stats: Stats

    function State(): RxState
      reads this
    {
      RxState(sendOutputToQueue, packetInProgress, crcInput, inEscape, outputQueue, stats)
    }

    /** `new_tashtalk_rx_state`: zero-filled, so not yet sending to the queue. */
    constructor (crcOk: seq<byte> -> bool, queueCapacity: nat)
      ensures this.crcOk == crcOk && this.queueCapacity == queueCapacity
      ensures State() == RxState(false, None, [], false, [], NoStats)
    {
      this.crcOk := crcOk;
      this.queueCapacity := queueCapacity;
      sendOutputToQueue, packetInProgress, crcInput, inEscape, outputQueue, stats := false, None, [], false, [], NoStats;
    }

    /** `append`. */
    method Append(b: byte)
      requires packetInProgress.Some?
      modifies this
      ensures State() == AppendByte(old(State()), b)
    {
      if |packetInProgress.value| < Capacity {
        packetInProgress := Some(packetInProgress.value + [b]);
      } else {
        stats := stats.(tooLong := stats.tooLong + 1);
      }
    }

    /** `do_something_sensible_with_packet`. */
    method HandlePacket()
      requires packetInProgress.Some?
      modifies this
      ensures State() == Deliver(old(State()), queueCapacity)
    {
      stats := stats.(framesIn := stats.framesIn + 1);
      if sendOutputToQueue {
        var p := packetInProgress.value;
        if |p| > 2 {
          p := p[..|p| - 2];
        } else {
          stats := stats.(tooShort := stats.tooShort + 1);
          packetInProgress := None;
          return;
        }
        if |p| == 3 && (p[2] == LlapRts || p[2] == LlapCts) {
          stats := stats.(controlNotForwarded := stats.controlNotForwarded + 1);
          packetInProgress := None;
          return;
        }
        if |outputQueue| < queueCapacity {
          outputQueue := outputQueue + [p];
        } else {
          stats := stats.(queueFull := stats.queueFull + 1);
        }
      }
      packetInProgress := None;
    }

    /** `tashtalk_feed`. */
    method Feed(b: byte)
      modifies this
      ensures State() == Step(old(State()), b, crcOk, queueCapacity)
    {
      if packetInProgress.None? {
        packetInProgress := Some([]);
        crcInput := [];
      }
      if inEscape {
        if b == LiteralZero {
          Append(0);
          crcInput := crcInput + [0];
        } else if b == FrameDone {
          if !crcOk(crcInput) {
            stats := stats.(badCrc := stats.badCrc + 1);
          }
          HandlePacket();
          packetInProgress := None;
        } else if b == FramingError {
          stats := stats.(framingErrors := stats.framingErrors + 1);
          packetInProgress := None;
        } else if b == FrameAbort {
          stats := stats.(aborts := stats.aborts + 1);
          packetInProgress := None;
        }
        inEscape := false;
      } else if b == EscapeByte {
        inEscape := true;
      } else {
        Append(b);
        crcInput := crcInput + [b];
      }
    }

    /** `tashtalk_feed_all`. */
    method FeedAll(buf: seq<byte>)
      modifies this
      ensures State() == StepAll(old(State()), buf, crcOk, queueCapacity)
    {
      for i := 0 to |buf|
        invariant State() == StepAll(old(State()), buf[..i], crcOk, queueCapacity)
      {
        assert buf[..i + 1][..i] == buf[..i];
        Feed(buf[i]);
      }
      assert buf[..|buf|] == buf;
    }
  }

  // ---------------------------------------------------------------------------
  // One byte at a time

  /** A frame in progress never outgrows its buffer. */
  predicate Fits(s: RxState) {
    s.packet.None? || |s.packet.value| <= Capacity
  }

  lemma StepFits(s: RxState, b: byte, crcOk: seq<byte> -> bool, queueCapacity: nat)
    requires Fits(s)
    ensures Fits(Step(s, b, crcOk, queueCapacity))
  {
  }

  /** Outside an escape, a non-zero byte joins the frame, if there is room, and the CRC. */
  lemma PlainByte(s: RxState, b: byte, crcOk: seq<byte> -> bool, queueCapacity: nat)
    requires !s.inEscape && b != EscapeByte
    ensures var t := Step(s, b, crcOk, queueCapacity);
      var p := WithBuffer(s).packet.value;
      !t.inEscape && t.crcInput == WithBuffer(s).crcInput + [b] && t.queue == s.queue &&
      t.packet == Some(if |p| < Capacity then p + [b] else p) &&
      t.stats.tooLong == s.stats.tooLong + (if |p| < Capacity then 0 else 1)
  {
  }

  /** A zero byte only opens an escape. */
  lemma ZeroOpensEscape(s: RxState, crcOk: seq<byte> -> bool, queueCapacity: nat)
    requires !s.inEscape
    ensures Step(s, EscapeByte, crcOk, queueCapacity) == WithBuffer(s).(inEscape := true)
  {
  }

  /** 0x00 0xFF puts a literal zero into the frame and the CRC. */
  lemma EscapedZero(s: RxState, crcOk: seq<byte> -> bool, queueCapacity: nat)
    requires !s.inEscape && Fits(s) && (s.packet.None? || |s.packet.value| < Capacity)
    ensures var t := Step(Step(s, EscapeByte, crcOk, queueCapacity), LiteralZero, crcOk, queueCapacity);
      !t.inEscape && t.packet == Some(WithBuffer(s).packet.value + [0]) &&
      t.crcInput == WithBuffer(s).crcInput + [0] && t.queue == s.queue && t.stats == s.stats
  {
  }

  /** After any byte that follows the escape, the machine is out of the escape. */
  lemma EscapeEndsAfterOneByte(s: RxState, b: byte, crcOk: seq<byte> -> bool, queueCapacity: nat)
    requires s.inEscape
    ensures !Step(s, b, crcOk, queueCapacity).inEscape
  {
  }

  /** An unknown escape code is dropped: nothing changes but the escape state. */
  lemma UnknownEscapeDropped(s: RxState, b: byte, crcOk: seq<byte> -> bool, queueCapacity: nat)
    requires s.inEscape && b != LiteralZero && b != FrameDone && b != FramingError && b != FrameAbort
    ensures Step(s, b, crcOk, queueCapacity) == WithBuffer(s).(inEscape := false)
  {
  }

  /** A framing error or an abort discards the frame in progress and forwards nothing. */
  lemma ErrorDiscards(s: RxState, b: byte, crcOk: seq<byte> -> bool, queueCapacity: nat)
    requires s.inEscape && (b == FramingError || b == FrameAbort)
    ensures var t := Step(s, b, crcOk, queueCapacity);
      t.packet.None? && t.queue == s.queue && !t.inEscape &&
      t.stats.framingErrors + t.stats.aborts == s.stats.framingErrors + s.stats.aborts + 1
  {
  }

  /** The end of a frame delivers it whether or not the CRC is good; a bad CRC is only counted. */
  lemma CrcOnlyCounted(s: RxState, crcOk: seq<byte> -> bool, queueCapacity: nat)
    requires s.inEscape
    ensures var t := Step(s, FrameDone, crcOk, queueCapacity);
      var u := Step(s, FrameDone, _ => true, queueCapacity);
      t.queue == u.queue && t.packet == u.packet && t.packet.None? &&
      t.stats == u.stats.(badCrc := s.stats.badCrc + (if crcOk(WithBuffer(s).crcInput) then 0 else 1))
  {
  }

  /**
   * A complete frame is forwarded, without its two CRC bytes, exactly when the machine is sending,
   * the frame is longer than two bytes, it is not a three-byte RTS or CTS and the queue has room.
   */
  lemma DeliverForwards(s: RxState, queueCapacity: nat)
    requires s.packet.Some?
    ensures var p := s.packet.value;
      var forwards := s.send && |p| > 2 && !(|p| == 5 && (p[2] == LlapRts || p[2] == LlapCts)) && |s.queue| < queueCapacity;
      Deliver(s, queueCapacity).queue == if forwards then s.queue + [p[..|p| - 2]] else s.queue
    ensures Deliver(s, queueCapacity).packet.None?
  {
  }

  // ---------------------------------------------------------------------------
  // Whole frames

  lemma {:induction false} StepAllAppend(s: RxState, a: seq<byte>, b: seq<byte>, crcOk: seq<byte> -> bool, queueCapacity: nat)
    ensures StepAll(s, a + b, crcOk, queueCapacity) == StepAll(StepAll(s, a, crcOk, queueCapacity), b, crcOk, queueCapacity)
    decreases |b|
  {
    if |b| == 0 {
      assert a + b == a;
    } else {
      assert (a + b)[..|a + b| - 1] == a + b[..|b| - 1];
      StepAllAppend(s, a, b[..|b| - 1], crcOk, queueCapacity);
    }
  }

  /** How TashTalk sends a frame: each zero byte escaped as 0x00 0xFF. */
  function Escape(f: seq<byte>): seq<byte>
    decreases |f|
  {
    if |f| == 0 then [] else Escape(f[..|f| - 1]) + (if f[|f| - 1] == 0 then [EscapeByte, LiteralZero] else [f[|f| - 1]])
  }

  predicate Idle(s: RxState) {
    s.packet.None? && !s.inEscape
  }

  lemma StepAllOne(s: RxState, x: byte, crcOk: seq<byte> -> bool, queueCapacity: nat)
    ensures StepAll(s, [x], crcOk, queueCapacity) == Step(s, x, crcOk, queueCapacity)
  {
    assert [x][..0] == [];
  }

  lemma StepAllTwo(s: RxState, x: byte, y: byte, crcOk: seq<byte> -> bool, queueCapacity: nat)
    ensures StepAll(s, [x, y], crcOk, queueCapacity) == Step(Step(s, x, crcOk, queueCapacity), y, crcOk, queueCapacity)
  {
    assert [x, y][..1] == [x];
    StepAllOne(s, x, crcOk, queueCapacity);
  }

  /** An idle machine with `p` received so far: idle itself when nothing has been received. */
  function Pending(s: RxState, p: seq<byte>): RxState {
    if |p| == 0 then s else s.(packet := Some(p), crcInput := p)
  }

  lemma PendingPlain(s: RxState, p: seq<byte>, b: byte, crcOk: seq<byte> -> bool, queueCapacity: nat)
    requires Idle(s) && |p| < Capacity && b != 0
    ensures Step(Pending(s, p), b, crcOk, queueCapacity) == Pending(s, p + [b])
  {
  }

  lemma PendingZero(s: RxState, p: seq<byte>, crcOk: seq<byte> -> bool, queueCapacity: nat)
    requires Idle(s) && |p| < Capacity
    ensures Step(Step(Pending(s, p), EscapeByte, crcOk, queueCapacity), LiteralZero, crcOk, queueCapacity) == Pending(s, p + [0])
  {
  }

  /** Feeding an escaped frame to an idle machine leaves exactly that frame, and its CRC input, in progress. */
  lemma {:induction false} FeedEscaped(s: RxState, f: seq<byte>, crcOk: seq<byte> -> bool, queueCapacity: nat)
    requires Idle(s) && |f| <= Capacity
    ensures StepAll(s, Escape(f), crcOk, queueCapacity) == Pending(s, f)
    decreases |f|
  {
    if |f| > 0 {
      var init, b := f[..|f| - 1], f[|f| - 1];
      FeedEscaped(s, init, crcOk, queueCapacity);
      assert init + [b] == f;
      if b == 0 {
        StepAllAppend(s, Escape(init), [EscapeByte, LiteralZero], crcOk, queueCapacity);
        StepAllTwo(Pending(s, init), EscapeByte, LiteralZero, crcOk, queueCapacity);
        PendingZero(s, init, crcOk, queueCapacity);
      } else {
        StepAllAppend(s, Escape(init), [b], crcOk, queueCapacity);
        StepAllOne(Pending(s, init), b, crcOk, queueCapacity);
        PendingPlain(s, init, b, crcOk, queueCapacity);
      }
    } else {
      assert Escape(f) == [];
    }
  }

  /** The end marker delivers the frame in progress and leaves the machine idle. */
  lemma FrameDoneDelivers(s: RxState, crcOk: seq<byte> -> bool, queueCapacity: nat)
    requires s.inEscape && s.packet.Some?
    ensures var t := Step(s, FrameDone, crcOk, queueCapacity);
      Idle(t) && t.queue == Deliver(s, queueCapacity).queue
  {
    var s1 := if crcOk(s.crcInput) then s else s.(stats := s.stats.(badCrc := s.stats.badCrc + 1));
    assert Step(s, FrameDone, crcOk, queueCapacity) == Deliver(s1, queueCapacity).(inEscape := false);
  }

  /**
   * The framing round trip: an idle, sending machine fed an escaped frame and its end marker
   * forwards the frame without its CRC bytes and is idle again, whatever the CRC says.
   */
  lemma FrameRoundTrip(s: RxState, f: seq<byte>, crcOk: seq<byte> -> bool, queueCapacity: nat)
    requires Idle(s) && s.send && 2 < |f| <= Capacity && |s.queue| < queueCapacity
    requires !(|f| == 5 && (f[2] == LlapRts || f[2] == LlapCts))
    ensures var t := StepAll(s, Escape(f) + [EscapeByte, FrameDone], crcOk, queueCapacity);
      Idle(t) && t.queue == s.queue + [f[..|f| - 2]]
  {
    FeedEscaped(s, f, crcOk, queueCapacity);
    StepAllAppend(s, Escape(f), [EscapeByte, FrameDone], crcOk, queueCapacity);
    StepAllTwo(Pending(s, f), EscapeByte, FrameDone, crcOk, queueCapacity);
    var m1 := Step(Pending(s, f), EscapeByte, crcOk, queueCapacity);
    assert m1 == s.(packet := Some(f), crcInput := f, inEscape := true);
    FrameDoneDelivers(m1, crcOk, queueCapacity);
    DeliverForwards(m1, queueCapacity);
  }
}
