/**
 * The SLIP-over-UART transport backend.
 *
 * A command goes out as one SLIP frame holding
 *
 *     payload | sequence tag (4 bytes) | CRC-16/XMODEM of payload and tag, little-endian
 *
 * and the backend then reads bytes until a frame comes back that is long enough, carries a
 * correct CRC and echoes the tag; any other complete frame is ignored, and a decode error,
 * a full buffer or a failed read ends the exchange.
 *
 * The UART is abstract: `uart_write` is a function from call number to return value, and
 * `uart_read` a finite sequence of events (a failure, nothing, or one byte). The random
 * tag is a parameter.
 */
module UartSlip {
  import opened Wrappers
  import opened Transport
  import Slip
  import Crc16

  const SEQNUM_LEN: nat := 4
  const CRC_LEN: nat := 2
  /** Bytes a frame adds to a payload: the tag and the CRC. */
  const OVERHEAD: nat := SEQNUM_LEN + CRC_LEN
  const DEFAULT_BAUDRATE: int := 115200
  /** Size of the device name field; at most one byte less is copied. */
  const DEVICE_NAME_LEN: nat := 256

  /** The operation set this backend registers. */
  const Ops: Transport.Ops :=
    Transport.Ops(Some("uart_slip"), "Tunnel commands over a UART interface using SLIP framing",
                  false, false, {ParseCap, InitCap, DeinitCap, WriteAlloc, ReadAlloc, Send})

  // ---------------------------------------------------------------------------------------
  // Set-up
  // ---------------------------------------------------------------------------------------

  datatype Config = Config(devName: string, baudrate: int)

  /** The backend's instance: the common part and the serial configuration. */
  datatype Instance = Instance(common: Inst, config: Config)

  /**
   * `uart_slip_parse`. `memoryOk` says whether allocating the instance succeeded. The
   * instance is published before the configuration is checked, so a missing device path
   * fails with `-ETRANSNOMEM` yet leaves a (zeroed) instance behind.
   */
  function Parse(memoryOk: bool, debug: bool, cfg: Option<string>): (r: (Option<Instance>, int))
    ensures !memoryOk ==> r == (None, -ETRANSNOMEM)
    ensures memoryOk ==> r.0.Some? && r.0.value.common == Inst(Some(Ops), debug)
    ensures r.1 == ETRANSSUCC <==> memoryOk && cfg.Some? && |cfg.value| > 0
    ensures r.1 != ETRANSSUCC ==> r.1 == -ETRANSNOMEM
    // at most DEVICE_NAME_LEN - 1 characters of the path are kept
    ensures r.1 == ETRANSSUCC ==>
              var name := r.0.value.config.devName;
              name <= cfg.value && |name| < DEVICE_NAME_LEN
              && (|cfg.value| < DEVICE_NAME_LEN ==> name == cfg.value)
              && r.0.value.config.baudrate == DEFAULT_BAUDRATE
  {
    if !memoryOk then (None, -ETRANSNOMEM)
    else
      var common := Inst(Some(Ops), debug);
      if cfg.None? || |cfg.value| == 0 then (Some(Instance(common, Config("", 0))), -ETRANSNOMEM)
      else
        var n := if |cfg.value| < DEVICE_NAME_LEN then |cfg.value| else DEVICE_NAME_LEN - 1;
        (Some(Instance(common, Config(cfg.value[..n], DEFAULT_BAUDRATE))), ETRANSSUCC)
  }

  /**
   * `uart_slip_init`: `uartOpen` says whether the UART could be opened. A failure is
   * reported as the positive code `ETRANSERR`, unlike the negated codes elsewhere.
   */
  function Init(uartOpen: bool): (r: int)
    ensures r == ETRANSSUCC <==> uartOpen
    ensures !uartOpen ==> r > 0
  {
    if uartOpen then ETRANSSUCC else ETRANSERR
  }

  /**
   * `uart_slip_alloc`, for both directions. `transport` and `memoryOk` stand for a
   * non-NULL transport and successful allocations.
   */
  function Alloc(transport: bool, memoryOk: bool, size: nat): (r: Option<Buff>)
    ensures r.Some? <==> transport && memoryOk && size > 0
    ensures r.Some? ==> r.value.capacity - r.value.dataLen == OVERHEAD && r.value.dataLen == size
    ensures r.Some? ==> |r.value.data| == r.value.capacity
                        && forall i :: 0 <= i < |r.value.data| ==> r.value.data[i] == 0
  {
    if !transport || size == 0 || !memoryOk then None
    else Some(Buff(seq(size + OVERHEAD, i => 0), size + OVERHEAD, size))
  }

  /** `uart_slip_tx_char`: a write of one byte succeeds only if it reports one byte written. */
  function TxChar(written: int): (r: int)
    ensures r == 0 <==> written == 1
    ensures r == 0 || r == -1
  {
    if written == 1 then 0 else -1
  }

  /** The SLIP sink over the UART: call `n` of the sink is write number `n`. */
  function Sink(write: nat -> int): nat -> int {
    (n: nat) => TxChar(write(n))
  }

  /** Every front-end request other than init, send and allocation is refused. */
  lemma UnsupportedRequests(debug: bool)
    ensures var t := Inst(Some(Ops), debug);
            Dispatch(t, RegRead) == Refuse(-ETRANSERR)
            && Dispatch(t, RegWrite) == Refuse(-ETRANSNOTSUP)
            && Dispatch(t, MemRead) == Refuse(-ETRANSNOTSUP)
            && Dispatch(t, MemWrite) == Refuse(-ETRANSNOTSUP)
            && Dispatch(t, ResetDevice) == Refuse(-ETRANSNOTSUP)
            && Dispatch(t, Send) == Forward && Dispatch(t, InitCap) == Forward
            && Dispatch(t, RawRead) == NullCall && Dispatch(t, RawWrite) == NullCall
            && Dispatch(t, RawReadWrite) == NullCall
            && !ForwardsIfname(t) && !HasReset(Some(t)) && !HasDriver(Some(t))
  {
  }

  // ---------------------------------------------------------------------------------------
  // Frames
  // ---------------------------------------------------------------------------------------

  /** The CRC bytes as the frame carries them: low byte first. */
  function CrcBytes(c: bv16): (r: seq<bv8>)
    ensures |r| == CRC_LEN
  {
    [(c & 0xFF) as bv8, ((c >> 8) & 0xFF) as bv8]
  }

  /** The frame for `payload` tagged `tag`. */
  function Frame(payload: seq<bv8>, tag: seq<bv8>): (r: seq<bv8>)
    requires |tag| == SEQNUM_LEN
    ensures |r| == |payload| + OVERHEAD
  {
    payload + tag + CrcBytes(Crc16.Crc(0, payload + tag))
  }

  /** What the receive loop makes of a complete frame `f` when it expects `tag`. */
  datatype Verdict = TooShort | BadCrc | BadTag | Accept(len: nat)

  function Check(f: seq<bv8>, tag: seq<bv8>): Verdict
    requires |tag| == SEQNUM_LEN
  {
    if |f| < OVERHEAD then TooShort
    else
      var n := |f| - CRC_LEN;
      if f[n..] != CrcBytes(Crc16.Crc(0, f[..n])) then BadCrc
      else if f[n - SEQNUM_LEN..n] != tag then BadTag
      else Accept(n - SEQNUM_LEN)
  }

  /** A frame is accepted exactly when it is the frame of its own payload and the tag. */
  lemma CheckAccepts(f: seq<bv8>, tag: seq<bv8>)
    requires |tag| == SEQNUM_LEN
    ensures Check(f, tag).Accept? <==> |f| >= OVERHEAD && f == Frame(f[..|f| - OVERHEAD], tag)
    ensures Check(f, tag).Accept? ==> Check(f, tag).len == |f| - OVERHEAD
  {
    if |f| >= OVERHEAD {
      var n := |f| - CRC_LEN;
      var q := f[..|f| - OVERHEAD];
      assert f[..n] == q + f[n - SEQNUM_LEN..n];
      assert f == f[..n] + f[n..];
      if f == Frame(q, tag) {
        assert f[..n] == q + tag;
        assert f[n..] == CrcBytes(Crc16.Crc(0, q + tag));
      }
    }
  }

  /** The frame of a payload passes the receive checks and yields that payload. */
  lemma FrameAccepted(q: seq<bv8>, tag: seq<bv8>)
    requires |tag| == SEQNUM_LEN
    ensures Check(Frame(q, tag), tag) == Accept(|q|)
    ensures Frame(q, tag)[..|q|] == q
  {
    var f := Frame(q, tag);
    assert f[..|f| - OVERHEAD] == q;
    CheckAccepts(f, tag);
  }

  /** A well-formed frame carrying another tag is recognised as such and ignored. */
  lemma OtherTagRejected(q: seq<bv8>, tag: seq<bv8>, other: seq<bv8>)
    requires |tag| == SEQNUM_LEN && |other| == SEQNUM_LEN && other != tag
    ensures Check(Frame(q, other), tag) == BadTag
  {
    var f := Frame(q, other);
    var n := |f| - CRC_LEN;
    assert f[..n] == q + other;
    assert f[n - SEQNUM_LEN..n] == other;
  }

  /** The two CRC bytes determine the CRC. */
  lemma CrcBytesInjective(a: bv16, b: bv16)
    requires CrcBytes(a) == CrcBytes(b)
    ensures a == b
  {
    assert (a & 0xFF) as bv8 == (b & 0xFF) as bv8 && ((a >> 8) & 0xFF) as bv8 == ((b >> 8) & 0xFF) as bv8;
  }

  /**
   * A frame with any one byte corrupted (any non-zero error pattern `d` in byte `k`,
   * single-bit flips included), in the payload, the tag or the CRC itself, fails the
   * CRC check and is dropped.
   */
  lemma CorruptedFrameRejected(q: seq<bv8>, tag: seq<bv8>, k: nat, d: bv8)
    requires |tag| == SEQNUM_LEN && k < |q| + OVERHEAD && d != 0
    ensures var f := Frame(q, tag); Check(f[k := f[k] ^ d], tag) == BadCrc
  {
    var m := q + tag;
    if k < |m| {
      DataByteCorrupted(m, tag, k, d);
    } else {
      var c := CrcBytes(Crc16.Crc(0, m));
      assert Frame(q, tag) == m + c;
      var x := c[k - |m|];
      assert Frame(q, tag)[k] == x;
      FlipChanges(x, d);
      CrcByteCorrupted(m, tag, k - |m|, x ^ d);
    }
  }

  /** A corrupted byte before the CRC changes the CRC the receiver computes. */
  lemma DataByteCorrupted(m: seq<bv8>, tag: seq<bv8>, k: nat, d: bv8)
    requires |tag| == SEQNUM_LEN && |m| >= SEQNUM_LEN && k < |m| && d != 0
    ensures var f := m + CrcBytes(Crc16.Crc(0, m)); Check(f[k := f[k] ^ d], tag) == BadCrc
  {
    var c := CrcBytes(Crc16.Crc(0, m));
    var m' := m[k := m[k] ^ d];
    assert (m + c)[k] == m[k];
    UpdateLeft(m, c, k, m[k] ^ d);
    Crc16.ByteErrorDetected(m, k, d);
    if c == CrcBytes(Crc16.Crc(0, m')) {
      CrcBytesInjective(Crc16.Crc(0, m), Crc16.Crc(0, m'));
    }
    CrcMismatch(m', c, tag);
  }

  /** A CRC byte replaced by any other value no longer matches the CRC of the intact data. */
  lemma CrcByteCorrupted(m: seq<bv8>, tag: seq<bv8>, j: nat, v: bv8)
    requires |tag| == SEQNUM_LEN && |m| >= SEQNUM_LEN && j < CRC_LEN
    requires v != CrcBytes(Crc16.Crc(0, m))[j]
    ensures Check((m + CrcBytes(Crc16.Crc(0, m)))[|m| + j := v], tag) == BadCrc
  {
    var c := CrcBytes(Crc16.Crc(0, m));
    UpdateRight(m, c, j, v);
    assert c[j := v][j] != c[j];
    CrcMismatch(m, c[j := v], tag);
  }

  lemma FlipChanges(x: bv8, d: bv8)
    requires d != 0
    ensures x ^ d != x
  {
  }

  lemma UpdateLeft<T>(a: seq<T>, b: seq<T>, k: nat, v: T)
    requires k < |a|
    ensures (a + b)[k := v] == a[k := v] + b
  {
  }

  lemma UpdateRight<T>(a: seq<T>, b: seq<T>, j: nat, v: T)
    requires j < |b|
    ensures (a + b)[|a| + j := v] == a + b[j := v]
  {
  }

  /** A frame whose trailing bytes are not the CRC of the rest is rejected for its CRC. */
  lemma CrcMismatch(m: seq<bv8>, c: seq<bv8>, tag: seq<bv8>)
    requires |tag| == SEQNUM_LEN && |m| >= SEQNUM_LEN && |c| == CRC_LEN
    requires c != CrcBytes(Crc16.Crc(0, m))
    ensures Check(m + c, tag) == BadCrc
  {
    var f := m + c;
    assert f[..|f| - CRC_LEN] == m && f[|f| - CRC_LEN..] == c;
  }

  /**
   * The outgoing frame: the tag and the CRC are written behind the command's data, and
   * its length grows by the overhead. The source asserts there is room for both.
   */
  function Prepare(cmd: Buff, tag: seq<bv8>): (r: Buff)
    requires |tag| == SEQNUM_LEN && |cmd.data| == cmd.capacity
    requires cmd.dataLen + OVERHEAD <= cmd.capacity
    ensures r.capacity == cmd.capacity && |r.data| == |cmd.data|
    ensures r.dataLen == cmd.dataLen + OVERHEAD
    ensures r.data[..r.dataLen] == Frame(cmd.data[..cmd.dataLen], tag)
    ensures r.data[r.dataLen..] == cmd.data[r.dataLen..]
  {
    var n := cmd.dataLen;
    var framed := cmd.data[..n] + tag;
    var crc := Crc16.Crc(0, framed);
    var data := framed + CrcBytes(crc) + cmd.data[n + OVERHEAD..];
    assert data[..n + OVERHEAD] == framed + CrcBytes(crc);
    cmd.(data := data, dataLen := n + OVERHEAD)
  }

  // ---------------------------------------------------------------------------------------
  // The receive loop
  // ---------------------------------------------------------------------------------------

  /** One `uart_read` of one byte: a failure (negative result), nothing, or a byte. */
  datatype ReadEvent = ReadFail(code: NegCode) | Idle | Byte(b: bv8)

  /** What a failed read returns. */
  type NegCode = c: int | c < 0 witness -1

  /** Bytes arriving one per read. */
  function Arrivals(input: seq<bv8>): (r: seq<ReadEvent>)
    ensures |r| == |input| && forall i :: 0 <= i < |input| ==> r[i] == Byte(input[i])
  {
    seq(|input|, i requires 0 <= i < |input| => Byte(input[i]))
  }

  /**
   * Outcome of the exchange: the value `uart_slip_send` returns with the receiver state
   * (whose buffer is the response memory) and the response length it set; or `Blocked`
   * when the reads run out while the source would still be waiting for a frame.
   */
  datatype Outcome = Returned(ret: int, rx: Slip.RxState, respLen: nat) | Blocked

  /** What happens after the receiver leaves `InProgress`. */
  datatype Decision = Stop(ret: int, respLen: nat) | Retry(respLen: nat)

  function Decide(rx: Slip.RxState, status: Slip.RxStatus, respLen: nat, tag: seq<bv8>): (d: Decision)
    requires rx.Valid() && |tag| == SEQNUM_LEN
    ensures d.Stop? && d.ret == 0 ==> Check(rx.Packet(), tag) == Accept(d.respLen)
    ensures d.Stop? ==> d.ret == 0 || d.ret == -ETRANSERR
    ensures d.Stop? && d.ret != 0 <==> status != Slip.Complete
  {
    if status != Slip.Complete then Stop(-ETRANSERR, respLen)
    else
      var f := rx.Packet();
      match Check(f, tag)
      case TooShort => Retry(|f|)
      case BadCrc => Retry(|f| - CRC_LEN)
      case BadTag => Retry(|f| - OVERHEAD)
      case Accept(n) => Stop(ETRANSSUCC, n)
  }

  /**
   * The receive loop from the point where the receiver is in state `rx` and the status
   * variable holds `status`. An idle read re-tests the status variable, as `continue` in
   * the source's do-while loop does: mid-frame it keeps reading, but after a rejected
   * frame the stale `Complete` ends the inner loop on an empty frame, which is retried.
   */
  function Receive(rx: Slip.RxState, status: Slip.RxStatus, respLen: nat,
                   events: seq<ReadEvent>, tag: seq<bv8>): (r: Outcome)
    requires rx.Valid() && |tag| == SEQNUM_LEN
    ensures r.Returned? ==> r.rx.Valid() && |r.rx.buffer| == |rx.buffer|
    // success only for a frame of the expected shape, CRC and tag
    ensures r.Returned? && r.ret == 0 ==>
              Check(r.rx.Packet(), tag) == Accept(r.respLen)
              && r.rx.Packet() == Frame(r.rx.Packet()[..r.respLen], tag)
    // any other return is a decoding failure or a failed read
    ensures r.Returned? && r.ret != 0 ==>
              r.ret == -ETRANSERR || exists i :: 0 <= i < |events| && events[i].ReadFail? && events[i].code == r.ret
    decreases |events|, 0
  {
    if |events| == 0 then Blocked
    else
      var rest := events[1..];
      assert forall i :: 0 <= i < |rest| ==> rest[i] == events[i + 1];
      match events[0]
      case ReadFail(code) => Returned(code, rx, respLen)
      case Idle =>
        if status == Slip.InProgress then Receive(rx, status, respLen, rest, tag)
        else Conclude(rx, status, respLen, rest, tag)
      case Byte(b) =>
        var step := Slip.Rx(rx, b);
        if step.status == Slip.InProgress then Receive(step.state, step.status, respLen, rest, tag)
        else Conclude(step.state, step.status, respLen, rest, tag)
  }

  /** Leave the inner loop: return, or reset the receiver and wait for the next frame. */
  function Conclude(rx: Slip.RxState, status: Slip.RxStatus, respLen: nat,
                    rest: seq<ReadEvent>, tag: seq<bv8>): (r: Outcome)
    requires rx.Valid() && |tag| == SEQNUM_LEN
    ensures r.Returned? ==> r.rx.Valid() && |r.rx.buffer| == |rx.buffer|
    ensures r.Returned? && r.ret == 0 ==>
              Check(r.rx.Packet(), tag) == Accept(r.respLen)
              && r.rx.Packet() == Frame(r.rx.Packet()[..r.respLen], tag)
    ensures r.Returned? && r.ret != 0 ==>
              r.ret == -ETRANSERR || exists i :: 0 <= i < |rest| && rest[i].ReadFail? && rest[i].code == r.ret
    decreases |rest|, 1
  {
    match Decide(rx, status, respLen, tag)
    case Stop(ret, len) =>
      CheckAccepts(rx.Packet(), tag);
      Returned(ret, rx, len)
    case Retry(len) => Receive(Slip.Reset(rx), status, len, rest, tag)
  }

  /** The response buffer as the exchange leaves it. */
  function Response(resp: Buff, o: Outcome): Buff
    requires o.Returned?
  {
    resp.(data := o.rx.buffer, dataLen := o.respLen)
  }

  /** Result of a whole `uart_slip_send`: the bytes written to the UART and the outcome. */
  datatype Exchange = Exchange(sent: seq<bv8>, cmd: Buff, outcome: Outcome)

  /**
   * `uart_slip_send` as a function of the transmit results `write`, the read events and the
   * tag. `ready` stands for a transport with operations and a command buffer; without
   * them the call fails with `-ETRANSERR` before anything is sent. The response buffer
   * is always present: the receiver is set up over its whole capacity before any check.
   */
  function Exchanged(ready: bool, cmd: Buff, resp: Buff, tag: seq<bv8>,
                     write: nat -> int, events: seq<ReadEvent>): (r: Exchange)
    requires |tag| == SEQNUM_LEN && |cmd.data| == cmd.capacity && cmd.dataLen + OVERHEAD <= cmd.capacity
    requires |resp.data| == resp.capacity
    // nothing goes out without a transport and a command
    ensures !ready ==> r == Exchange([], cmd, Returned(-ETRANSERR, Slip.Init(resp.data), resp.dataLen))
    // otherwise the frame goes out SLIP-encoded, exactly when every write succeeds
    ensures ready ==> r.cmd == Prepare(cmd, tag)
    ensures ready && Slip.Accepts(Sink(write), 1, |Slip.Encode(Frame(cmd.data[..cmd.dataLen], tag))| - 1) ==>
              r.sent == Slip.Encode(Frame(cmd.data[..cmd.dataLen], tag))
    // a failed transmission is returned at once: nothing is read, the response length stays
    ensures ready ==>
              var c := Prepare(cmd, tag);
              var tx := Slip.Tx(c.data[..c.dataLen], Sink(write));
              tx.ret != 0 ==> r.outcome == Returned(tx.ret, Slip.Init(resp.data), resp.dataLen)
  {
    if !ready then Exchange([], cmd, Returned(-ETRANSERR, Slip.Init(resp.data), resp.dataLen))
    else
      var c := Prepare(cmd, tag);
      var tx := Slip.Tx(c.data[..c.dataLen], Sink(write));
      if tx.ret != 0 then Exchange(tx.sent, c, Returned(tx.ret, Slip.Init(resp.data), resp.dataLen))
      else Exchange(tx.sent, c, Receive(Slip.Init(resp.data), Slip.InProgress, 0, events, tag))
  }

  // ---------------------------------------------------------------------------------------
  // Properties of the exchange
  // ---------------------------------------------------------------------------------------

  /** A failed read ends the exchange with the read's own result, whatever follows. */
  lemma ReadFailureIsFatal(rx: Slip.RxState, status: Slip.RxStatus, respLen: nat, code: NegCode,
                           more: seq<ReadEvent>, tag: seq<bv8>)
    requires rx.Valid() && |tag| == SEQNUM_LEN
    ensures Receive(rx, status, respLen, [ReadFail(code)] + more, tag) == Returned(code, rx, respLen)
  {
  }

  /** Idle events in the middle of a frame are skipped. */
  lemma IdleMidFrame(rx: Slip.RxState, respLen: nat, more: seq<ReadEvent>, tag: seq<bv8>)
    requires rx.Valid() && |tag| == SEQNUM_LEN
    ensures Receive(rx, Slip.InProgress, respLen, [Idle] + more, tag)
            == Receive(rx, Slip.InProgress, respLen, more, tag)
  {
    assert ([Idle] + more)[1..] == more;
  }

  /**
   * Feeding the bytes of `input` one read at a time: when the receiver leaves
   * `InProgress` on them, the loop goes on as `Conclude` after the bytes consumed.
   */
  lemma {:induction false} ReceiveBytes(rx: Slip.RxState, respLen: nat, input: seq<bv8>,
                                        more: seq<ReadEvent>, tag: seq<bv8>)
    requires rx.Valid() && |tag| == SEQNUM_LEN
    requires Slip.Feed(rx, input).status != Slip.InProgress
    ensures var f := Slip.Feed(rx, input);
            Receive(rx, Slip.InProgress, respLen, Arrivals(input) + more, tag)
            == Conclude(f.state, f.status, respLen, Arrivals(input[f.consumed..]) + more, tag)
    decreases |input|
  {
    var events := Arrivals(input) + more;
    var step := Slip.Rx(rx, input[0]);
    assert events[0] == Byte(input[0]);
    assert events[1..] == Arrivals(input[1..]) + more;
    if step.status == Slip.InProgress {
      ReceiveBytes(step.state, respLen, input[1..], more, tag);
      var f := Slip.Feed(step.state, input[1..]);
      assert input[1..][f.consumed..] == input[f.consumed + 1..];
    } else {
      assert input[1..] == input[1..];
    }
  }

  /**
   * The device's echo of the frame is accepted: the exchange succeeds and the response
   * holds the payload, provided the response buffer can hold the whole frame.
   */
  lemma EchoAccepted(buffer: seq<bv8>, respLen: nat, q: seq<bv8>, tag: seq<bv8>, more: seq<ReadEvent>)
    requires |tag| == SEQNUM_LEN && |q| + OVERHEAD <= |buffer|
    ensures var r := Receive(Slip.Init(buffer), Slip.InProgress, respLen,
                             Arrivals(Slip.Encode(Frame(q, tag))) + more, tag);
            r.Returned? && r.ret == 0 && r.respLen == |q| && r.rx.Packet()[..|q|] == q
            && r.rx.buffer[|q| + OVERHEAD..] == buffer[|q| + OVERHEAD..]
  {
    var f := Frame(q, tag);
    var input := Slip.Encode(f);
    Slip.RoundTrip(buffer, f, []);
    assert input + [] == input;
    var fed := Slip.Feed(Slip.Init(buffer), input);
    ReceiveBytes(Slip.Init(buffer), respLen, input, more, tag);
    assert input[fed.consumed..] == [];
    assert Arrivals([]) + more == more;
    FrameAccepted(q, tag);
    ConcludeAccepts(fed.state, respLen, more, tag, |q|);
  }

  /** A complete frame that passes the checks ends the exchange successfully. */
  lemma ConcludeAccepts(rx: Slip.RxState, respLen: nat, rest: seq<ReadEvent>, tag: seq<bv8>, n: nat)
    requires rx.Valid() && |tag| == SEQNUM_LEN && Check(rx.Packet(), tag) == Accept(n)
    ensures Conclude(rx, Slip.Complete, respLen, rest, tag) == Returned(0, rx, n)
  {
  }

  /**
   * A complete frame that is ignored (too short, bad CRC or another tag) restarts the
   * wait with a fresh receiver; a frame that is not ignored ends the exchange.
   */
  lemma IgnoredFrameSkipped(rx: Slip.RxState, respLen: nat, input: seq<bv8>, more: seq<ReadEvent>,
                            tag: seq<bv8>)
    requires rx.Valid() && |tag| == SEQNUM_LEN
    requires Slip.Feed(rx, input).status == Slip.Complete && Slip.Feed(rx, input).consumed == |input|
    requires !Check(Slip.Feed(rx, input).state.Packet(), tag).Accept?
    ensures var f := Slip.Feed(rx, input);
            exists len: nat :: Receive(rx, Slip.InProgress, respLen, Arrivals(input) + more, tag)
                               == Receive(Slip.Reset(f.state), Slip.Complete, len, more, tag)
  {
    ReceiveBytes(rx, respLen, input, more, tag);
    assert input[|input|..] == [];
    assert Arrivals([]) + more == more;
  }

  /** A decoding error or a full buffer is fatal: the exchange fails with `-ETRANSERR`. */
  lemma DecodeFailureIsFatal(rx: Slip.RxState, respLen: nat, input: seq<bv8>, more: seq<ReadEvent>,
                             tag: seq<bv8>)
    requires rx.Valid() && |tag| == SEQNUM_LEN
    requires Slip.Feed(rx, input).status in {Slip.Error, Slip.BufferLimit}
    ensures var f := Slip.Feed(rx, input);
            Receive(rx, Slip.InProgress, respLen, Arrivals(input) + more, tag)
            == Returned(-ETRANSERR, f.state, respLen)
  {
    ReceiveBytes(rx, respLen, input, more, tag);
  }

  /** A response too long for the response buffer fails the exchange instead of being cut. */
  lemma OverlongResponseFails(buffer: seq<bv8>, respLen: nat, f: seq<bv8>, more: seq<ReadEvent>,
                              tag: seq<bv8>)
    requires |tag| == SEQNUM_LEN && |f| > |buffer|
    ensures var r := Receive(Slip.Init(buffer), Slip.InProgress, respLen,
                             Arrivals(Slip.Encode(f)) + more, tag);
            r.Returned? && r.ret == -ETRANSERR
  {
    Slip.OverlongHitsLimit(buffer, f, []);
    assert Slip.Encode(f) + [] == Slip.Encode(f);
    DecodeFailureIsFatal(Slip.Init(buffer), respLen, Slip.Encode(f), more, tag);
  }

  /**
   * A stale reply (a frame carrying another tag) followed by the echo of the current
   * command: the stale one is ignored and the echo accepted.
   */
  lemma StaleReplySkipped(buffer: seq<bv8>, q0: seq<bv8>, stale: seq<bv8>, q: seq<bv8>,
                          tag: seq<bv8>, more: seq<ReadEvent>)
    requires |tag| == SEQNUM_LEN && |stale| == SEQNUM_LEN && stale != tag
    requires |q0| + OVERHEAD <= |buffer| && |q| + OVERHEAD <= |buffer|
    ensures var r := Receive(Slip.Init(buffer), Slip.InProgress, 0,
                             Arrivals(Slip.Encode(Frame(q0, stale))) + (Arrivals(Slip.Encode(Frame(q, tag))) + more), tag);
            r.Returned? && r.ret == 0 && r.respLen == |q| && r.rx.Packet()[..|q|] == q
  {
    var f0 := Frame(q0, stale);
    var input := Slip.Encode(f0);
    var later := Arrivals(Slip.Encode(Frame(q, tag))) + more;
    Slip.RoundTrip(buffer, f0, []);
    assert input + [] == input;
    OtherTagRejected(q0, tag, stale);
    ReceiveBytes(Slip.Init(buffer), 0, input, later, tag);
    assert input[|input|..] == [];
    assert Arrivals([]) + later == later;
    var fed := Slip.Feed(Slip.Init(buffer), input);
    var rx1 := Slip.Reset(fed.state);
    assert rx1 == Slip.Init(fed.state.buffer);
    ResumeAfterReject(fed.state, q, tag, more);
  }

  /** After a rejected frame, the resumed wait (stale `Complete` status) accepts the echo. */
  lemma ResumeAfterReject(rx: Slip.RxState, q: seq<bv8>, tag: seq<bv8>, more: seq<ReadEvent>)
    requires rx.Valid() && |tag| == SEQNUM_LEN && |q| + OVERHEAD <= |rx.buffer|
    ensures forall len: nat ::
              var r := Receive(Slip.Reset(rx), Slip.Complete, len,
                               Arrivals(Slip.Encode(Frame(q, tag))) + more, tag);
              r.Returned? && r.ret == 0 && r.respLen == |q| && r.rx.Packet()[..|q|] == q
  {
    forall len: nat
      ensures var r := Receive(Slip.Reset(rx), Slip.Complete, len,
                               Arrivals(Slip.Encode(Frame(q, tag))) + more, tag);
              r.Returned? && r.ret == 0 && r.respLen == |q| && r.rx.Packet()[..|q|] == q
    {
      var s := Slip.Reset(rx);
      var input := Slip.Encode(Frame(q, tag));
      var events := Arrivals(input) + more;
      // the opening END completes nothing: the status variable becomes InProgress
      assert events[0] == Byte(Slip.END);
      assert Slip.Rx(s, Slip.END) == Slip.Step(s, Slip.InProgress);
      assert events[1..] == Arrivals(input[1..]) + more;
      EchoAccepted(rx.buffer, len, q, tag, more);
      assert s == Slip.Init(rx.buffer);
      assert Receive(s, Slip.InProgress, len, events, tag) == Receive(s, Slip.InProgress, len, events[1..], tag);
    }
  }

  /**
   * End to end: when every UART write succeeds and the device answers with a frame for
   * `q` carrying the command's tag, the send succeeds and the response holds `q`.
   */
  lemma ReplyDelivered(cmd: Buff, resp: Buff, tag: seq<bv8>, write: nat -> int, q: seq<bv8>,
                       more: seq<ReadEvent>)
    requires |tag| == SEQNUM_LEN && |cmd.data| == cmd.capacity && cmd.dataLen + OVERHEAD <= cmd.capacity
    requires |resp.data| == resp.capacity
    requires |q| + OVERHEAD <= |resp.data|
    requires Slip.Accepts(Sink(write), 1, |Slip.Encode(Frame(cmd.data[..cmd.dataLen], tag))| - 1)
    ensures var x := Exchanged(true, cmd, resp, tag, write, Arrivals(Slip.Encode(Frame(q, tag))) + more);
            x.sent == Slip.Encode(Frame(cmd.data[..cmd.dataLen], tag))
            && x.outcome.Returned? && x.outcome.ret == ETRANSSUCC
            && Response(resp, x.outcome).dataLen == |q| && Response(resp, x.outcome).data[..|q|] == q
  {
    var events := Arrivals(Slip.Encode(Frame(q, tag))) + more;
    SentInFull(cmd, resp, tag, write, events);
    EchoAccepted(resp.data, 0, q, tag, more);
    var o := Exchanged(true, cmd, resp, tag, write, events).outcome;
    assert o.rx.Packet()[..|q|] == q;
    assert Response(resp, o).data[..|q|] == o.rx.Packet()[..|q|];
  }

  /** When every write succeeds the exchange is decided by the receive loop alone. */
  lemma SentInFull(cmd: Buff, resp: Buff, tag: seq<bv8>, write: nat -> int, events: seq<ReadEvent>)
    requires |tag| == SEQNUM_LEN && |cmd.data| == cmd.capacity && cmd.dataLen + OVERHEAD <= cmd.capacity
    requires |resp.data| == resp.capacity
    requires Slip.Accepts(Sink(write), 1, |Slip.Encode(Frame(cmd.data[..cmd.dataLen], tag))| - 1)
    ensures Exchanged(true, cmd, resp, tag, write, events).outcome
            == Receive(Slip.Init(resp.data), Slip.InProgress, 0, events, tag)
  {
    var c := Prepare(cmd, tag);
    assert c.data[..c.dataLen] == Frame(cmd.data[..cmd.dataLen], tag);
  }

  // ---------------------------------------------------------------------------------------
  // The send routine as the source writes it
  // ---------------------------------------------------------------------------------------

  /** `uart_slip_send`: framing, transmission, then the receive loop over `events`. */
  method SendCommand(ready: bool, cmd: Buff, resp: Buff, tag: seq<bv8>,
                     write: nat -> int, events: seq<ReadEvent>) returns (r: Exchange)
    requires |tag| == SEQNUM_LEN && |cmd.data| == cmd.capacity && cmd.dataLen + OVERHEAD <= cmd.capacity
    requires |resp.data| == resp.capacity
    ensures r == Exchanged(ready, cmd, resp, tag, write, events)
  {
    var rx := Slip.Init(resp.data);
    if !ready {
      return Exchange([], cmd, Returned(-ETRANSERR, rx, resp.dataLen));
    }
    var c := Prepare(cmd, tag);
    var tx := Slip.Tx(c.data[..c.dataLen], Sink(write));
    if tx.ret != 0 {
      return Exchange(tx.sent, c, Returned(tx.ret, rx, resp.dataLen));
    }
    var status := Slip.InProgress;
    var respLen: nat := 0;
    var i := 0;
    while i < |events|
      invariant 0 <= i <= |events| && rx.Valid()
      invariant Receive(rx, status, respLen, events[i..], tag)
                == Receive(Slip.Init(resp.data), Slip.InProgress, 0, events, tag)
    {
      var ev := events[i];
      assert events[i..][0] == ev && events[i..][1..] == events[i + 1..];
      i := i + 1;
      var leave := false;
      match ev {
        case ReadFail(code) =>
          return Exchange(tx.sent, c, Returned(code, rx, respLen));
        case Idle =>
          leave := status != Slip.InProgress;
        case Byte(b) =>
          var step := Slip.Rx(rx, b);
          rx, status := step.state, step.status;
          leave := status != Slip.InProgress;
      }
      if leave {
        var d := Decide(rx, status, respLen, tag);
        if d.Stop? {
          return Exchange(tx.sent, c, Returned(d.ret, rx, d.respLen));
        }
        rx, respLen := Slip.Reset(rx), d.respLen;
      }
    }
    return Exchange(tx.sent, c, Blocked);
  }
}
