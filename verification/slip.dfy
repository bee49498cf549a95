/**
 * SLIP framing (RFC 1055) as used on the serial link: a byte-at-a-time receive state
 * machine and a byte-stuffing transmitter that pushes each byte into a sink.
 *
 * The receiver departs from the sample receiver of RFC 1055 in one place: an ESC followed
 * by anything other than ESC_END or ESC_ESC reports an error and discards the frame,
 * where the RFC stores the byte literally.
 */
module Slip {

  const END: bv8 := 0xC0
  const ESC: bv8 := 0xDB
  const ESC_END: bv8 := 0xDC
  const ESC_ESC: bv8 := 0xDD

  /** Default size of a receive buffer. */
  const RX_BUFFER_SIZE: nat := 2000

  datatype RxStatus = Complete | InProgress | BufferLimit | Error

  /**
   * Receiver state. `buffer` is the whole caller-supplied region, so `|buffer|` plays the
   * role of `buffer_length`; the bytes received so far are `buffer[..length]`.
   */
  datatype RxState = RxState(buffer: seq<bv8>, length: nat, escape: bool) {
    predicate Valid() {
      length <= |buffer|
    }

    /** The frame received so far; after `Complete` this is the whole packet. */
    function Packet(): seq<bv8>
      requires Valid()
    {
      buffer[..length]
    }
  }

  /** Result of feeding one byte: the new state and the reported status. */
  datatype Step = Step(state: RxState, status: RxStatus)

  /** A fresh receiver over `buffer`. */
  function Init(buffer: seq<bv8>): (s: RxState)
    ensures s.Valid() && s.Packet() == [] && !s.escape
    ensures s.buffer == buffer
  {
    RxState(buffer, 0, false)
  }

  /** Forget any partial frame; the buffer is kept. */
  function Reset(s: RxState): (r: RxState)
    ensures r.Valid() && r.Packet() == [] && !r.escape
    ensures r.buffer == s.buffer
  {
    s.(length := 0, escape := false)
  }

  /** Resetting any state gives the state a fresh receiver over the same buffer starts in. */
  lemma ResetIsInit(s: RxState)
    ensures Reset(s) == Init(s.buffer)
    ensures Reset(Reset(s)) == Reset(s)
  {
  }

  /** Store one decoded byte, unless the buffer is full. */
  function Append(s: RxState, c: bv8): (r: Step)
    requires s.Valid()
    ensures r.state.Valid() && |r.state.buffer| == |s.buffer| && r.state.escape == s.escape
    ensures r.status == BufferLimit <==> s.length == |s.buffer|
    ensures r.status == BufferLimit ==> r.state == s
    ensures r.status != BufferLimit ==>
              r.status == InProgress && r.state.Packet() == s.Packet() + [c]
              && r.state.buffer[r.state.length..] == s.buffer[r.state.length..]
  {
    if s.length == |s.buffer| then
      Step(s, BufferLimit)
    else
      Step(s.(buffer := s.buffer[s.length := c], length := s.length + 1), InProgress)
  }

  /** The byte an escape sequence stands for. */
  function Unescape(c: bv8): bv8 {
    if c == ESC_END then END else ESC
  }

  /** Feed one received byte to the receiver. */
  function Rx(s: RxState, c: bv8): (r: Step)
    requires s.Valid()
    ensures r.state.Valid() && |r.state.buffer| == |s.buffer|
    // a frame is complete exactly at an unescaped END that closes a non-empty frame
    ensures r.status == Complete <==> c == END && !s.escape && s.length > 0
    ensures r.status == Complete ==> r.state == s
    // an escape followed by anything but ESC_END / ESC_ESC discards the frame
    ensures r.status == Error <==> s.escape && c != ESC_END && c != ESC_ESC
    ensures r.status == Error ==> r.state.length == 0
    ensures r.state.escape <==> !s.escape && c == ESC
    ensures r.status == BufferLimit ==> r.state == s.(escape := false)
    ensures r.status == BufferLimit <==>
              s.length == |s.buffer|
              && (if s.escape then c == ESC_END || c == ESC_ESC else c != END && c != ESC)
    // otherwise a byte is stored: the literal one, or the one the escape stands for
    ensures r.state.length != s.length && r.status != Error ==>
              r.status == InProgress
              && r.state.Packet() == s.Packet() + [if s.escape then Unescape(c) else c]
              && r.state.buffer[r.state.length..] == s.buffer[r.state.length..]
    ensures r.status == InProgress && r.state.length == s.length ==>
              r.state.buffer == s.buffer && (c == END || c == ESC) && !s.escape
  {
    if c == END then
      if s.escape then Step(s.(escape := false, length := 0), Error)
      else if s.length > 0 then Step(s, Complete)
      else Step(s, InProgress)
    else if s.escape then
      var s' := s.(escape := false);
      if c == ESC_END then Append(s', END)
      else if c == ESC_ESC then Append(s', ESC)
      else Step(s'.(length := 0), Error)
    else if c == ESC then
      Step(s.(escape := true), InProgress)
    else
      Append(s, c)
  }

  // ---------------------------------------------------------------------------------------
  // Transmit side
  // ---------------------------------------------------------------------------------------

  /** The on-the-wire bytes for one payload byte. */
  function Stuff(c: bv8): (r: seq<bv8>)
    ensures 1 <= |r| <= 2
    ensures END !in r
  {
    if c == ESC then [ESC, ESC_ESC]
    else if c == END then [ESC, ESC_END]
    else [c]
  }

  function StuffAll(p: seq<bv8>): (r: seq<bv8>)
    ensures |p| <= |r| <= 2 * |p|
  {
    if |p| == 0 then [] else Stuff(p[0]) + StuffAll(p[1..])
  }

  /** A complete frame: END, the stuffed payload, END. */
  function Encode(p: seq<bv8>): (r: seq<bv8>)
    ensures |r| == |StuffAll(p)| + 2 && r[0] == END && r[|r| - 1] == END
  {
    [END] + StuffAll(p) + [END]
  }

  /** No raw END, and every ESC is immediately followed by ESC_END or ESC_ESC. */
  predicate Stuffed(q: seq<bv8>) {
    (forall i :: 0 <= i < |q| ==> q[i] != END)
    && (forall i :: 0 <= i < |q| && q[i] == ESC ==> i + 1 < |q| && (q[i + 1] == ESC_END || q[i + 1] == ESC_ESC))
  }

  lemma {:induction false} StuffAllAppend(a: seq<bv8>, b: seq<bv8>)
    ensures StuffAll(a + b) == StuffAll(a) + StuffAll(b)
  {
    if |a| == 0 {
      assert a + b == b;
    } else {
      assert (a + b)[0] == a[0];
      assert (a + b)[1..] == a[1..] + b;
      StuffAllAppend(a[1..], b);
    }
  }

  lemma {:induction false} StuffAllIsStuffed(p: seq<bv8>)
    ensures Stuffed(StuffAll(p))
  {
    if |p| > 0 {
      StuffAllIsStuffed(p[1..]);
      var h, t := Stuff(p[0]), StuffAll(p[1..]);
      assert StuffAll(p) == h + t;
      forall i | 0 <= i < |h + t| && (h + t)[i] == ESC
        ensures i + 1 < |h + t| && ((h + t)[i + 1] == ESC_END || (h + t)[i + 1] == ESC_ESC)
      {
        if i >= |h| {
          assert (h + t)[i] == t[i - |h|];
          assert (h + t)[i + 1] == t[i + 1 - |h|];
        }
      }
    }
  }

  /** The payload of an encoded frame contains no frame delimiter. */
  lemma EncodeDelimitsFrame(p: seq<bv8>)
    ensures Stuffed(Encode(p)[1..|Encode(p)| - 1])
    ensures forall i :: 0 < i < |Encode(p)| - 1 ==> Encode(p)[i] != END
  {
    assert Encode(p)[1..|Encode(p)| - 1] == StuffAll(p);
    StuffAllIsStuffed(p);
  }

  /**
   * What a transmission handed to the sink: the bytes in call order, and the value
   * `slip_tx` returns.
   */
  datatype TxResult = TxResult(sent: seq<bv8>, ret: int)

  /**
   * Send one payload byte. `sink(n)` is the result of the n-th call of the transmit
   * function; when the first half of an escape pair fails, the second half is skipped.
   */
  function TxByte(c: bv8, sink: nat -> int, n: nat): (r: TxResult)
    ensures 1 <= |r.sent| <= |Stuff(c)| && r.sent == Stuff(c)[..|r.sent|]
    ensures r.ret == sink(n + |r.sent| - 1)
    ensures |r.sent| < |Stuff(c)| <==> |Stuff(c)| == 2 && sink(n) != 0
  {
    if c == ESC || c == END then
      var second := if c == ESC then ESC_ESC else ESC_END;
      if sink(n) != 0 then TxResult([ESC], sink(n))
      else TxResult([ESC, second], sink(n + 1))
    else
      TxResult([c], sink(n))
  }

  /** Every call numbered `lo <= i < hi` succeeds. */
  predicate Accepts(sink: nat -> int, lo: nat, hi: nat) {
    forall i: nat :: lo <= i < hi ==> sink(i) == 0
  }

  /** Send the payload bytes, the first call being number `n`; `ret` is the value so far. */
  function TxPayload(p: seq<bv8>, sink: nat -> int, n: nat, ret: int): (r: TxResult)
    ensures |p| <= |r.sent| <= |StuffAll(p)|
    ensures |p| == 0 ==> r.ret == ret
    ensures |p| > 0 ==> r.ret == sink(n + |r.sent| - 1)
    ensures Accepts(sink, n, n + |StuffAll(p)|) ==> r.sent == StuffAll(p)
    decreases |p|
  {
    if |p| == 0 then
      TxResult([], ret)
    else
      var b := TxByte(p[0], sink, n);
      var rest := TxPayload(p[1..], sink, n + |b.sent|, b.ret);
      TxResult(b.sent + rest.sent, rest.ret)
  }

  /**
   * `slip_tx`: END, the stuffed payload, END. The results of the two END calls are
   * ignored and the value returned is the result of the last payload call (0 for an
   * empty payload), so an earlier failure is overwritten by later successes.
   */
  function Tx(p: seq<bv8>, sink: nat -> int): (r: TxResult)
    ensures |r.sent| >= 2 && r.sent[0] == END && r.sent[|r.sent| - 1] == END
    ensures |p| == 0 ==> r == TxResult([END, END], 0)
    ensures |p| > 0 ==> r.ret == sink(|r.sent| - 2)
    ensures r.ret == 0 || exists k: nat :: 0 < k < |r.sent| - 1 && r.ret == sink(k)
    ensures Accepts(sink, 1, |Encode(p)| - 1) ==> r == TxResult(Encode(p), 0)
  {
    var body := TxPayload(p, sink, 1, 0);
    TxResult([END] + body.sent + [END], body.ret)
  }

  /** A failed middle byte is masked when the following byte is sent successfully. */
  lemma TxMasksEarlierFailure()
    ensures var sink := (i: nat) => if i == 1 then -1 else 0;
            Tx([0x01, 0x02], sink) == TxResult([END, 0x01, 0x02, END], 0)
  {
  }

  /** When the ESC of an escape pair fails, its second half is never offered to the sink. */
  lemma TxSkipsSecondHalf()
    ensures var sink := (i: nat) => if i == 1 then -1 else 0;
            Tx([ESC], sink) == TxResult([END, ESC, END], -1)
  {
  }

  // ---------------------------------------------------------------------------------------
  // Feeding a byte stream to the receiver
  // ---------------------------------------------------------------------------------------

  /** Outcome of feeding bytes until the status leaves `InProgress` or the input ends. */
  datatype Run = Run(state: RxState, status: RxStatus, consumed: nat)

  function Feed(s: RxState, input: seq<bv8>): (r: Run)
    requires s.Valid()
    ensures r.state.Valid() && |r.state.buffer| == |s.buffer|
    ensures r.consumed <= |input|
    ensures r.status == InProgress ==> r.consumed == |input|
    decreases |input|
  {
    if |input| == 0 then
      Run(s, InProgress, 0)
    else
      var step := Rx(s, input[0]);
      if step.status != InProgress then
        Run(step.state, step.status, 1)
      else
        var r := Feed(step.state, input[1..]);
        Run(r.state, r.status, r.consumed + 1)
  }

  /**
   * Feeding stops at the first byte whose status is not `InProgress`: every shorter
   * prefix leaves the receiver in progress, and the last consumed byte, fed to the state
   * that prefix leaves, gives the run's final state and status.
   */
  lemma {:induction false} FeedStopsFirst(s: RxState, input: seq<bv8>)
    requires s.Valid()
    ensures var r := Feed(s, input);
            r.status != InProgress ==>
              0 < r.consumed
              && Feed(s, input[..r.consumed - 1]).status == InProgress
              && Feed(s, input[..r.consumed - 1]).consumed == r.consumed - 1
              && Rx(Feed(s, input[..r.consumed - 1]).state, input[r.consumed - 1]) == Step(r.state, r.status)
    decreases |input|
  {
    var r := Feed(s, input);
    if |input| > 0 && r.status != InProgress {
      var step := Rx(s, input[0]);
      if step.status == InProgress {
        var rest := input[1..];
        FeedStopsFirst(step.state, rest);
        var k := r.consumed - 1;
        var inner := Feed(step.state, rest);
        assert k == inner.consumed && 0 < k;
        var pre := input[..k];
        assert pre[0] == input[0] && pre[1..] == rest[..k - 1];
        assert Feed(s, pre) == Run(Feed(step.state, rest[..k - 1]).state,
                                   Feed(step.state, rest[..k - 1]).status,
                                   Feed(step.state, rest[..k - 1]).consumed + 1);
        assert input[k] == rest[k - 1];
      } else {
        assert input[..0] == [];
      }
    }
  }


  /** `s` after the bytes `q` have been stored behind its packet. */
  function Stored(s: RxState, q: seq<bv8>): (r: RxState)
    requires s.Valid() && s.length + |q| <= |s.buffer|
    ensures r.Valid() && r.Packet() == s.Packet() + q && |r.buffer| == |s.buffer| && !r.escape
  {
    RxState(s.buffer[..s.length] + q + s.buffer[s.length + |q|..], s.length + |q|, false)
  }

  lemma StoredTwice(s: RxState, c: bv8, q: seq<bv8>)
    requires s.Valid() && s.length + 1 + |q| <= |s.buffer|
    ensures Stored(Stored(s, [c]), q) == Stored(s, [c] + q)
  {
    var s1 := Stored(s, [c]);
    assert s1.buffer[..s1.length] == s.buffer[..s.length] + [c];
    assert s1.buffer[s1.length + |q|..] == s.buffer[s.length + 1 + |q|..];
  }

  /** Feeding one stuffed byte with room in the buffer stores it and keeps going. */
  lemma FeedStuffOne(s: RxState, c: bv8, rest: seq<bv8>)
    requires s.Valid() && !s.escape && s.length < |s.buffer|
    ensures var r := Feed(Stored(s, [c]), rest);
            Feed(s, Stuff(c) + rest) == Run(r.state, r.status, r.consumed + |Stuff(c)|)
  {
    if |Stuff(c)| == 2 {
      FeedEscapedPair(s, c, rest);
    } else {
      FeedPlainByte(s, c, rest);
    }
  }

  lemma FeedPlainByte(s: RxState, c: bv8, rest: seq<bv8>)
    requires s.Valid() && !s.escape && s.length < |s.buffer| && |Stuff(c)| == 1
    ensures var r := Feed(Stored(s, [c]), rest);
            Feed(s, Stuff(c) + rest) == Run(r.state, r.status, r.consumed + 1)
  {
    var input := Stuff(c) + rest;
    assert input[0] == c;
    assert input[1..] == rest;
    assert Rx(s, c) == Step(Stored(s, [c]), InProgress);
  }

  lemma FeedEscapedPair(s: RxState, c: bv8, rest: seq<bv8>)
    requires s.Valid() && !s.escape && s.length < |s.buffer| && |Stuff(c)| == 2
    ensures var r := Feed(Stored(s, [c]), rest);
            Feed(s, Stuff(c) + rest) == Run(r.state, r.status, r.consumed + 2)
  {
    var input := Stuff(c) + rest;
    var s1 := s.(escape := true);
    assert input[0] == ESC;
    assert Rx(s, ESC) == Step(s1, InProgress);
    assert input[1..] == [Stuff(c)[1]] + rest;
    assert input[1..][1..] == rest;
    assert Rx(s1, Stuff(c)[1]) == Step(Stored(s, [c]), InProgress);
  }

  /** Feeding a stuffed payload that fits stores it without leaving `InProgress`. */
  lemma {:induction false} FeedStuffed(s: RxState, q: seq<bv8>, rest: seq<bv8>)
    requires s.Valid() && !s.escape && s.length + |q| <= |s.buffer|
    ensures var r := Feed(Stored(s, q), rest);
            Feed(s, StuffAll(q) + rest) == Run(r.state, r.status, r.consumed + |StuffAll(q)|)
    decreases |q|
  {
    if |q| == 0 {
      assert StuffAll(q) + rest == rest;
      assert Stored(s, q) == s;
    } else {
      var s1 := Stored(s, [q[0]]);
      var tail := StuffAll(q[1..]) + rest;
      assert StuffAll(q) + rest == Stuff(q[0]) + tail;
      FeedStuffOne(s, q[0], tail);
      FeedStuffed(s1, q[1..], rest);
      StoredTwice(s, q[0], q[1..]);
      assert [q[0]] + q[1..] == q;
    }
  }

  /**
   * Round trip: a fresh (or reset) receiver fed an encoded non-empty packet that fits
   * reports `Complete` exactly at the closing END, holding the packet.
   */
  lemma RoundTrip(buffer: seq<bv8>, p: seq<bv8>, rest: seq<bv8>)
    requires 0 < |p| <= |buffer|
    ensures var r := Feed(Init(buffer), Encode(p) + rest);
            r.status == Complete && r.consumed == |Encode(p)| && r.state.Packet() == p
            && r.state.buffer[|p|..] == buffer[|p|..]
  {
    var s := Init(buffer);
    var input := Encode(p) + rest;
    assert Rx(s, END) == Step(s, InProgress);
    assert input[1..] == StuffAll(p) + ([END] + rest);
    FeedStuffed(s, p, [END] + rest);
    var s' := Stored(s, p);
    assert Rx(s', END) == Step(s', Complete);
  }

  /** An empty frame (two adjacent ENDs) is silently skipped. */
  lemma EmptyFrameIgnored(buffer: seq<bv8>)
    ensures Feed(Init(buffer), Encode([])) == Run(Init(buffer), InProgress, 2)
  {
    assert Encode([]) == [END, END];
  }

  /** A packet longer than the buffer never completes: the receiver hits the buffer limit. */
  lemma OverlongHitsLimit(buffer: seq<bv8>, p: seq<bv8>, rest: seq<bv8>)
    requires |p| > |buffer|
    ensures Feed(Init(buffer), Encode(p) + rest).status == BufferLimit
  {
    var s := Init(buffer);
    var n := |buffer|;
    var after := StuffAll(p[n + 1..]) + ([END] + rest);
    EncodeAt(p, n, rest);
    assert Rx(s, END) == Step(s, InProgress);
    FeedStuffed(s, p[..n], Stuff(p[n]) + after);
    FullBufferRejects(Stored(s, p[..n]), p[n], after);
  }

  /** An encoded frame split at payload position `n`. */
  lemma EncodeAt(p: seq<bv8>, n: nat, rest: seq<bv8>)
    requires n < |p|
    ensures var input := Encode(p) + rest;
            input[0] == END
            && input[1..] == StuffAll(p[..n]) + (Stuff(p[n]) + (StuffAll(p[n + 1..]) + ([END] + rest)))
  {
    StuffAllAt(p, n);
    FrameTail(StuffAll(p), rest);
    Regroup(StuffAll(p[..n]), Stuff(p[n]), StuffAll(p[n + 1..]), [END] + rest);
  }

  lemma FrameTail(body: seq<bv8>, rest: seq<bv8>)
    ensures ([END] + body + [END] + rest)[1..] == body + ([END] + rest)
  {
  }

  lemma Regroup(a: seq<bv8>, b: seq<bv8>, c: seq<bv8>, d: seq<bv8>)
    ensures (a + (b + c)) + d == a + (b + (c + d))
  {
  }

  /** The stuffed payload split around the byte at position `n`. */
  lemma StuffAllAt(p: seq<bv8>, n: nat)
    requires n < |p|
    ensures StuffAll(p) == StuffAll(p[..n]) + (Stuff(p[n]) + StuffAll(p[n + 1..]))
  {
    assert p == p[..n] + p[n..];
    StuffAllAppend(p[..n], p[n..]);
    assert p[n..][1..] == p[n + 1..];
  }

  /** With the buffer full, the next stuffed byte reports `BufferLimit`. */
  lemma FullBufferRejects(s: RxState, c: bv8, rest: seq<bv8>)
    requires s.Valid() && !s.escape && s.length == |s.buffer|
    ensures Feed(s, Stuff(c) + rest).status == BufferLimit
  {
    var input := Stuff(c) + rest;
    if |Stuff(c)| == 2 {
      assert input[0] == ESC;
      assert input[1..][0] == Stuff(c)[1];
      assert Rx(s.(escape := true), Stuff(c)[1]).status == BufferLimit;
    } else {
      assert input[0] == c;
      assert Rx(s, c).status == BufferLimit;
    }
  }
}
