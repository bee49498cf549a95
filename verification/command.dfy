/**
 * The command envelope: `morsectrl_send_command` stamps the request header into the
 * command buffer, hands both buffers to the transport and turns the status word of the
 * response into its return value.
 *
 * The header structures are declared outside the modelled sources, so their sizes
 * (`Transport.Layout`) and the field offsets (`Fields`) are parameters; every field is
 * little-endian.
 */
module Command {
  import opened Wrappers
  import opened Bytes
  import opened Transport

  const ENOMEM: int := 12
  /** `MORSECTRL_CMD_REQ_FLAG`: bit 0, marks a request. */
  const REQ_FLAG: u16 := 1
  /** A device status that is still a failure but is not reported in debug output. */
  const QUIET_STATUS: int := 110

  /** Offsets of the 16-bit header fields in a command and of the 32-bit response status. */
  datatype Fields = Fields(messageIdAt: nat, lenAt: nat, flagsAt: nat, statusAt: nat)

  /** The fields lie inside their headers and the command fields do not overlap. */
  predicate Fits(f: Fields, layout: Layout) {
    f.messageIdAt + 2 <= layout.commandHeader
    && f.lenAt + 2 <= layout.commandHeader
    && f.flagsAt + 2 <= layout.commandHeader
    && f.statusAt + 4 <= layout.responseHeader
    && Apart(f.messageIdAt, f.lenAt) && Apart(f.messageIdAt, f.flagsAt) && Apart(f.lenAt, f.flagsAt)
  }

  /** Two 16-bit fields at `a` and `b` share no byte. */
  predicate Apart(a: nat, b: nat) {
    a + 2 <= b || b + 2 <= a
  }

  /** The request header as the command carries it. */
  datatype Header = Header(messageId: u16, len: u16, flags: u16)

  /** Byte `i` of the header: the little-endian field covering `i`, zero elsewhere. */
  function HeaderByte(f: Fields, h: Header, i: nat): bv8 {
    if f.messageIdAt <= i < f.messageIdAt + 2 then LE16(h.messageId)[i - f.messageIdAt]
    else if f.lenAt <= i < f.lenAt + 2 then LE16(h.len)[i - f.lenAt]
    else if f.flagsAt <= i < f.flagsAt + 2 then LE16(h.flags)[i - f.flagsAt]
    else 0
  }

  /** Zero the header of `data` and write the fields of `h`; the payload is untouched. */
  function PutHeader(data: seq<bv8>, f: Fields, layout: Layout, h: Header): (r: seq<bv8>)
    requires |data| >= layout.commandHeader
    ensures |r| == |data| && r[layout.commandHeader..] == data[layout.commandHeader..]
  {
    seq(|data|, i requires 0 <= i < |data| => if i < layout.commandHeader then HeaderByte(f, h, i) else data[i])
  }

  /** Read the header fields back. */
  function GetHeader(data: seq<bv8>, f: Fields, layout: Layout): Header
    requires Fits(f, layout) && |data| >= layout.commandHeader
  {
    Header(FromLE16(data[f.messageIdAt..f.messageIdAt + 2]), FromLE16(data[f.lenAt..f.lenAt + 2]),
           FromLE16(data[f.flagsAt..f.flagsAt + 2]))
  }

  /** Writing a header and reading it back gives the same header. */
  lemma HeaderRoundTrip(data: seq<bv8>, f: Fields, layout: Layout, h: Header)
    requires Fits(f, layout) && |data| >= layout.commandHeader
    ensures GetHeader(PutHeader(data, f, layout, h), f, layout) == h
  {
    var r := PutHeader(data, f, layout, h);
    assert r[f.messageIdAt..f.messageIdAt + 2] == LE16(h.messageId);
    assert r[f.lenAt..f.lenAt + 2] == LE16(h.len);
    assert r[f.flagsAt..f.flagsAt + 2] == LE16(h.flags);
    LE16RoundTrip(h.messageId);
    LE16RoundTrip(h.len);
    LE16RoundTrip(h.flags);
  }

  /** Every header byte outside the three fields is zero. */
  lemma HeaderPadding(data: seq<bv8>, f: Fields, layout: Layout, h: Header, i: nat)
    requires Fits(f, layout) && |data| >= layout.commandHeader && i < layout.commandHeader
    requires !(f.messageIdAt <= i < f.messageIdAt + 2) && !(f.lenAt <= i < f.lenAt + 2)
    requires !(f.flagsAt <= i < f.flagsAt + 2)
    ensures PutHeader(data, f, layout, h)[i] == 0
  {
  }

  /** The header for a command buffer holding `dataLen` bytes, header included. */
  function RequestHeader(messageId: int, dataLen: nat, layout: Layout): (h: Header)
    ensures h.flags == REQ_FLAG
    // both fields keep the low 16 bits of the C value
    ensures (h.messageId - messageId) % 0x1_0000 == 0
    ensures (h.len + layout.commandHeader - dataLen) % 0x1_0000 == 0
    ensures dataLen >= layout.commandHeader && dataLen - layout.commandHeader < 0x1_0000 ==>
              h.len + layout.commandHeader == dataLen
  {
    Header(Trunc16(messageId), Trunc16(dataLen - layout.commandHeader), REQ_FLAG)
  }

  /** The status word of a response, as a signed C `int`. */
  function Status(data: seq<bv8>, f: Fields, layout: Layout): int
    requires Fits(f, layout) && |data| >= layout.responseHeader
  {
    ToInt32(FromLE32(data[f.statusAt..f.statusAt + 4]))
  }

  /** A status written by the device as a 32-bit little-endian word reads back unchanged. */
  lemma StatusRoundTrip(data: seq<bv8>, f: Fields, layout: Layout, s: int)
    requires Fits(f, layout) && |data| >= layout.responseHeader
    requires -0x8000_0000 <= s < 0x8000_0000
    requires data[f.statusAt..f.statusAt + 4] == LE32(s % 0x1_0000_0000)
    ensures Status(data, f, layout) == s
  {
    var w := s % 0x1_0000_0000;
    LE32RoundTrip(w);
    assert FromLE32(data[f.statusAt..f.statusAt + 4]) == w;
    ToInt32Wrap(s);
  }

  /** Result of a call: the return value, the command buffer as sent, and whether the transport ran. */
  datatype Sent = Sent(ret: int, cmd: Option<Buff>, transportCalled: bool)

  /**
   * `morsectrl_send_command`. The transport's verdict on the call is `reply`: the value
   * its send callback returns and the response bytes it leaves behind.
   */
  function SendCommand(t: Inst, f: Fields, layout: Layout, messageId: int, cmd: Option<Buff>,
                       resp: Option<Buff>, reply: (int, seq<bv8>)): (r: Sent)
    requires Fits(f, layout) && CanCall(t, Send)
    requires cmd.Some? ==> |cmd.value.data| >= layout.commandHeader
    requires |reply.1| >= layout.responseHeader
    // no buffers: out of memory, and the transport is not involved
    ensures cmd.None? || resp.None? ==> r == Sent(-ENOMEM, cmd, false)
    // otherwise the request header is stamped and the transport called
    ensures cmd.Some? && resp.Some? ==>
              r.transportCalled && r.cmd.Some? && |r.cmd.value.data| == |cmd.value.data|
              && GetHeader(r.cmd.value.data, f, layout)
                 == RequestHeader(messageId, cmd.value.dataLen, layout)
              && r.cmd.value.data[layout.commandHeader..] == cmd.value.data[layout.commandHeader..]
    // a negative transport result is passed on, otherwise the response status is returned
    ensures cmd.Some? && resp.Some? && t.tops.None? ==> r.ret == -ETRANSERR
    ensures cmd.Some? && resp.Some? && t.tops.Some? && reply.0 < 0 ==> r.ret == reply.0
    ensures cmd.Some? && resp.Some? && t.tops.Some? && reply.0 >= 0 ==>
              r.ret == Status(reply.1, f, layout)
  {
    if cmd.None? || resp.None? then Sent(-ENOMEM, cmd, false)
    else
      var c := cmd.value;
      var h := RequestHeader(messageId, c.dataLen, layout);
      var stamped := c.(data := PutHeader(c.data, f, layout, h));
      HeaderRoundTrip(c.data, f, layout, h);
      var ret := match Dispatch(t, Send)
                 case Refuse(code) => code
                 case Forward => reply.0
                 case NullCall => assert false; 0;
      if ret < 0 then Sent(ret, Some(stamped), true)
      else Sent(Status(reply.1, f, layout), Some(stamped), true)
  }

  /**
   * The call succeeds exactly when the transport succeeds and the device reports status
   * 0; in particular status 110 is a failure like any other.
   */
  lemma SuccessIffZeroStatus(t: Inst, f: Fields, layout: Layout, messageId: int, cmd: Buff,
                             resp: Buff, reply: (int, seq<bv8>))
    requires Fits(f, layout) && CanCall(t, Send)
    requires |cmd.data| >= layout.commandHeader && |reply.1| >= layout.responseHeader
    ensures var r := SendCommand(t, f, layout, messageId, Some(cmd), Some(resp), reply);
            r.ret == 0 <==> t.tops.Some? && reply.0 >= 0 && reply.1[f.statusAt..f.statusAt + 4] == [0, 0, 0, 0]
    ensures var r := SendCommand(t, f, layout, messageId, Some(cmd), Some(resp), reply);
            t.tops.Some? && reply.0 >= 0 && Status(reply.1, f, layout) == QUIET_STATUS ==> r.ret == QUIET_STATUS
  {
    ZeroWord(reply.1[f.statusAt..f.statusAt + 4]);
  }

  /** Only the all-zero word decodes to status 0. */
  lemma ZeroWord(s: seq<bv8>)
    requires |s| == 4
    ensures ToInt32(FromLE32(s)) == 0 <==> s == [0, 0, 0, 0]
  {
    ZeroHalf(s[..2]);
    ZeroHalf(s[2..]);
    assert s == s[..2] + s[2..];
  }

  lemma ZeroHalf(s: seq<bv8>)
    requires |s| == 2
    ensures FromLE16(s) == 0 <==> s == [0, 0]
  {
    if FromLE16(s) == 0 {
      assert s[0] as int == 0 && s[1] as int == 0;
    }
  }
}
