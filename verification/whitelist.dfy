/**
 * The `whitelist` command: either clears the device's packet filter or installs one
 * built from link-layer protocol, IP protocol, addresses, netmask and ports. The
 * handler validates the arguments, fills a 20-byte payload and sends it.
 */
module Whitelist {
  import opened Wrappers
  import opened Bytes
  import opened CliArgs

  /** `WHITELIST_FLAGS_CLEAR`. */
  const CLEAR_FLAG: bv8 := 1
  /** The size of the packed payload. */
  const PAYLOAD_LEN: nat := 20
  /** Every failure before the command is sent returns this. */
  const FAILED: int := -1

  /** The command-line arguments: `-c` and the seven filter parameters. */
  datatype Args = Args(clear: bool, llc: Option<Int32>, ipProtocol: Option<Int32>, src: IpArg,
                       dest: IpArg, netmask: IpArg, srcPort: Option<Int32>, destPort: Option<Int32>)

  /** The payload, field by field. */
  datatype Cmd = Cmd(flags: bv8, ipProtocol: bv8, llcProtocol: u16, srcIp: bv32, destIp: bv32,
                     netmask: bv32, srcPort: u16, destPort: u16)

  /** How many filter parameters were given (`-c` not counted). */
  function FilterCount(a: Args): (n: nat)
    ensures n == 0 <==> a.llc.None? && a.ipProtocol.None? && a.src.NoIp? && a.dest.NoIp?
                        && a.netmask.NoIp? && a.srcPort.None? && a.destPort.None?
  {
    Given(a.llc) + Given(a.ipProtocol) + GivenIp(a.src) + GivenIp(a.dest) + GivenIp(a.netmask)
    + Given(a.srcPort) + Given(a.destPort)
  }

  /** The netmask test the handler applies to each address: a non-zero address keeps all its bits under the mask. */
  predicate InsideMask(addr: bv32, mask: bv32) {
    addr == 0 || addr & mask == addr
  }

  /** `-c` stands alone, and a filter names at least one parameter. */
  predicate CountOk(a: Args) {
    if a.clear then FilterCount(a) == 0 else FilterCount(a) > 0
  }

  /** Every address parses, and a netmask comes with an address that lies inside it. */
  predicate AddressesOk(a: Args) {
    && a.src != BadIp && a.dest != BadIp && a.netmask != BadIp
    && (a.netmask.Ip? ==> a.src.Ip? || a.dest.Ip?)
    && (a.netmask.Ip? ==> InsideMask(StoredIp(a.src), a.netmask.addr)
                          && InsideMask(StoredIp(a.dest), a.netmask.addr))
  }

  /** The arguments the handler accepts. */
  predicate Valid(a: Args) {
    CountOk(a) && AddressesOk(a) && PortOk(a.srcPort) && PortOk(a.destPort)
  }

  /** The payload the handler builds for valid arguments. */
  function Expected(a: Args): Cmd {
    Cmd(if a.clear then CLEAR_FLAG else 0, if a.ipProtocol.Some? then Trunc8(a.ipProtocol.value) else 0,
        Stored16(a.llc), StoredIp(a.src), StoredIp(a.dest), StoredIp(a.netmask),
        Stored16(a.srcPort), Stored16(a.destPort))
  }

  /** The parameter count checks, then the clear flag and the two protocol fields. */
  function Counted(a: Args): (r: Result<Cmd, int>)
    ensures r.Success? <==> CountOk(a)
    ensures r.Failure? ==> r.error == FAILED
    ensures r.Success? ==> r.value == Expected(a).(srcIp := 0, destIp := 0, netmask := 0, srcPort := 0, destPort := 0)
  {
    var cmd := Cmd(0, 0, 0, 0, 0, 0, 0, 0);
    var count := FilterCount(a);
    if a.clear && count != 0 then Failure(FAILED)
    else if !a.clear && count == 0 then Failure(FAILED)
    else
      var cmd := if a.clear then cmd.(flags := cmd.flags | CLEAR_FLAG) else cmd;
      var cmd := if a.llc.Some? then cmd.(llcProtocol := Trunc16(a.llc.value)) else cmd;
      var cmd := if a.ipProtocol.Some? then cmd.(ipProtocol := Trunc8(a.ipProtocol.value)) else cmd;
      Success(cmd)
  }

  /** The two addresses, then the netmask and its checks, stored into `cmd`. */
  function Addressed(a: Args, cmd: Cmd): (r: Result<Cmd, int>)
    requires cmd.srcIp == 0 && cmd.destIp == 0 && cmd.netmask == 0
    ensures r.Success? <==> AddressesOk(a)
    ensures r.Failure? ==> r.error == FAILED
    ensures r.Success? ==> r.value == cmd.(srcIp := StoredIp(a.src), destIp := StoredIp(a.dest),
                                          netmask := StoredIp(a.netmask))
  {
    if a.src.BadIp? then Failure(FAILED)
    else
      var cmd := if a.src.Ip? then cmd.(srcIp := a.src.addr) else cmd;
      if a.dest.BadIp? then Failure(FAILED)
      else
        var cmd := if a.dest.Ip? then cmd.(destIp := a.dest.addr) else cmd;
        Masked(a, cmd)
  }

  /** The netmask: it must parse, needs an address, and must cover each non-zero address. */
  function Masked(a: Args, cmd: Cmd): (r: Result<Cmd, int>)
    requires a.src != BadIp && a.dest != BadIp
    requires cmd.srcIp == StoredIp(a.src) && cmd.destIp == StoredIp(a.dest) && cmd.netmask == 0
    ensures r.Success? <==> AddressesOk(a)
    ensures r.Failure? ==> r.error == FAILED
    ensures r.Success? ==> r.value == cmd.(netmask := StoredIp(a.netmask))
  {
    if a.netmask.NoIp? then Success(cmd)
    else if a.netmask.BadIp? then Failure(FAILED)
    else if GivenIp(a.src) == 0 && GivenIp(a.dest) == 0 then Failure(FAILED)
    else
      var cmd := cmd.(netmask := a.netmask.addr);
      if !InsideMask(cmd.srcIp, cmd.netmask) then Failure(FAILED)
      else if !InsideMask(cmd.destIp, cmd.netmask) then Failure(FAILED)
      else Success(cmd)
  }

  /** The two port checks and stores. */
  function Ported(a: Args, cmd: Cmd): (r: Result<Cmd, int>)
    requires cmd.srcPort == 0 && cmd.destPort == 0
    ensures r.Success? <==> PortOk(a.srcPort) && PortOk(a.destPort)
    ensures r.Failure? ==> r.error == FAILED
    ensures r.Success? ==> r.value == cmd.(srcPort := Stored16(a.srcPort), destPort := Stored16(a.destPort))
  {
    if a.srcPort.Some? && a.srcPort.value > 65535 then Failure(FAILED)
    else
      var cmd := if a.srcPort.Some? then cmd.(srcPort := Trunc16(a.srcPort.value)) else cmd;
      if a.destPort.Some? && a.destPort.value > 65535 then Failure(FAILED)
      else
        var cmd := if a.destPort.Some? then cmd.(destPort := Trunc16(a.destPort.value)) else cmd;
        Success(cmd)
  }

  /**
   * The checks and stores of `whitelist()` in the order the handler makes them, starting
   * from the zeroed payload. A failed check ends the run with -1.
   */
  function Validate(a: Args): (r: Result<Cmd, int>)
    ensures r.Failure? ==> r.error == FAILED
    ensures r.Success? ==> r.value == Expected(a)
  {
    match Counted(a)
    case Failure(e) => Failure(e)
    case Success(c1) =>
      match Addressed(a, c1)
      case Failure(e) => Failure(e)
      case Success(c2) => Ported(a, c2)
  }

  /** The handler accepts exactly the valid arguments. */
  lemma ValidateAccepts(a: Args)
    ensures Validate(a).Success? <==> Valid(a)
  {
    if CountOk(a) && AddressesOk(a) {
      assert Counted(a).Success?;
      assert Addressed(a, Counted(a).value).Success?;
    }
  }

  /** The packed payload: two bytes, then every wider field big-endian. */
  function Encode(c: Cmd): (s: seq<bv8>)
    ensures |s| == PAYLOAD_LEN
    ensures s[0] == c.flags && s[1] == c.ipProtocol
  {
    [c.flags, c.ipProtocol] + BE16(c.llcProtocol) + BE32(c.srcIp) + BE32(c.destIp) + BE32(c.netmask)
    + BE16(c.srcPort) + BE16(c.destPort)
  }

  /** Reading a payload back into its fields. */
  function Decode(s: seq<bv8>): Cmd
    requires |s| == PAYLOAD_LEN
  {
    Cmd(s[0], s[1], FromBE16(s[2..4]), FromBE32(s[4..8]), FromBE32(s[8..12]), FromBE32(s[12..16]),
        FromBE16(s[16..18]), FromBE16(s[18..20]))
  }

  lemma EncodeRoundTrip(c: Cmd)
    ensures Decode(Encode(c)) == c
  {
    var s := Encode(c);
    assert s[2..4] == BE16(c.llcProtocol);
    assert s[4..8] == BE32(c.srcIp);
    assert s[8..12] == BE32(c.destIp);
    assert s[12..16] == BE32(c.netmask);
    assert s[16..18] == BE16(c.srcPort);
    assert s[18..20] == BE16(c.destPort);
    BE16RoundTrip(c.llcProtocol);
    BE32RoundTrip(c.srcIp);
    BE32RoundTrip(c.destIp);
    BE32RoundTrip(c.netmask);
    BE16RoundTrip(c.srcPort);
    BE16RoundTrip(c.destPort);
  }

  /**
   * `whitelist()`. `buffers` says whether both buffers were obtained, `reply` is what
   * `morsectrl_send_command` returns for the payload; that value is passed on whatever
   * its sign.
   */
  function Handle(buffers: bool, a: Args, reply: int): (r: Run)
    ensures r.sent.Some? <==> buffers && Valid(a)
    ensures r.sent.None? ==> r.ret == FAILED
    ensures r.sent.Some? ==> r.ret == reply && |r.sent.value| == PAYLOAD_LEN
    ensures r.sent.Some? ==> Decode(r.sent.value) == Expected(a)
  {
    ValidateAccepts(a);
    if !buffers then Run(FAILED, None)
    else
      match Validate(a)
      case Failure(e) => Run(e, None)
      case Success(c) =>
        EncodeRoundTrip(c);
        Run(reply, Some(Encode(c)))
  }

  /** `-c` alone sends flags 1 and nineteen zero bytes. */
  lemma ClearAlone(reply: int)
    ensures Handle(true, Args(true, None, None, NoIp, NoIp, NoIp, None, None), reply)
            == Run(reply, Some([CLEAR_FLAG] + seq(PAYLOAD_LEN - 1, _ => 0)))
  {
    var c := Cmd(CLEAR_FLAG, 0, 0, 0, 0, 0, 0, 0);
    assert Validate(Args(true, None, None, NoIp, NoIp, NoIp, None, None)) == Success(c);
    assert BE16(0) == [0, 0];
    assert BE32(0) == [0, 0, 0, 0];
    assert Encode(c) == [CLEAR_FLAG] + seq(PAYLOAD_LEN - 1, _ => 0);
  }

  /** `-c` with any filter parameter is refused, and nothing is sent. */
  lemma ClearWithFilter(buffers: bool, a: Args, reply: int)
    requires a.clear && FilterCount(a) > 0
    ensures Handle(buffers, a, reply) == Run(FAILED, None)
  {
  }

  /** A netmask with neither address is refused even when everything else is fine. */
  lemma NetmaskNeedsAddress(a: Args, reply: int)
    requires a.netmask.Ip? && a.src.NoIp? && a.dest.NoIp?
    ensures Handle(true, a, reply) == Run(FAILED, None)
  {
  }

  /** The port check has no lower bound: port -1 is accepted and stored as 0xFFFF. */
  lemma NegativePortAccepted(reply: int)
    ensures var r := Handle(true, Args(false, None, None, NoIp, NoIp, NoIp, Some(-1), None), reply);
            r.sent.Some? && r.sent.value[16..18] == [0xFF, 0xFF]
  {
    var a := Args(false, None, None, NoIp, NoIp, NoIp, Some(-1), None);
    var c := Cmd(0, 0, 0, 0, 0, 0, 0xFFFF, 0);
    assert Validate(a) == Success(c);
    assert Encode(c)[16..18] == BE16(0xFFFF);
  }
}
