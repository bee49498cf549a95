/**
 * The `arp_periodic_refresh` command: makes the device send an ARP request (or a
 * gratuitous ARP) every few seconds. Period 0 switches the feature off; any other
 * period needs a destination address. The 9-byte payload is the period as a native
 * 32-bit integer, the four address octets and the GARP flag.
 */
module ArpPeriodicRefresh {
  import opened Wrappers
  import opened Bytes
  import opened CliArgs

  /** `ARP_REFRESH_MAX_PERIOD_S`: the largest period whose value in milliseconds fits 32 bits. */
  const MAX_PERIOD: int := 0xFFFF_FFFF / 1000
  const EINVAL: int := 22
  /** The size of the packed payload. */
  const PAYLOAD_LEN: nat := 9

  /** An IPv4 address as its four octets, in network order. */
  type Octets = s: seq<bv8> | |s| == 4 witness [0, 0, 0, 0]

  /** A failure code of the address parser: never 0. */
  type ParseError = c: int | c != 0 witness 1

  /** The destination argument after `str_to_ip`: not given, not parsed, or the address. */
  datatype DestArg = NoDest | Unparsed(code: ParseError) | Dest(octets: Octets)

  /** The command-line arguments: `-t` period, `-d` destination and the `-g` flag. */
  datatype Args = Args(period: Option<Int32>, dest: DestArg, garp: bool)

  /** The payload, field by field. */
  datatype Params = Params(periodS: u32, destination: Octets, sendAsGarp: bv8)

  /** A period was given and lies in `[0, MAX_PERIOD]`. */
  predicate PeriodOk(a: Args) {
    a.period.Some? && 0 <= a.period.value <= MAX_PERIOD
  }

  /**
   * The arguments the handler sends: a period from 0 to `MAX_PERIOD`, and a parsed
   * destination unless the period is 0 and no destination was given.
   */
  predicate Valid(a: Args) {
    && PeriodOk(a)
    && !a.dest.Unparsed?
    && (a.dest.NoDest? ==> a.period.value == 0)
  }

  /** The packed payload: the period in host (little-endian) order, the octets, the flag. */
  function Encode(p: Params): (s: seq<bv8>)
    ensures |s| == PAYLOAD_LEN
    ensures s[4..8] == p.destination && s[8] == p.sendAsGarp
  {
    LE32(p.periodS) + p.destination + [p.sendAsGarp]
  }

  function Decode(s: seq<bv8>): Params
    requires |s| == PAYLOAD_LEN
  {
    Params(FromLE32(s[..4]), s[4..8], s[8])
  }

  lemma EncodeRoundTrip(p: Params)
    ensures Decode(Encode(p)) == p
  {
    assert Encode(p)[..4] == LE32(p.periodS);
    LE32RoundTrip(p.periodS);
  }

  /**
   * `arp_periodic_refresh()`. `buffers` says whether both buffers were obtained, `prior`
   * is what the command buffer held where the address goes (the handler does not clear
   * the payload), and `reply` is what `morsectrl_send_command` returns.
   */
  function Handle(buffers: bool, a: Args, prior: Octets, reply: int): (r: Run)
    // without buffers the handler returns its initial 0 and sends nothing
    ensures !buffers ==> r == Run(0, None)
    ensures buffers ==> (r.sent.Some? <==> Valid(a))
    ensures r.sent.Some? ==> r.ret == reply && |r.sent.value| == PAYLOAD_LEN
    ensures r.sent.Some? ==>
              Decode(r.sent.value)
              == Params(a.period.value, if a.dest.Dest? then a.dest.octets else prior, if a.garp then 1 else 0)
    // refusals: EINVAL for the period rules, the parser's own code for a bad address
    ensures buffers && r.sent.None? && a.dest.Unparsed? && PeriodOk(a) ==> r.ret == a.dest.code
    ensures buffers && r.sent.None? && !(a.dest.Unparsed? && PeriodOk(a)) ==> r.ret == EINVAL
  {
    if !buffers then Run(0, None)
    else if a.period.None? then Run(EINVAL, None)
    // the bound is unsigned, so the comparison is made on the value converted to 32 bits
    else if (PeriodBound(a.period.value); Trunc32(a.period.value) > MAX_PERIOD) then Run(EINVAL, None)
    else
      var period := Trunc32(a.period.value);
      match a.dest
      case Unparsed(code) => Run(code, None)
      case NoDest =>
        if period != 0 then Run(EINVAL, None)
        else Send(Params(period, prior, if a.garp then 1 else 0), reply)
      case Dest(octets) => Send(Params(period, octets, if a.garp then 1 else 0), reply)
  }

  /**
   * The unsigned bound on a converted `int`: it holds exactly for the periods from 0 to
   * `MAX_PERIOD`, which convert to themselves; a negative one converts above 2^31.
   */
  lemma PeriodBound(p: Int32)
    ensures Trunc32(p) <= MAX_PERIOD <==> 0 <= p <= MAX_PERIOD
    ensures 0 <= p ==> Trunc32(p) == p
  {
    if p < 0 {
      assert Trunc32(p) == p + 0x1_0000_0000 by {
        assert p == (-1) * 0x1_0000_0000 + (p + 0x1_0000_0000);
      }
    }
  }

  /** Sending a payload: the run returns `reply` and the device receives `Encode(p)`. */
  function Send(p: Params, reply: int): (r: Run)
    ensures r.sent.Some? && |r.sent.value| == PAYLOAD_LEN && Decode(r.sent.value) == p && r.ret == reply
  {
    EncodeRoundTrip(p);
    Run(reply, Some(Encode(p)))
  }

  /** A negative period converts to at least 2^31 and is refused by the bound. */
  lemma NegativePeriodRejected(p: Int32, dest: DestArg, garp: bool, prior: Octets, reply: int)
    requires p < 0
    ensures Handle(true, Args(Some(p), dest, garp), prior, reply) == Run(EINVAL, None)
  {
    assert Trunc32(p) == p + 0x1_0000_0000 by {
      assert p == (-1) * 0x1_0000_0000 + (p + 0x1_0000_0000);
    }
  }

  /** Every period that is sent is still a 32-bit value once converted to milliseconds. */
  lemma MillisecondsFit(a: Args, prior: Octets, reply: int)
    requires Handle(true, a, prior, reply).sent.Some?
    ensures Decode(Handle(true, a, prior, reply).sent.value).periodS * 1000 <= 0xFFFF_FFFF
  {
    var p := Decode(Handle(true, a, prior, reply).sent.value).periodS;
    assert p <= MAX_PERIOD;
    assert MAX_PERIOD * 1000 <= 0xFFFF_FFFF;
  }

  /** Period 0 without an address switches the refresh off and leaves the address bytes as they were. */
  lemma DisableWithoutAddress(garp: bool, prior: Octets, reply: int)
    ensures var r := Handle(true, Args(Some(0), NoDest, garp), prior, reply);
            r.sent.Some? && r.sent.value[..4] == [0, 0, 0, 0] && r.sent.value[4..8] == prior
  {
    var s := Handle(true, Args(Some(0), NoDest, garp), prior, reply).sent.value;
    assert s == Encode(Params(0, prior, if garp then 1 else 0));
    assert LE32(0) == [0, 0, 0, 0];
  }

  /** A non-zero period needs an address. */
  lemma PeriodNeedsAddress(p: Int32, garp: bool, prior: Octets, reply: int)
    requires p != 0
    ensures Handle(true, Args(Some(p), NoDest, garp), prior, reply) == Run(EINVAL, None)
  {
    if p < 0 {
      NegativePeriodRejected(p, NoDest, garp, prior, reply);
    }
  }
}
