/**
 * The `tcp_keepalive` command: configures the device's TCP keepalive offload. Every
 * parameter is optional; each one given is range-checked, stored in the 18-byte payload
 * and announced by its bit in `set_cfgs`, so the device changes only those settings.
 */
module TcpKeepalive {
  import opened Wrappers
  import opened Bytes
  import opened CliArgs

  const PERIOD_MAX: int := 65535
  const RETRY_COUNT_MAX: int := 255
  const RETRY_INTERVAL_MAX: int := 255
  /** The size of the packed payload. */
  const PAYLOAD_LEN: nat := 18
  /** Every failure before the command is sent returns this. */
  const FAILED: int := -1
  /** How many parameters carry a `set_cfgs` bit. */
  const SETTINGS: nat := 7

  /** The command-line arguments; `enable` is the matched `enable`/`disable` word. */
  datatype Args = Args(enable: Option<string>, period: Option<Int32>, retryCount: Option<Int32>,
                       retryInterval: Option<Int32>, src: IpArg, dest: IpArg,
                       srcPort: Option<Int32>, destPort: Option<Int32>)

  /** The payload, field by field. */
  datatype Cmd = Cmd(enabled: bv8, retryCount: bv8, retryInterval: bv8, setCfgs: bv8, srcIp: bv32,
                     destIp: bv32, srcPort: u16, destPort: u16, period: u16)

  /** How many parameters were given, the enable word included. */
  function ArgCount(a: Args): (n: nat)
    ensures n == 0 <==> a.enable.None? && a.period.None? && a.retryCount.None?
                        && a.retryInterval.None? && a.src.NoIp? && a.dest.NoIp?
                        && a.srcPort.None? && a.destPort.None?
  {
    Given(a.enable) + Given(a.period) + Given(a.retryCount) + Given(a.retryInterval)
    + GivenIp(a.src) + GivenIp(a.dest) + Given(a.srcPort) + Given(a.destPort)
  }

  /** Which of the seven settings were supplied, in `set_cfgs` bit order. */
  function Supplied(a: Args): (s: seq<bool>)
    ensures |s| == SETTINGS
  {
    [a.period.Some?, a.retryCount.Some?, a.retryInterval.Some?, !a.src.NoIp?, !a.dest.NoIp?,
     a.srcPort.Some?, a.destPort.Some?]
  }

  /** `BIT(k)` for a byte. */
  function BitMask(k: nat): (m: bv8)
    requires k < 8
    ensures m == (1 as bv8) << k
  {
    match k
    case 0 => 0x01
    case 1 => 0x02
    case 2 => 0x04
    case 3 => 0x08
    case 4 => 0x10
    case 5 => 0x20
    case 6 => 0x40
    case 7 => 0x80
  }

  /** Bit `k` of a byte. */
  predicate BitSet(v: bv8, k: nat)
    requires k < 8
  {
    v & BitMask(k) != 0
  }

  /** An optional integer is absent or within `[lo, hi]`. */
  predicate InRange(o: Option<int>, lo: int, hi: int) {
    o.None? || lo <= o.value <= hi
  }

  /** Enable word, period, retry count and retry interval are acceptable. */
  predicate SettingsOk(a: Args) {
    InRange(a.period, 1, PERIOD_MAX) && InRange(a.retryCount, 0, RETRY_COUNT_MAX)
    && InRange(a.retryInterval, 1, RETRY_INTERVAL_MAX)
  }

  /** Addresses parse and no port exceeds 65535. */
  predicate EndpointsOk(a: Args) {
    a.src != BadIp && a.dest != BadIp && PortOk(a.srcPort) && PortOk(a.destPort)
  }

  /** The arguments the handler accepts. */
  predicate Valid(a: Args) {
    ArgCount(a) > 0 && SettingsOk(a) && EndpointsOk(a)
  }

  /** The `enabled` byte: 1 for the word `enable`, otherwise the zero left by `memset`. */
  function Enabled(word: Option<string>): (r: bv8)
    ensures r == 1 <==> word == Some("enable")
    ensures r == 0 || r == 1
  {
    if word.Some? && word.value == "enable" then 1
    else if word.Some? && word.value == "disable" then 0
    else 0
  }

  /** `set_cfgs |= bit` when `on`. */
  function Mark(cfgs: bv8, on: bool, k: nat): bv8
    requires k < 8
  {
    if on then cfgs | BitMask(k) else cfgs
  }

  /** `set_cfgs` as the handler leaves it: one bit per supplied setting. */
  function CfgBits(a: Args): bv8 {
    var s := Supplied(a);
    Mark(Mark(Mark(Mark(Mark(Mark(Mark(0, s[0], 0), s[1], 1), s[2], 2), s[3], 3), s[4], 4), s[5], 5), s[6], 6)
  }

  /** Bit `k` of `set_cfgs` is set exactly when the `k`-th setting was supplied; bit 7 never is. */
  lemma CfgBitsSupplied(a: Args)
    ensures forall k :: 0 <= k < SETTINGS ==> (BitSet(CfgBits(a), k) <==> Supplied(a)[k])
    ensures !BitSet(CfgBits(a), 7)
  {
    var s := Supplied(a);
    var c := CfgBits(a);
    forall k | 0 <= k < SETTINGS
      ensures BitSet(c, k) <==> s[k]
    {
      MarkBits(a, k);
    }
    MarkBits(a, 7);
  }

  lemma MarkBits(a: Args, k: nat)
    requires k < 8
    ensures BitSet(CfgBits(a), k) <==> k < SETTINGS && Supplied(a)[k]
  {
    var s := Supplied(a);
    MarkOne(0, s[0], 0, k);
    MarkOne(Mark(0, s[0], 0), s[1], 1, k);
    MarkOne(Mark(Mark(0, s[0], 0), s[1], 1), s[2], 2, k);
    MarkOne(Mark(Mark(Mark(0, s[0], 0), s[1], 1), s[2], 2), s[3], 3, k);
    MarkOne(Mark(Mark(Mark(Mark(0, s[0], 0), s[1], 1), s[2], 2), s[3], 3), s[4], 4, k);
    MarkOne(Mark(Mark(Mark(Mark(Mark(0, s[0], 0), s[1], 1), s[2], 2), s[3], 3), s[4], 4), s[5], 5, k);
    MarkOne(Mark(Mark(Mark(Mark(Mark(Mark(0, s[0], 0), s[1], 1), s[2], 2), s[3], 3), s[4], 4), s[5], 5),
            s[6], 6, k);
    assert !BitSet(0, k);
  }

  /** Marking bit `j` sets bit `j` when `on` and leaves every other bit alone. */
  lemma MarkOne(cfgs: bv8, on: bool, j: nat, k: nat)
    requires j < 8 && k < 8
    ensures BitSet(Mark(cfgs, on, j), k) <==> BitSet(cfgs, k) || (on && j == k)
  {
  }

  /** The period check and store: 1 to 65535 seconds, marked by bit 0. */
  function Period(a: Args, cmd: Cmd): (r: Result<Cmd, int>)
    ensures r.Success? <==> InRange(a.period, 1, PERIOD_MAX)
    ensures r.Failure? ==> r.error == FAILED
    ensures r.Success? && a.period.None? ==> r.value == cmd
    ensures r.Success? && a.period.Some? ==>
              r.value == cmd.(period := a.period.value, setCfgs := Mark(cmd.setCfgs, true, 0))
  {
    if a.period.None? then Success(cmd)
    else if a.period.value < 1 || a.period.value > PERIOD_MAX then Failure(FAILED)
    else Success(cmd.(period := Trunc16(a.period.value), setCfgs := Mark(cmd.setCfgs, true, 0)))
  }

  /** The retry count check and store: 0 to 255, marked by bit 1. */
  function RetryCount(a: Args, cmd: Cmd): (r: Result<Cmd, int>)
    ensures r.Success? <==> InRange(a.retryCount, 0, RETRY_COUNT_MAX)
    ensures r.Failure? ==> r.error == FAILED
    ensures r.Success? ==> r.value == cmd.(retryCount := r.value.retryCount,
                                          setCfgs := Mark(cmd.setCfgs, a.retryCount.Some?, 1))
    ensures r.Success? ==> r.value.retryCount as int == if a.retryCount.Some? then a.retryCount.value
                                                        else cmd.retryCount as int
  {
    if a.retryCount.None? then Success(cmd)
    else if a.retryCount.value < 0 || a.retryCount.value > RETRY_COUNT_MAX then Failure(FAILED)
    else Success(cmd.(retryCount := Trunc8(a.retryCount.value), setCfgs := Mark(cmd.setCfgs, true, 1)))
  }

  /** The retry interval check and store: 1 to 255 seconds, marked by bit 2. */
  function RetryInterval(a: Args, cmd: Cmd): (r: Result<Cmd, int>)
    ensures r.Success? <==> InRange(a.retryInterval, 1, RETRY_INTERVAL_MAX)
    ensures r.Failure? ==> r.error == FAILED
    ensures r.Success? ==> r.value == cmd.(retryInterval := r.value.retryInterval,
                                          setCfgs := Mark(cmd.setCfgs, a.retryInterval.Some?, 2))
    ensures r.Success? ==> r.value.retryInterval as int == if a.retryInterval.Some? then a.retryInterval.value
                                                           else cmd.retryInterval as int
  {
    if a.retryInterval.None? then Success(cmd)
    else if a.retryInterval.value < 1 || a.retryInterval.value > RETRY_INTERVAL_MAX then Failure(FAILED)
    else Success(cmd.(retryInterval := Trunc8(a.retryInterval.value), setCfgs := Mark(cmd.setCfgs, true, 2)))
  }

  /** Retry count then retry interval, on a payload whose retry bytes are still clear. */
  function Retries(a: Args, cmd: Cmd): (r: Result<Cmd, int>)
    requires cmd.retryCount == 0 && cmd.retryInterval == 0
    ensures r.Success? <==> InRange(a.retryCount, 0, RETRY_COUNT_MAX) && InRange(a.retryInterval, 1, RETRY_INTERVAL_MAX)
    ensures r.Failure? ==> r.error == FAILED
    ensures r.Success? ==>
              r.value == cmd.(retryCount := r.value.retryCount, retryInterval := r.value.retryInterval,
                              setCfgs := Mark(Mark(cmd.setCfgs, a.retryCount.Some?, 1), a.retryInterval.Some?, 2))
              && r.value.retryCount as int == OrZero(a.retryCount)
              && r.value.retryInterval as int == OrZero(a.retryInterval)
  {
    match RetryCount(a, cmd)
    case Failure(e) => Failure(e)
    case Success(c) => RetryInterval(a, c)
  }

  /** Period, retry count and retry interval, each checked and marked. */
  function Settings(a: Args, cmd: Cmd): (r: Result<Cmd, int>)
    requires cmd == Cmd(Enabled(a.enable), 0, 0, 0, 0, 0, 0, 0, 0)
    ensures r.Success? <==> SettingsOk(a)
    ensures r.Failure? ==> r.error == FAILED
    ensures r.Success? ==> r.value.enabled == Enabled(a.enable) && r.value.period == Stored16(a.period)
    ensures r.Success? ==> r.value.retryCount as int == OrZero(a.retryCount)
                           && r.value.retryInterval as int == OrZero(a.retryInterval)
    ensures r.Success? ==> r.value.setCfgs == Mark(Mark(Mark(0, a.period.Some?, 0), a.retryCount.Some?, 1),
                                                   a.retryInterval.Some?, 2)
    ensures r.Success? ==> r.value.srcIp == 0 && r.value.destIp == 0
                           && r.value.srcPort == 0 && r.value.destPort == 0
  {
    match Period(a, cmd)
    case Failure(e) => Failure(e)
    case Success(c1) =>
      Retries(a, c1)
  }

  /** Source and destination addresses, then the two ports, each checked and marked. */
  function Endpoints(a: Args, cmd: Cmd): (r: Result<Cmd, int>)
    requires cmd.srcIp == 0 && cmd.destIp == 0 && cmd.srcPort == 0 && cmd.destPort == 0
    ensures r.Success? <==> EndpointsOk(a)
    ensures r.Failure? ==> r.error == FAILED
    ensures r.Success? ==> r.value == cmd.(srcIp := StoredIp(a.src), destIp := StoredIp(a.dest),
                                          srcPort := Stored16(a.srcPort), destPort := Stored16(a.destPort),
                                          setCfgs := Mark(Mark(Mark(Mark(cmd.setCfgs, !a.src.NoIp?, 3),
                                                                    !a.dest.NoIp?, 4), a.srcPort.Some?, 5),
                                                          a.destPort.Some?, 6))
  {
    if a.src.BadIp? then Failure(FAILED)
    else
      var cmd := if a.src.Ip? then cmd.(srcIp := a.src.addr, setCfgs := Mark(cmd.setCfgs, true, 3)) else cmd;
      if a.dest.BadIp? then Failure(FAILED)
      else
        var cmd := if a.dest.Ip? then cmd.(destIp := a.dest.addr, setCfgs := Mark(cmd.setCfgs, true, 4)) else cmd;
        if a.srcPort.Some? && a.srcPort.value > PORT_MAX then Failure(FAILED)
        else
          var cmd := if a.srcPort.Some?
                     then cmd.(srcPort := Trunc16(a.srcPort.value), setCfgs := Mark(cmd.setCfgs, true, 5))
                     else cmd;
          if a.destPort.Some? && a.destPort.value > PORT_MAX then Failure(FAILED)
          else
            var cmd := if a.destPort.Some?
                       then cmd.(destPort := Trunc16(a.destPort.value), setCfgs := Mark(cmd.setCfgs, true, 6))
                       else cmd;
            Success(cmd)
  }

  const PORT_MAX: int := 65535

  /**
   * The checks and stores of `tcp_keepalive()` in the order the handler makes them,
   * starting from the zeroed payload. A failed check ends the run with -1.
   */
  function Validate(a: Args): (r: Result<Cmd, int>)
    ensures r.Success? <==> Valid(a)
    ensures r.Failure? ==> r.error == FAILED
    ensures r.Success? ==> r.value.enabled == Enabled(a.enable) && r.value.setCfgs == CfgBits(a)
    ensures r.Success? ==> r.value.period == Stored16(a.period)
                           && r.value.srcIp == StoredIp(a.src) && r.value.destIp == StoredIp(a.dest)
                           && r.value.srcPort == Stored16(a.srcPort) && r.value.destPort == Stored16(a.destPort)
    ensures r.Success? ==> r.value.retryCount as int == OrZero(a.retryCount)
                           && r.value.retryInterval as int == OrZero(a.retryInterval)
  {
    if ArgCount(a) == 0 then Failure(FAILED) else Checked(a)
  }

  /** A byte setting as the payload holds it: the value given, or the zero of the cleared payload. */
  function OrZero(o: Option<Int32>): int {
    if o.Some? then o.value else 0
  }

  /** The checks after the parameter count: settings first, then endpoints. */
  function Checked(a: Args): (r: Result<Cmd, int>)
    ensures r.Success? <==> SettingsOk(a) && EndpointsOk(a)
    ensures r.Failure? ==> r.error == FAILED
    ensures r.Success? ==> r.value.enabled == Enabled(a.enable) && r.value.setCfgs == CfgBits(a)
    ensures r.Success? ==> r.value.period == Stored16(a.period)
                           && r.value.srcIp == StoredIp(a.src) && r.value.destIp == StoredIp(a.dest)
                           && r.value.srcPort == Stored16(a.srcPort) && r.value.destPort == Stored16(a.destPort)
    ensures r.Success? ==> r.value.retryCount as int == OrZero(a.retryCount)
                           && r.value.retryInterval as int == OrZero(a.retryInterval)
  {
    var zeroed := Cmd(0, 0, 0, 0, 0, 0, 0, 0, 0);
    var cmd := if a.enable.Some? then zeroed.(enabled := Enabled(a.enable)) else zeroed;
    match Settings(a, cmd)
    case Failure(e) => Failure(e)
    case Success(c) =>
      CfgBitsInOrder(a);
      Endpoints(a, c)
  }

  /** `CfgBits` is the handler's sequence of marks, bit 0 first. */
  lemma CfgBitsInOrder(a: Args)
    ensures CfgBits(a) == Mark(Mark(Mark(Mark(Mark(Mark(Mark(0, a.period.Some?, 0), a.retryCount.Some?, 1),
                                                        a.retryInterval.Some?, 2), !a.src.NoIp?, 3),
                                              !a.dest.NoIp?, 4), a.srcPort.Some?, 5), a.destPort.Some?, 6)
  {
  }

  /** The packed payload. The period is written with `htole16`, the ports with `htobe16`. */
  function Encode(c: Cmd): (s: seq<bv8>)
    ensures |s| == PAYLOAD_LEN
    ensures s[..4] == [c.enabled, c.retryCount, c.retryInterval, c.setCfgs]
  {
    [c.enabled, c.retryCount, c.retryInterval, c.setCfgs] + BE32(c.srcIp) + BE32(c.destIp)
    + BE16(c.srcPort) + BE16(c.destPort) + LE16(c.period)
  }

  /** Reading a payload back into its fields, each in the byte order it was written in. */
  function Decode(s: seq<bv8>): Cmd
    requires |s| == PAYLOAD_LEN
  {
    Cmd(s[0], s[1], s[2], s[3], FromBE32(s[4..8]), FromBE32(s[8..12]), FromBE16(s[12..14]),
        FromBE16(s[14..16]), FromLE16(s[16..18]))
  }

  lemma EncodeRoundTrip(c: Cmd)
    ensures Decode(Encode(c)) == c
  {
    var s := Encode(c);
    assert s[4..8] == BE32(c.srcIp);
    assert s[8..12] == BE32(c.destIp);
    assert s[12..14] == BE16(c.srcPort);
    assert s[14..16] == BE16(c.destPort);
    assert s[16..18] == LE16(c.period);
    BE32RoundTrip(c.srcIp);
    BE32RoundTrip(c.destIp);
    BE16RoundTrip(c.srcPort);
    BE16RoundTrip(c.destPort);
    LE16RoundTrip(c.period);
  }

  /**
   * The period field is declared big-endian but written little-endian: read in its
   * declared order it gives the period with its two bytes swapped, so the two readings
   * agree only for periods whose bytes are equal.
   */
  lemma PeriodByteOrder(c: Cmd)
    ensures FromBE16(Encode(c)[16..18]) == (c.period % 0x100) * 0x100 + c.period / 0x100
    ensures FromBE16(Encode(c)[16..18]) == c.period <==> c.period % 0x100 == c.period / 0x100
  {
    var l, h := c.period % 0x100, c.period / 0x100;
    assert Encode(c)[16..18] == LE16(c.period) == [l as bv8, h as bv8];
    ByteRoundTrip(l);
    ByteRoundTrip(h);
    Swapped(l, h);
  }

  lemma Swapped(l: int, h: int)
    requires 0 <= l < 0x100 && 0 <= h < 0x100
    ensures l * 0x100 + h == h * 0x100 + l <==> l == h
  {
  }

  /**
   * `tcp_keepalive()`. `buffers` says whether both buffers were obtained, `reply` is what
   * `morsectrl_send_command` returns for the payload, passed on whatever its sign.
   */
  function Handle(buffers: bool, a: Args, reply: int): (r: Run)
    ensures r.sent.Some? <==> buffers && Valid(a)
    ensures r.sent.None? ==> r.ret == FAILED
    ensures r.sent.Some? ==> r.ret == reply && |r.sent.value| == PAYLOAD_LEN
    ensures r.sent.Some? ==> var c := Decode(r.sent.value);
              c.setCfgs == CfgBits(a) && c.enabled == Enabled(a.enable) && c.period == Stored16(a.period)
              && c.srcIp == StoredIp(a.src) && c.destIp == StoredIp(a.dest)
              && c.srcPort == Stored16(a.srcPort) && c.destPort == Stored16(a.destPort)
              && c.retryCount as int == OrZero(a.retryCount) && c.retryInterval as int == OrZero(a.retryInterval)
  {
    if !buffers then Run(FAILED, None)
    else
      match Validate(a)
      case Failure(e) => Run(e, None)
      case Success(c) =>
        EncodeRoundTrip(c);
        Run(reply, Some(Encode(c)))
  }

  /** With no parameter at all nothing is sent and the handler fails. */
  lemma NoParameters(buffers: bool, reply: int)
    ensures Handle(buffers, Args(None, None, None, None, NoIp, NoIp, None, None), reply) == Run(FAILED, None)
  {
  }

  /** Only the word `enable` switches the offload on. */
  lemma EnableWord(a: Args, reply: int)
    requires Valid(a)
    ensures Handle(true, a, reply).sent.value[0] == 1 <==> a.enable == Some("enable")
    ensures Handle(true, a, reply).sent.value[0] == 0 <==> a.enable != Some("enable")
  {
    var c := Validate(a).value;
    assert Handle(true, a, reply).sent.value == Encode(c);
  }

  /** A valid call marks exactly the supplied settings in the payload's `set_cfgs` byte. */
  lemma SentCfgBits(a: Args, reply: int)
    requires Valid(a)
    ensures var s := Handle(true, a, reply).sent.value;
            (forall k :: 0 <= k < SETTINGS ==> (BitSet(s[3], k) <==> Supplied(a)[k])) && !BitSet(s[3], 7)
  {
    var c := Validate(a).value;
    assert Handle(true, a, reply).sent.value == Encode(c);
    CfgBitsSupplied(a);
  }
}
