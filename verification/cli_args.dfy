/**
 * What the command handlers share: how their optional arguments arrive, how a
 * dotted-quad argument is parsed, and what a handler run leaves behind.
 *
 * The argument parser is outside the model. An optional integer argument is an
 * `Option<Int32>` (`count` 0 or 1, and `ival[0]`), an optional flag is a `bool`, and an
 * optional address is the outcome of `inet_pton` on it.
 */
module CliArgs {
  import opened Wrappers
  import opened Bytes

  /** A C `int`, the type of every integer argument. */
  type Int32 = x: int | -0x8000_0000 <= x < 0x8000_0000

  /**
   * An optional IPv4 argument after `inet_pton`: not given, not an address, or the
   * address. `inet_pton` stores the four octets in network order, so `addr` is the
   * big-endian reading of the stored bytes.
   */
  datatype IpArg = NoIp | BadIp | Ip(addr: bv32)

  /** One handler run: its return value and the payload handed to the device, if any. */
  datatype Run = Run(ret: int, sent: Option<seq<bv8>>)

  /** The `count` of an optional argument. */
  function Given<T>(o: Option<T>): (n: nat)
    ensures n <= 1 && (n == 1 <==> o.Some?)
  {
    if o.Some? then 1 else 0
  }

  function GivenIp(ip: IpArg): (n: nat)
    ensures n <= 1 && (n == 1 <==> !ip.NoIp?)
  {
    if ip.NoIp? then 0 else 1
  }

  /** The ports the handlers accept: only values above 65535 are refused. */
  predicate PortOk(p: Option<int>) {
    p.None? || p.value <= 65535
  }

  /** What `htobe16(ival)` stores for an optional 16-bit field: the low 16 bits, or 0 when absent. */
  function Stored16(p: Option<int>): (r: u16)
    ensures p.None? ==> r == 0
    ensures p.Some? ==> (r - p.value) % 0x1_0000 == 0
    ensures p.Some? && 0 <= p.value <= 65535 ==> r == p.value
  {
    if p.Some? then Trunc16(p.value) else 0
  }

  /** The address a parsed argument stores, or the zero the handler's `memset` left. */
  function StoredIp(ip: IpArg): (r: bv32)
    ensures ip.Ip? ==> r == ip.addr
    ensures !ip.Ip? ==> r == 0
  {
    if ip.Ip? then ip.addr else 0
  }
}
