/**
 * Decoding of off-chip statistics values: fixed-width integers of 1, 2, 4 or 8 bytes read
 * as signed or unsigned quantities, and lookup of a statistics record by its tag.
 *
 * The source copies the bytes into a native integer, so the value is the little-endian
 * reading of the bytes on the little-endian hosts the tool runs on.
 */
module OffchipStatistics {
  import opened Wrappers

  /** `256^n`. */
  function Pow256(n: nat): (r: nat)
    ensures r >= 1
  {
    if n == 0 then 1 else 0x100 * Pow256(n - 1)
  }

  /** The unsigned little-endian value of `s`. */
  function LEValue(s: seq<bv8>): (r: nat)
    ensures r < Pow256(|s|)
  {
    if |s| == 0 then 0 else s[0] as nat + 0x100 * LEValue(s[1..])
  }

  /** The `n` little-endian bytes of `v`. */
  function LEBytes(v: nat, n: nat): (r: seq<bv8>)
    ensures |r| == n
  {
    if n == 0 then [] else [(v % 0x100) as bv8] + LEBytes(v / 0x100, n - 1)
  }

  lemma {:induction false} LERoundTrip(v: nat, n: nat)
    requires v < Pow256(n)
    ensures LEValue(LEBytes(v, n)) == v
  {
    if n > 0 {
      var s := LEBytes(v, n);
      DivBound(v, Pow256(n - 1));
      LERoundTrip(v / 0x100, n - 1);
      assert s[1..] == LEBytes(v / 0x100, n - 1);
      LowByte(v);
    }
  }

  lemma DivBound(v: nat, p: nat)
    requires v < 0x100 * p
    ensures v / 0x100 < p
  {
  }

  lemma LowByte(v: nat)
    ensures ((v % 0x100) as bv8) as nat + 0x100 * (v / 0x100) == v
  {
    var b := v % 0x100;
    assert (b as bv8) as nat == b;
  }

  /** The widths the decoders accept. */
  predicate Supported(size: nat) {
    size == 1 || size == 2 || size == 4 || size == 8
  }

  /** `2^(8 * size)` for a supported width. */
  function Modulus(size: nat): (m: nat)
    requires Supported(size)
    ensures m == Pow256(size)
  {
    assert Pow256(1) == 0x100;
    assert Pow256(2) == 0x1_0000;
    assert Pow256(4) == 0x1_0000_0000 by {
      assert Pow256(3) == 0x100_0000;
    }
    assert Pow256(8) == 0x1_0000_0000_0000_0000 by {
      assert Pow256(4) == 0x1_0000_0000 by {
        assert Pow256(3) == 0x100_0000;
      }
      assert Pow256(5) == 0x100_0000_0000;
      assert Pow256(6) == 0x1_0000_0000_0000;
      assert Pow256(7) == 0x100_0000_0000_0000;
    }
    match size
    case 1 => 0x100
    case 2 => 0x1_0000
    case 4 => 0x1_0000_0000
    case 8 => 0x1_0000_0000_0000_0000
  }

  /** `2^(8 * size - 1)`: the bound of the signed range. */
  function Half(size: nat): int
    requires Supported(size)
  {
    Modulus(size) / 2
  }

  /** `get_unsigned_value_as_uint64`: zero-extension; unsupported widths read nothing and give 0. */
  function Unsigned(buf: seq<bv8>, size: nat): (r: nat)
    requires Supported(size) ==> |buf| >= size
    ensures Supported(size) ==> r < Modulus(size)
    ensures !Supported(size) ==> r == 0
  {
    if Supported(size) then LEValue(buf[..size]) else 0
  }

  /**
   * `get_signed_value_as_int64`: the same bytes read in two's complement, so the value is
   * sign-extended to 64 bits; unsupported widths give 0.
   */
  function Signed(buf: seq<bv8>, size: nat): (r: int)
    requires Supported(size) ==> |buf| >= size
    ensures Supported(size) ==> -Half(size) <= r < Half(size)
    ensures !Supported(size) ==> r == 0
  {
    if Supported(size) then
      var v := Unsigned(buf, size);
      if v < Half(size) then v else v - Modulus(size)
    else 0
  }

  /** The two readings of the same bytes agree modulo `2^(8 * size)`. */
  lemma SignedUnsignedAgree(buf: seq<bv8>, size: nat)
    requires Supported(size) && |buf| >= size
    ensures (Signed(buf, size) - Unsigned(buf, size)) % Modulus(size) == 0
    ensures Signed(buf, size) >= 0 <==> Signed(buf, size) == Unsigned(buf, size)
  {
  }

  /** Encoding a value in `size` bytes and decoding it unsigned gives the value back. */
  lemma UnsignedRoundTrip(v: nat, size: nat)
    requires Supported(size) && v < Modulus(size)
    ensures Unsigned(LEBytes(v, size), size) == v
  {
    LERoundTrip(v, size);
    assert LEBytes(v, size)[..size] == LEBytes(v, size);
  }

  /** Encoding a signed value in two's complement and decoding it signed gives it back. */
  lemma SignedRoundTrip(x: int, size: nat)
    requires Supported(size) && -Half(size) <= x < Half(size)
    ensures Signed(LEBytes(x % Modulus(size), size), size) == x
  {
    var u := x % Modulus(size);
    UnsignedRoundTrip(u, size);
    WrapSmall(x, size);
  }

  /** Reducing a value of the signed range modulo `2^(8 * size)` adds the modulus to negatives only. */
  lemma WrapSmall(x: int, size: nat)
    requires Supported(size) && -Half(size) <= x < Half(size)
    ensures x % Modulus(size) == if x >= 0 then x else x + Modulus(size)
  {
    if size == 1 {
      assert Modulus(size) == 0x100;
    } else if size == 2 {
      assert Modulus(size) == 0x1_0000;
    } else if size == 4 {
      assert Modulus(size) == 0x1_0000_0000;
    } else {
      assert Modulus(size) == 0x1_0000_0000_0000_0000;
    }
  }

  /** One TLV record of the statistics table. */
  datatype StatsRecord = StatsRecord(tag: u16, name: string, data: seq<bv8>)

  type u16 = x: int | 0 <= x < 0x1_0000

  /**
   * `get_stats_offchip`: the index of the first of the `n` records with the tag, or none;
   * without the netlink transport compiled in there are never any records.
   */
  function GetStatsOffchip(netlink: bool, stats: seq<StatsRecord>, n: nat, tag: u16): (r: Option<nat>)
    requires n <= |stats|
    ensures !netlink ==> r.None?
    ensures r.Some? ==> r.value < n && stats[r.value].tag == tag
                        && forall j :: 0 <= j < r.value ==> stats[j].tag != tag
    ensures netlink && r.None? ==> forall j :: 0 <= j < n ==> stats[j].tag != tag
  {
    if !netlink then None else FirstTag(stats[..n], tag)
  }

  function FirstTag(stats: seq<StatsRecord>, tag: u16): (r: Option<nat>)
    ensures r.Some? ==> r.value < |stats| && stats[r.value].tag == tag
                        && forall j :: 0 <= j < r.value ==> stats[j].tag != tag
    ensures r.None? ==> forall j :: 0 <= j < |stats| ==> stats[j].tag != tag
  {
    if |stats| == 0 then None
    else if stats[0].tag == tag then Some(0)
    else
      match FirstTag(stats[1..], tag)
      case None => None
      case Some(i) => Some(i + 1)
  }
}
