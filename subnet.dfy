/**
  Target derivation of the scanner: `calculate_network` of find_device.py.

  An address or a netmask is four octets (`IsQuad`). The network octets are
  `ip & mask`, the broadcast octets `ip | (~mask & 0xff)`, and the targets are
  the first three network octets followed by every last octet strictly between
  the network's and the broadcast's last octets. Only the last octet varies,
  whatever the mask: the model keeps that behaviour of the source.
*/
module Subnet {

  /** Four octets, each in 0..255: a parsed dotted quad. */
  predicate IsQuad(q: seq<nat>)
  {
    |q| == 4 && forall i | 0 <= i < 4 :: q[i] < 256
  }

  /** 2 to the power k. */
  function Pow2(k: nat): (p: nat)
    ensures p >= 1
  {
    if k == 0 then 1 else 2 * Pow2(k - 1)
  }

  /** The low k bits of Python's `a & b`, one bit at a time from the least significant. */
  function AndBits(a: nat, b: nat, k: nat): nat
  {
    if k == 0 then 0
    else 2 * AndBits(a / 2, b / 2, k - 1) + (if a % 2 == 1 && b % 2 == 1 then 1 else 0)
  }

  /** The low k bits of Python's `a | b`. */
  function OrBits(a: nat, b: nat, k: nat): nat
  {
    if k == 0 then 0
    else 2 * OrBits(a / 2, b / 2, k - 1) + (if a % 2 == 1 || b % 2 == 1 then 1 else 0)
  }

  /** Clearing bits never adds: `a & b` is at most `a` and at most `b`. */
  lemma {:induction false} AndBitsBelow(a: nat, b: nat, k: nat)
    ensures AndBits(a, b, k) <= a && AndBits(a, b, k) <= b
  {
    if k > 0 {
      AndBitsBelow(a / 2, b / 2, k - 1);
    }
  }

  /** Setting bits never removes: on k-bit operands, `a | b` is a k-bit value at least `a` and `b`. */
  lemma {:induction false} OrBitsAbove(a: nat, b: nat, k: nat)
    requires a < Pow2(k) && b < Pow2(k)
    ensures a <= OrBits(a, b, k) < Pow2(k) && b <= OrBits(a, b, k)
  {
    if k > 0 {
      OrBitsAbove(a / 2, b / 2, k - 1);
    }
  }

  /**
    On k-bit operands, `x | ~m` exceeds `x & m` by exactly `~m`: the bits
    outside the mask are all ones in one and all zeros in the other.
  */
  lemma {:induction false} HostBitsSpan(x: nat, m: nat, k: nat)
    requires x < Pow2(k) && m < Pow2(k)
    ensures OrBits(x, Pow2(k) - 1 - m, k) - AndBits(x, m, k) == Pow2(k) - 1 - m
  {
    if k > 0 {
      var c := Pow2(k) - 1 - m;
      assert c / 2 == Pow2(k - 1) - 1 - m / 2;
      assert c % 2 == 1 - m % 2;
      HostBitsSpan(x / 2, m / 2, k - 1);
    }
  }

  /** `x & 0` and `0 & y` are zero. */
  lemma {:induction false} AndZero(x: nat, y: nat, k: nat)
    requires x == 0 || y == 0
    ensures AndBits(x, y, k) == 0
  {
    if k > 0 {
      AndZero(x / 2, y / 2, k - 1);
    }
  }

  /** `x | 0` is `x` on k-bit operands. */
  lemma {:induction false} OrZero(x: nat, k: nat)
    requires x < Pow2(k)
    ensures OrBits(x, 0, k) == x
  {
    if k > 0 {
      OrZero(x / 2, k - 1);
    }
  }

  /** `x & (2^k - 1)` is `x` on k-bit operands. */
  lemma {:induction false} AndOnes(x: nat, k: nat)
    requires x < Pow2(k)
    ensures AndBits(x, Pow2(k) - 1, k) == x
  {
    if k > 0 {
      assert (Pow2(k) - 1) / 2 == Pow2(k - 1) - 1;
      AndOnes(x / 2, k - 1);
    }
  }

  /** Python's `a & b` on two octets. */
  function And(a: nat, b: nat): (r: nat)
    requires a < 256 && b < 256
    ensures r <= a && r <= b
  {
    AndBitsBelow(a, b, 8);
    AndBits(a, b, 8)
  }

  /** Python's `a | b` on two octets. */
  function Or(a: nat, b: nat): (r: nat)
    requires a < 256 && b < 256
    ensures r < 256 && a <= r && b <= r
  {
    assert Pow2(8) == 256;
    OrBitsAbove(a, b, 8);
    OrBits(a, b, 8)
  }

  /** `x & 255` is `x` on an octet. */
  lemma AndAllOnes(x: nat)
    requires x < 256
    ensures And(x, 255) == x
  {
    assert Pow2(8) == 256;
    AndOnes(x, 8);
  }

  /**
    Python's `~m & 0xff`. On Python's unbounded integers `~m` is `-m - 1`,
    and `& 0xff` keeps the residue modulo 256 (never negative, as Dafny's `%`).
  */
  function InvertLow(m: int): (r: nat)
    ensures r < 256
    ensures 0 <= m < 256 ==> r == 255 - m
  {
    (-m - 1) % 256
  }

  /** `network_parts`: the octet-wise AND of address and mask. */
  function Network(ip: seq<nat>, mask: seq<nat>): (n: seq<nat>)
    requires IsQuad(ip) && IsQuad(mask)
    ensures IsQuad(n)
    ensures forall i | 0 <= i < 4 :: n[i] <= ip[i] && n[i] <= mask[i]
  {
    [And(ip[0], mask[0]), And(ip[1], mask[1]), And(ip[2], mask[2]), And(ip[3], mask[3])]
  }

  /** `broadcast_parts`: the octet-wise OR of address and inverted mask. */
  function Broadcast(ip: seq<nat>, mask: seq<nat>): (b: seq<nat>)
    requires IsQuad(ip) && IsQuad(mask)
    ensures IsQuad(b)
    ensures forall i | 0 <= i < 4 :: ip[i] <= b[i] && 255 - mask[i] <= b[i]
  {
    [Or(ip[0], InvertLow(mask[0])), Or(ip[1], InvertLow(mask[1])),
     Or(ip[2], InvertLow(mask[2])), Or(ip[3], InvertLow(mask[3]))]
  }

  /** Python's `range(lo, hi)`: the integers from `lo` up to, not including, `hi`. */
  function Range(lo: nat, hi: nat): (r: seq<nat>)
    ensures |r| == if lo < hi then hi - lo else 0
    ensures forall k | 0 <= k < |r| :: r[k] == lo + k
    decreases hi - lo
  {
    if lo >= hi then [] else [lo] + Range(lo + 1, hi)
  }

  /**
    `calculate_network(ip, netmask)`: `network[:3]` followed by each last octet
    of `range(network[3] + 1, (broadcast[3] - 1) + 1)`.
  */
  function CalculateNetwork(ip: seq<nat>, mask: seq<nat>): seq<seq<nat>>
    requires IsQuad(ip) && IsQuad(mask)
  {
    var n, b := Network(ip, mask), Broadcast(ip, mask);
    var start, end := n[3] + 1, b[3] as int - 1;
    var ids := Range(start, end + 1);
    seq(|ids|, k requires 0 <= k < |ids| => n[..3] + [ids[k]])
  }

  // ---------------------------------------------------------------- lemmas

  /** Each network octet is `ip & mask`, each broadcast octet `ip | (255 - mask)`, and network <= ip <= broadcast. */
  lemma NetworkBroadcastOctets(ip: seq<nat>, mask: seq<nat>, i: nat)
    requires IsQuad(ip) && IsQuad(mask) && i < 4
    ensures Network(ip, mask)[i] == And(ip[i], mask[i])
    ensures Broadcast(ip, mask)[i] == Or(ip[i], 255 - mask[i])
    ensures Network(ip, mask)[i] <= ip[i] <= Broadcast(ip, mask)[i] < 256
  {
  }

  /** On one octet, `x | ~m` exceeds `x & m` by exactly `255 - m`. */
  lemma OctetSpan(x: nat, m: nat)
    requires x < 256 && m < 256
    ensures Or(x, 255 - m) - And(x, m) == 255 - m
  {
    assert Pow2(8) == 256;
    HostBitsSpan(x, m, 8);
  }

  /** The broadcast's last octet exceeds the network's by `255 - mask[3]`. */
  lemma LastOctetSpan(ip: seq<nat>, mask: seq<nat>)
    requires IsQuad(ip) && IsQuad(mask)
    ensures Broadcast(ip, mask)[3] - Network(ip, mask)[3] == 255 - mask[3]
  {
    assert Broadcast(ip, mask)[3] == Or(ip[3], 255 - mask[3]);
    OctetSpan(ip[3], mask[3]);
  }

  /** The i-th target is `network[:3]` followed by `network[3] + 1 + i`. */
  lemma TargetAt(ip: seq<nat>, mask: seq<nat>, k: nat)
    requires IsQuad(ip) && IsQuad(mask)
    requires k < |CalculateNetwork(ip, mask)|
    ensures CalculateNetwork(ip, mask)[k] == Network(ip, mask)[..3] + [Network(ip, mask)[3] + 1 + k]
  {
  }

  /** The target list has `max(0, broadcast[3] - network[3] - 1)` entries, i.e. `max(0, 254 - mask[3])`. */
  lemma TargetCount(ip: seq<nat>, mask: seq<nat>)
    requires IsQuad(ip) && IsQuad(mask)
    ensures var n, b := Network(ip, mask), Broadcast(ip, mask);
      |CalculateNetwork(ip, mask)| == if b[3] - n[3] >= 2 then b[3] - n[3] - 1 else 0
    ensures |CalculateNetwork(ip, mask)| == if mask[3] < 254 then 254 - mask[3] else 0
  {
    LastOctetSpan(ip, mask);
  }

  /**
    Membership: an address is a target exactly when it is four octets, it
    starts with `network[:3]`, and its last octet lies strictly between the
    network's and the broadcast's last octets.
  */
  lemma TargetMembership(ip: seq<nat>, mask: seq<nat>, a: seq<nat>)
    requires IsQuad(ip) && IsQuad(mask)
    ensures var n, b := Network(ip, mask), Broadcast(ip, mask);
      a in CalculateNetwork(ip, mask) <==> |a| == 4 && a[..3] == n[..3] && n[3] < a[3] < b[3]
  {
    var n, b := Network(ip, mask), Broadcast(ip, mask);
    var r := CalculateNetwork(ip, mask);
    if |a| == 4 && a[..3] == n[..3] && n[3] < a[3] < b[3] {
      var k := a[3] - n[3] - 1;
      assert r[k] == n[..3] + [a[3]];
      assert a == a[..3] + [a[3]];
    }
  }

  /** Every target is a valid four-octet address. */
  lemma TargetsAreQuads(ip: seq<nat>, mask: seq<nat>, a: seq<nat>)
    requires IsQuad(ip) && IsQuad(mask)
    requires a in CalculateNetwork(ip, mask)
    ensures IsQuad(a)
  {
    TargetMembership(ip, mask, a);
    assert a[..3][0] == a[0] && a[..3][1] == a[1] && a[..3][2] == a[2];
  }

  /** The last octets ascend strictly, so the list holds no address twice. */
  lemma TargetsAscending(ip: seq<nat>, mask: seq<nat>, j: nat, k: nat)
    requires IsQuad(ip) && IsQuad(mask)
    requires j < k < |CalculateNetwork(ip, mask)|
    ensures CalculateNetwork(ip, mask)[j][3] < CalculateNetwork(ip, mask)[k][3]
    ensures CalculateNetwork(ip, mask)[j][..3] == CalculateNetwork(ip, mask)[k][..3]
    ensures CalculateNetwork(ip, mask)[j] != CalculateNetwork(ip, mask)[k]
  {
  }

  /** Neither the network address nor the broadcast address is a target. */
  lemma ExcludesNetworkAndBroadcast(ip: seq<nat>, mask: seq<nat>)
    requires IsQuad(ip) && IsQuad(mask)
    ensures Network(ip, mask) !in CalculateNetwork(ip, mask)
    ensures Broadcast(ip, mask) !in CalculateNetwork(ip, mask)
  {
    TargetMembership(ip, mask, Network(ip, mask));
    TargetMembership(ip, mask, Broadcast(ip, mask));
  }

  /** A last mask octet of 0 gives the 254 hosts `network[:3]` followed by 1 to 254. */
  lemma ZeroLastMaskOctet(ip: seq<nat>, mask: seq<nat>)
    requires IsQuad(ip) && IsQuad(mask) && mask[3] == 0
    ensures var n := Network(ip, mask);
      CalculateNetwork(ip, mask) == seq(254, k => [n[0], n[1], n[2], k + 1])
  {
    var n := Network(ip, mask);
    var r := CalculateNetwork(ip, mask);
    TargetCount(ip, mask);
    AndZero(ip[3], 0, 8);
    forall k | 0 <= k < 254
      ensures r[k] == [n[0], n[1], n[2], k + 1]
    {
      TargetAt(ip, mask, k);
      assert n[..3] + [n[3] + 1 + k] == [n[0], n[1], n[2], k + 1];
    }
  }

  /** With mask 255.255.255.0 the targets are x.y.z.1 up to x.y.z.254. */
  lemma Slash24(ip: seq<nat>)
    requires IsQuad(ip)
    ensures CalculateNetwork(ip, [255, 255, 255, 0]) == seq(254, k => [ip[0], ip[1], ip[2], k + 1])
  {
    var mask := [255, 255, 255, 0];
    var n := Network(ip, mask);
    ZeroLastMaskOctet(ip, mask);
    forall i | 0 <= i < 3
      ensures n[i] == ip[i]
    {
      AndAllOnes(ip[i]);
    }
  }

  /** A last mask octet of 254 or 255 (/31, /32 and the like) leaves no targets. */
  lemma NoTargetsForNarrowMasks(ip: seq<nat>, mask: seq<nat>)
    requires IsQuad(ip) && IsQuad(mask)
    requires mask[3] >= 254
    ensures CalculateNetwork(ip, mask) == []
  {
    TargetCount(ip, mask);
  }

  /** The last octets for 10.0.0.5/255.255.255.252: `5 & 252 == 4` and `5 | (~252 & 0xff) == 7`. */
  lemma LastOctetsOfSlash30()
    ensures And(5, 252) == 4 && Or(5, InvertLow(252)) == 7
  {
    AndZero(0, 31, 5);
    assert AndBits(1, 63, 6) == 2 * AndBits(0, 31, 5) + 1;
    assert AndBits(2, 126, 7) == 2 * AndBits(1, 63, 6);
    assert AndBits(5, 252, 8) == 2 * AndBits(2, 126, 7);
    OrZero(0, 5);
    assert OrBits(1, 0, 6) == 2 * OrBits(0, 0, 5) + 1;
    assert OrBits(2, 1, 7) == 2 * OrBits(1, 0, 6) + 1;
    assert OrBits(5, 3, 8) == 2 * OrBits(2, 1, 7) + 1;
  }

  /** 10.0.0.5/255.255.255.252 (a /30): the network is 10.0.0.4 and the broadcast 10.0.0.7. */
  lemma Slash30Bounds()
    ensures Network([10, 0, 0, 5], [255, 255, 255, 252]) == [10, 0, 0, 4]
    ensures Broadcast([10, 0, 0, 5], [255, 255, 255, 252]) == [10, 0, 0, 7]
  {
    LastOctetsOfSlash30();
    AndAllOnes(10);
    AndAllOnes(0);
    OrZero(10, 8);
    OrZero(0, 8);
  }

  /** 10.0.0.5/255.255.255.252 (a /30) yields the two hosts 10.0.0.5 and 10.0.0.6. */
  lemma Slash30Example()
    ensures CalculateNetwork([10, 0, 0, 5], [255, 255, 255, 252]) == [[10, 0, 0, 5], [10, 0, 0, 6]]
  {
    var ip, mask := [10, 0, 0, 5], [255, 255, 255, 252];
    Slash30Bounds();
    var n := Network(ip, mask);
    var r := CalculateNetwork(ip, mask);
    assert |r| == 2;
    assert n[..3] == [10, 0, 0];
    TargetAt(ip, mask, 0);
    TargetAt(ip, mask, 1);
    assert r[0] == [10, 0, 0, 5];
    assert r[1] == [10, 0, 0, 6];
  }

  /** 10.1.2.3/255.255.0.0 has network 10.1.0.0. */
  lemma WideMaskNetwork()
    ensures Network([10, 1, 2, 3], [255, 255, 0, 0]) == [10, 1, 0, 0]
  {
    AndAllOnes(10);
    AndAllOnes(1);
    AndZero(2, 0, 8);
    AndZero(3, 0, 8);
  }

  /**
    With a mask wider than /24, 10.1.2.3/255.255.0.0, the targets are
    10.1.0.1 to 10.1.0.254: only the last octet varies, under `network[:3]`.
  */
  lemma WideMaskTargets()
    ensures CalculateNetwork([10, 1, 2, 3], [255, 255, 0, 0]) == seq(254, k => [10, 1, 0, k + 1])
  {
    var ip, mask := [10, 1, 2, 3], [255, 255, 0, 0];
    WideMaskNetwork();
    ZeroLastMaskOctet(ip, mask);
  }

  /** For 10.1.2.3/255.255.0.0 the interface's own address is not a target. */
  lemma WideMaskExample()
    ensures [10, 1, 2, 3] !in CalculateNetwork([10, 1, 2, 3], [255, 255, 0, 0])
  {
    var ip, mask := [10, 1, 2, 3], [255, 255, 0, 0];
    WideMaskNetwork();
    var n := Network(ip, mask);
    assert n[..3] == [10, 1, 0];
    TargetMembership(ip, mask, ip);
  }
}
