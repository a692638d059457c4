/**
  The scan pipeline, `scan_network` of find_device.py: derive the targets,
  keep those whose probe succeeds (in target order), then either search the
  live hosts for a hardware address or return them sorted.

  The probe (`ping_host`) and the neighbour-table lookup (`get_mac`) are
  parameters; the interface query (`get_network_info`) is the `config`
  argument, None when the interface has no IPv4 address or netmask.
*/
module Scanner {
  import opened Wrappers
  import opened Subnet
  import opened Mac
  import opened Sorting
  import Arp
  import Strings
  import Dotted

  /** The address and netmask of the interface. */
  datatype Config = Config(ip: seq<nat>, mask: seq<nat>)

  predicate ValidConfig(config: Option<Config>)
  {
    config.Some? ==> IsQuad(config.value.ip) && IsQuad(config.value.mask)
  }

  /** `active_devices`: the targets whose probe succeeds, in target order. */
  function Live(targets: seq<seq<nat>>, probe: seq<nat> -> bool): (r: seq<seq<nat>>)
    ensures |r| <= |targets|
  {
    if targets == [] then []
    else
      var last := targets[|targets| - 1];
      Live(targets[..|targets| - 1], probe) + (if probe(last) then [last] else [])
  }

  /** The search condition at line 116: a looked-up address that normalises to the target. */
  predicate HasMac(lookup: seq<nat> -> Option<string>, target: string, a: seq<nat>)
  {
    var found := lookup(a);
    found.Some? && found.value != "" && NormalizeMac(found.value) == Some(target)
  }

  /** `[ip]` for the first live address whose hardware address is the target, else `[]`. */
  function FirstWithMac(active: seq<seq<nat>>, target: string, lookup: seq<nat> -> Option<string>): (r: seq<seq<nat>>)
    ensures |r| <= 1
  {
    if active == [] then []
    else if HasMac(lookup, target, active[0]) then [active[0]]
    else FirstWithMac(active[1..], target, lookup)
  }

  /** What `scan_network` returns. */
  function Discovery(config: Option<Config>, targetMac: Option<string>,
                     probe: seq<nat> -> bool, lookup: seq<nat> -> Option<string>): seq<seq<nat>>
    requires ValidConfig(config)
  {
    match config
    case None => []
    case Some(c) =>
      var active := Live(CalculateNetwork(c.ip, c.mask), probe);
      if targetMac.Some? && targetMac.value != "" then
        match NormalizeMac(targetMac.value)
        case None => []
        case Some(t) => FirstWithMac(active, t, lookup)
      else Sort(active)
  }

  /**
    `get_mac(ip, interface)` on Linux as the scan's lookup: the neighbour-table
    entry for the address's text, from the table's lines (None: unreadable).
  */
  function TableLookup(table: Option<seq<string>>, iface: string): seq<nat> -> Option<string>
  {
    a => if |a| >= 2 then Arp.ArpEntry(table, Dotted.HostText(a[..|a| - 1], a[|a| - 1]), iface) else None
  }

  /** The probing loop (lines 94-104): results are collected in submission order. */
  method ProbeAll(targets: seq<seq<nat>>, probe: seq<nat> -> bool) returns (active: seq<seq<nat>>)
    ensures active == Live(targets, probe)
    ensures forall a :: a in active <==> a in targets && probe(a)
  {
    active := [];
    for i := 0 to |targets|
      invariant active == Live(targets[..i], probe)
    {
      if probe(targets[i]) {
        active := active + [targets[i]];
      }
      assert targets[..i + 1][..i] == targets[..i];
    }
    assert targets[..|targets|] == targets;
    LiveMembers(targets, probe);
  }

  /** The search loop (lines 114-118): the first live address with the target hardware address. */
  method FindByMac(active: seq<seq<nat>>, target: string, lookup: seq<nat> -> Option<string>)
    returns (found: seq<seq<nat>>)
    ensures found == FirstWithMac(active, target, lookup)
    ensures found == [] <==> forall j | 0 <= j < |active| :: !HasMac(lookup, target, active[j])
    ensures found != [] ==> exists j | 0 <= j < |active| ::
      found == [active[j]] && HasMac(lookup, target, active[j])
      && forall k | 0 <= k < j :: !HasMac(lookup, target, active[k])
  {
    var i := 0;
    while i < |active|
      invariant 0 <= i <= |active|
      invariant forall k | 0 <= k < i :: !HasMac(lookup, target, active[k])
      invariant FirstWithMac(active, target, lookup) == FirstWithMac(active[i..], target, lookup)
    {
      var foundMac := lookup(active[i]);
      if foundMac.Some? && foundMac.value != "" && NormalizeMac(foundMac.value) == Some(target) {
        return [active[i]];
      }
      assert active[i..][1..] == active[i + 1..];
      i := i + 1;
    }
    return [];
  }

  /** `scan_network(interface, target_mac)`. */
  method ScanNetwork(config: Option<Config>, targetMac: Option<string>,
                     probe: seq<nat> -> bool, lookup: seq<nat> -> Option<string>)
    returns (devices: seq<seq<nat>>)
    requires ValidConfig(config)
    ensures devices == Discovery(config, targetMac, probe, lookup)
  {
    if config.None? {
      return [];
    }
    var ip, mask := config.value.ip, config.value.mask;
    var targets := CalculateNetwork(ip, mask);
    var active := ProbeAll(targets, probe);
    if targetMac.Some? && targetMac.value != "" {
      var target := NormalizeMac(targetMac.value);
      if target.None? {
        return [];
      }
      devices := FindByMac(active, target.value, lookup);
      return;
    }
    return Sort(active);
  }

  // ---------------------------------------------------------------- lemmas

  /** The live list holds exactly the targets whose probe succeeds. */
  lemma {:induction false} LiveMembers(targets: seq<seq<nat>>, probe: seq<nat> -> bool)
    ensures forall a :: a in Live(targets, probe) <==> a in targets && probe(a)
  {
    if targets != [] {
      var init := targets[..|targets| - 1];
      LiveMembers(init, probe);
      assert targets == init + [targets[|targets| - 1]];
    }
  }

  /** Filtering distributes over concatenation: the live list keeps target order. */
  lemma {:induction false} LiveAppend(a: seq<seq<nat>>, b: seq<seq<nat>>, probe: seq<nat> -> bool)
    ensures Live(a + b, probe) == Live(a, probe) + Live(b, probe)
  {
    if b == [] {
      assert a + b == a;
    } else {
      var init := b[..|b| - 1];
      assert (a + b)[..|a + b| - 1] == a + init;
      LiveAppend(a, init, probe);
    }
  }

  /** A strictly ascending target list gives a strictly ascending (so duplicate-free) live list. */
  lemma {:induction false} LiveAscending(targets: seq<seq<nat>>, probe: seq<nat> -> bool)
    requires StrictlyAscending(targets)
    ensures StrictlyAscending(Live(targets, probe))
  {
    if targets != [] {
      var n := |targets| - 1;
      var init := targets[..n];
      assert StrictlyAscending(init) by {
        forall i, j | 0 <= i < j < |init|
          ensures LexLess(init[i], init[j])
        {
          assert init[i] == targets[i] && init[j] == targets[j];
        }
      }
      LiveAscending(init, probe);
      LiveMembers(init, probe);
      var l := Live(init, probe);
      if probe(targets[n]) {
        forall i, j | 0 <= i < j < |l| + 1
          ensures LexLess((l + [targets[n]])[i], (l + [targets[n]])[j])
        {
          if j == |l| {
            assert l[i] in init;
            var k :| 0 <= k < |init| && init[k] == l[i];
            assert targets[k] == l[i];
          }
        }
      }
    }
  }

  /** The derived targets are strictly ascending as octet tuples. */
  lemma TargetsStrictlyAscending(ip: seq<nat>, mask: seq<nat>)
    requires IsQuad(ip) && IsQuad(mask)
    ensures StrictlyAscending(CalculateNetwork(ip, mask))
  {
    var r := CalculateNetwork(ip, mask);
    forall i, j | 0 <= i < j < |r|
      ensures LexLess(r[i], r[j])
    {
      TargetsAscending(ip, mask, i, j);
      TargetAt(ip, mask, i);
      TargetAt(ip, mask, j);
      var p := Network(ip, mask)[..3];
      assert LexLess([r[i][3]], [r[j][3]]);
      LexCommonPrefix(p, [r[i][3]], [r[j][3]]);
    }
  }

  /** The first-match search returns at most one address, the first live one carrying the target. */
  lemma {:induction false} FirstWithMacIsFirst(active: seq<seq<nat>>, target: string, lookup: seq<nat> -> Option<string>)
    ensures |FirstWithMac(active, target, lookup)| <= 1
    ensures FirstWithMac(active, target, lookup) == [] <==> forall j | 0 <= j < |active| :: !HasMac(lookup, target, active[j])
    ensures FirstWithMac(active, target, lookup) != [] ==> exists j | 0 <= j < |active| ::
      FirstWithMac(active, target, lookup) == [active[j]] && HasMac(lookup, target, active[j])
      && forall k | 0 <= k < j :: !HasMac(lookup, target, active[k])
  {
    if active != [] && !HasMac(lookup, target, active[0]) {
      var rest := active[1..];
      FirstWithMacIsFirst(rest, target, lookup);
      forall j | 0 < j < |active|
        ensures active[j] == rest[j - 1]
      {
      }
      if FirstWithMac(rest, target, lookup) != [] {
        var j :| 0 <= j < |rest| && FirstWithMac(rest, target, lookup) == [rest[j]] && HasMac(lookup, target, rest[j])
          && forall k | 0 <= k < j :: !HasMac(lookup, target, rest[k]);
        assert active[j + 1] == rest[j];
        assert forall k | 0 <= k < j + 1 :: !HasMac(lookup, target, active[k]) by {
          forall k | 0 <= k < j + 1
            ensures !HasMac(lookup, target, active[k])
          {
            if k > 0 {
              assert active[k] == rest[k - 1];
            }
          }
        }
      }
    }
  }

  /** Every address the scan reports is a derived target whose probe succeeded, and none is reported twice. */
  lemma DiscoveryWithinLiveTargets(config: Option<Config>, targetMac: Option<string>,
                                   probe: seq<nat> -> bool, lookup: seq<nat> -> Option<string>)
    requires ValidConfig(config)
    ensures var r := Discovery(config, targetMac, probe, lookup);
      forall a | a in r :: config.Some? && a in CalculateNetwork(config.value.ip, config.value.mask) && probe(a)
    ensures StrictlyAscending(Discovery(config, targetMac, probe, lookup))
  {
    if config.Some? {
      var c := config.value;
      var targets := CalculateNetwork(c.ip, c.mask);
      var active := Live(targets, probe);
      LiveMembers(targets, probe);
      TargetsStrictlyAscending(c.ip, c.mask);
      LiveAscending(targets, probe);
      if targetMac.Some? && targetMac.value != "" {
        var t := NormalizeMac(targetMac.value);
        if t.Some? {
          FirstWithMacIsFirst(active, t.value, lookup);
        }
      } else {
        SortOfAscending(active);
      }
    }
  }

  /** A target hardware address that does not normalise gives an empty result. */
  lemma InvalidMacFindsNothing(config: Option<Config>, mac: string,
                               probe: seq<nat> -> bool, lookup: seq<nat> -> Option<string>)
    requires ValidConfig(config)
    requires mac != "" && NormalizeMac(mac).None?
    ensures Discovery(config, Some(mac), probe, lookup) == []
  {
  }

  /**
    With a valid target hardware address the result is at most one address:
    the first live target, in target order, whose looked-up address
    normalises to the target; and it is empty when no live target has it.
  */
  lemma MacSearchResult(c: Config, mac: string, probe: seq<nat> -> bool, lookup: seq<nat> -> Option<string>)
    requires IsQuad(c.ip) && IsQuad(c.mask)
    requires mac != "" && NormalizeMac(mac).Some?
    ensures var r, active, t := Discovery(Some(c), Some(mac), probe, lookup),
                                Live(CalculateNetwork(c.ip, c.mask), probe), NormalizeMac(mac).value;
      && |r| <= 1
      && (r == [] <==> forall j | 0 <= j < |active| :: !HasMac(lookup, t, active[j]))
      && (r != [] ==> exists j | 0 <= j < |active| ::
            r == [active[j]] && HasMac(lookup, t, active[j])
            && forall k | 0 <= k < j :: !HasMac(lookup, t, active[k]))
  {
    var active, t := Live(CalculateNetwork(c.ip, c.mask), probe), NormalizeMac(mac).value;
    assert Discovery(Some(c), Some(mac), probe, lookup) == FirstWithMac(active, t, lookup);
    FirstWithMacIsFirst(active, t, lookup);
  }

  /**
    Without a target hardware address (None or empty) the result is the live
    list sorted by octet tuple, a permutation of it; as the targets already
    ascend, the sort leaves it as it was.
  */
  lemma UnfilteredResult(c: Config, targetMac: Option<string>, probe: seq<nat> -> bool, lookup: seq<nat> -> Option<string>)
    requires IsQuad(c.ip) && IsQuad(c.mask)
    requires targetMac.None? || targetMac.value == ""
    ensures var r, active := Discovery(Some(c), targetMac, probe, lookup), Live(CalculateNetwork(c.ip, c.mask), probe);
      && Sorted(r) && multiset(r) == multiset(active)
      && r == active
  {
    var targets := CalculateNetwork(c.ip, c.mask);
    var active := Live(targets, probe);
    SortIsSortedPermutation(active);
    TargetsStrictlyAscending(c.ip, c.mask);
    LiveAscending(targets, probe);
    SortOfAscending(active);
  }

  /**
    Through the neighbour table, the hardware address found for a target
    comes from a line whose address field is that target's text, and so
    from no other target's line.
  */
  lemma TableLookupIsOwnEntry(table: Option<seq<string>>, iface: string, a: seq<nat>, b: seq<nat>)
    requires |a| == 4 && |b| == 4 && a != b
    requires TableLookup(table, iface)(a).Some?
    ensures exists j | 1 <= j < |table.value| ::
      && Arp.Qualifies(table.value[j], Dotted.HostText(a[..3], a[3]), iface)
      && TableLookup(table, iface)(a).value == Strings.Fields(table.value[j])[3]
      && Strings.Fields(table.value[j])[0] != Dotted.HostText(b[..3], b[3])
  {
    var ta, tb := Dotted.HostText(a[..3], a[3]), Dotted.HostText(b[..3], b[3]);
    Arp.ArpEntryIsFirstMatch(table.value, ta, iface);
    var j :| 1 <= j < |table.value| && Arp.Qualifies(table.value[j], ta, iface)
      && Arp.ArpEntry(table, ta, iface).value == Strings.Fields(table.value[j])[3];
    if ta == tb {
      Dotted.QuadTextInjective(a, b);
    }
  }

  /** An interface without an IPv4 configuration yields nothing. */
  lemma NoConfigFindsNothing(targetMac: Option<string>, probe: seq<nat> -> bool, lookup: seq<nat> -> Option<string>)
    ensures Discovery(None, targetMac, probe, lookup) == []
  {
  }
}
