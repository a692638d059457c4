/**
  Neighbour-table lookup, Linux branch of `get_mac` in find_device.py: the
  lines of `/proc/net/arp` are given (None when the file cannot be read), the
  header line is skipped, and field 3 of the first line whose address and
  device match, and whose hardware address is not all zeros, is returned.
*/
module Arp {
  import opened Wrappers
  import opened Strings

  /** The placeholder hardware address of an incomplete entry. */
  const ZeroMac := "00:00:00:00:00:00"

  /** The condition at line 75: six fields, address and device match, a real hardware address. */
  predicate Qualifies(line: string, ip: string, iface: string)
  {
    var parts := Fields(line);
    |parts| >= 6 && parts[0] == ip && parts[5] == iface && parts[3] != ZeroMac
  }

  /** Field 3 of the first qualifying line of `lines`. */
  function FirstEntry(lines: seq<string>, ip: string, iface: string): Option<string>
  {
    if lines == [] then None
    else if Qualifies(lines[0], ip, iface) then Some(Fields(lines[0])[3])
    else FirstEntry(lines[1..], ip, iface)
  }

  /** The outcome of the lookup: the header line `table[0]` is skipped. */
  function ArpEntry(table: Option<seq<string>>, ip: string, iface: string): Option<string>
  {
    match table
    case None => None
    case Some(lines) => if lines == [] then None else FirstEntry(lines[1..], ip, iface)
  }

  /** `get_mac(ip, interface)` on Linux, over the lines read from the table (None if it could not be read). */
  method GetMac(table: Option<seq<string>>, ip: string, iface: string) returns (mac: Option<string>)
    ensures mac == ArpEntry(table, ip, iface)
    ensures mac.Some? ==> table.Some? && exists j | 1 <= j < |table.value| ::
      Qualifies(table.value[j], ip, iface) && mac.value == Fields(table.value[j])[3]
  {
    if table.None? {
      return None;
    }
    var lines := table.value;
    if lines == [] {
      return None;
    }
    var i := 1;
    while i < |lines|
      invariant 1 <= i <= |lines|
      invariant FirstEntry(lines[1..], ip, iface) == FirstEntry(lines[i..], ip, iface)
    {
      var parts := Fields(lines[i]);
      if |parts| >= 6 && parts[0] == ip && parts[5] == iface && parts[3] != ZeroMac {
        ArpEntryIsFirstMatch(lines, ip, iface);
        return Some(parts[3]);
      }
      assert lines[i..][1..] == lines[i + 1..];
      i := i + 1;
    }
    return None;
  }

  // ---------------------------------------------------------------- lemmas

  /** `FirstEntry` finds the first qualifying line, and only fails when none qualifies. */
  lemma {:induction false} FirstEntryIsFirst(lines: seq<string>, ip: string, iface: string)
    ensures FirstEntry(lines, ip, iface).None? <==> forall j | 0 <= j < |lines| :: !Qualifies(lines[j], ip, iface)
    ensures FirstEntry(lines, ip, iface).Some? ==> exists j | 0 <= j < |lines| ::
      Qualifies(lines[j], ip, iface) && FirstEntry(lines, ip, iface).value == Fields(lines[j])[3]
      && forall k | 0 <= k < j :: !Qualifies(lines[k], ip, iface)
  {
    if lines != [] && !Qualifies(lines[0], ip, iface) {
      FirstEntryIsFirst(lines[1..], ip, iface);
      var r := FirstEntry(lines, ip, iface);
      if r.Some? {
        var j :| 0 <= j < |lines| - 1 && Qualifies(lines[1..][j], ip, iface) && r.value == Fields(lines[1..][j])[3]
          && forall k | 0 <= k < j :: !Qualifies(lines[1..][k], ip, iface);
        assert forall k | 0 <= k < j + 1 :: !Qualifies(lines[k], ip, iface) by {
          forall k | 0 <= k < j + 1
            ensures !Qualifies(lines[k], ip, iface)
          {
            if k > 0 {
              assert lines[k] == lines[1..][k - 1];
            }
          }
        }
        assert Qualifies(lines[j + 1], ip, iface);
      } else {
        forall j | 0 <= j < |lines|
          ensures !Qualifies(lines[j], ip, iface)
        {
          if j > 0 {
            assert lines[j] == lines[1..][j - 1];
          }
        }
      }
    }
  }

  /**
    The lookup returns field 3 of the first qualifying line after the header,
    None exactly when no such line exists (or the table is unreadable), and
    never the all-zero placeholder.
  */
  lemma ArpEntryIsFirstMatch(lines: seq<string>, ip: string, iface: string)
    ensures ArpEntry(Some(lines), ip, iface).None? <==> forall j | 1 <= j < |lines| :: !Qualifies(lines[j], ip, iface)
    ensures ArpEntry(Some(lines), ip, iface).Some? ==> exists j | 1 <= j < |lines| ::
      Qualifies(lines[j], ip, iface) && ArpEntry(Some(lines), ip, iface).value == Fields(lines[j])[3]
      && forall k | 1 <= k < j :: !Qualifies(lines[k], ip, iface)
    ensures ArpEntry(Some(lines), ip, iface) != Some(ZeroMac)
  {
    if lines != [] {
      var rest := lines[1..];
      FirstEntryIsFirst(rest, ip, iface);
      var r := ArpEntry(Some(lines), ip, iface);
      if r.Some? {
        var j :| 0 <= j < |rest| && Qualifies(rest[j], ip, iface) && r.value == Fields(rest[j])[3]
          && forall k | 0 <= k < j :: !Qualifies(rest[k], ip, iface);
        assert lines[j + 1] == rest[j];
        assert forall k | 1 <= k < j + 1 :: !Qualifies(lines[k], ip, iface) by {
          forall k | 1 <= k < j + 1
            ensures !Qualifies(lines[k], ip, iface)
          {
            assert lines[k] == rest[k - 1];
          }
        }
      } else {
        forall j | 1 <= j < |lines|
          ensures !Qualifies(lines[j], ip, iface)
        {
          assert lines[j] == rest[j - 1];
        }
      }
    }
  }

  /** The header line never matters, whatever it holds. */
  lemma HeaderIgnored(header1: string, header2: string, rest: seq<string>, ip: string, iface: string)
    ensures ArpEntry(Some([header1] + rest), ip, iface) == ArpEntry(Some([header2] + rest), ip, iface)
    ensures ArpEntry(Some([header1]), ip, iface) == None
  {
    assert ([header1] + rest)[1..] == rest;
    assert ([header2] + rest)[1..] == rest;
  }

  /** A found hardware address is a single whitespace-free field. */
  lemma FoundIsField(table: Option<seq<string>>, ip: string, iface: string)
    requires ArpEntry(table, ip, iface).Some?
    ensures IsField(ArpEntry(table, ip, iface).value)
  {
    ArpEntryIsFirstMatch(table.value, ip, iface);
  }
}
