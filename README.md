# MAC2Host subnet scanner, modelled in Dafny

This project models the scanning core of MAC2Host's `find_device.py`. The
scanner reads an interface's IPv4 address and netmask and derives a list of
target addresses from them. It pings every target and keeps the ones that
answer. It then either returns those live hosts sorted by address, or returns
the first live host whose neighbour-table (ARP) hardware address matches a
requested MAC address once both are normalised.

The Dafny modules follow the source's functions:

- `Subnet`: `calculate_network`, the network and broadcast octets and the target list. Python's `&` and `|` on octets are modelled by bit-by-bit definitions. Induction over the bits proves their bounds (`AndBitsBelow`, `OrBitsAbove`), their identities with 0 and all ones (`AndZero`, `OrZero`, `AndOnes`) and the span identity `x | ~m - x & m == ~m` (`HostBitsSpan`). `~mask & 0xff` is Python's two's-complement `-mask - 1` reduced modulo 256.
- `Mac`: `normalize_mac`.
- `Strings`: the Python built-ins the core relies on. These are `str.split()` with Python's full whitespace set, `str.join` and `str.lower`.
- `Arp`: the Linux branch of `get_mac`. The lines of `/proc/net/arp` are a parameter, None when the file cannot be read. `GetMac` is a loop method proved against the first-match function `ArpEntry`.
- `Sorting`: `sorted(..., key=tuple of octets)`. It uses Python's lexicographic tuple `<` and is modelled as an insertion sort proved sorted and a permutation.
- `Dotted`: the text form of a target (`f"{base}.{i}"`) and the sort key `tuple(map(int, x.split('.')))`. The key is proved to give back the octets, so the model can work with octet tuples.
- `Scanner`: `scan_network`. The probing loop `ProbeAll` and the MAC search loop `FindByMac` are methods with loop invariants. `ScanNetwork` is proved equal to the specification function `Discovery`.

Addresses are `seq<nat>` values of four octets. The ping (`ping_host`) and the hardware lookup (`get_mac`) are function parameters of the scan. `Scanner.TableLookup` fills in the lookup from an ARP table.

Some behaviour of the code, reproduced as written:

- A /30 such as 10.0.0.5/255.255.255.252 yields 10.0.0.5 and 10.0.0.6. The run starts at network + 1 and ends at broadcast - 1 (`Subnet.Slash30Example`).
- For masks wider than /24, only the last octet varies, under `network[:3]` (`Subnet.WideMaskTargets`). The interface's own address can then fall outside the list (`Subnet.WideMaskExample`).
- The MAC search walks `active_devices` in target order. `Scanner.UnfilteredResult` shows that this is already sorted order.

## Model

| member | source | states |
|---|---|---|
| `Subnet.AndBits` | find_device.py:30 | the low k bits of Python's `a & b`: bit i is set iff bit i of both `a` and `b` is set, from the least significant bit up |
| `Subnet.OrBits` | find_device.py:31 | the low k bits of Python's `a \| b`: bit i is set iff bit i of `a` or of `b` is set |
| `Subnet.And` | find_device.py:30 | `ip & mask` on octets is an octet no larger than either operand |
| `Subnet.Or` | find_device.py:31 | `ip \| x` on octets is an octet no smaller than either operand |
| `Subnet.InvertLow` | find_device.py:31 | `~mask & 0xff` is an octet, and it equals `255 - mask` for an octet mask |
| `Subnet.AndBitsBelow` | find_device.py:30 | bitwise AND never exceeds either operand |
| `Subnet.OrBitsAbove` | find_device.py:31 | bitwise OR of k-bit values is a k-bit value at least either operand |
| `Subnet.HostBitsSpan` | find_device.py:30-31 | `x \| ~m` exceeds `x & m` by exactly `~m` |
| `Subnet.AndOnes` | find_device.py:30 | `x & 255...1` is `x` |
| `Subnet.AndZero` | find_device.py:30 | `x & 0` and `0 & y` are 0 |
| `Subnet.OrZero` | find_device.py:31 | `x \| 0` is `x` |
| `Subnet.AndAllOnes` | find_device.py:30 | `x & 255` is `x` on an octet |
| `Subnet.Network` | find_device.py:30 | network is four octets, each at most the address and the mask octet |
| `Subnet.Broadcast` | find_device.py:31 | broadcast is four octets, each at least the address octet and `255 - mask` |
| `Subnet.CalculateNetwork` | find_device.py:25-39 | `calculate_network`: `network[:3]` followed by each last octet from network[3] + 1 to broadcast[3] - 1 (its properties are the lemmas below) |
| `Subnet.Range` | find_device.py:39 | Python `range(lo, hi)`: `max(0, hi - lo)` elements, the k-th being `lo + k` |
| `Subnet.NetworkBroadcastOctets` | find_device.py:30-31 | octet i of network is `ip & mask`, of broadcast `ip \| (255 - mask)`, and network <= ip <= broadcast < 256 |
| `Subnet.OctetSpan` | find_device.py:30-31 | on one octet, broadcast minus network is `255 - mask` |
| `Subnet.LastOctetSpan` | find_device.py:30-31 | broadcast[3] - network[3] == 255 - mask[3] |
| `Subnet.TargetAt` | find_device.py:33-39 | target k is `network[:3]` followed by `network[3] + 1 + k` |
| `Subnet.TargetCount` | find_device.py:33-39 | the count is `max(0, broadcast[3] - network[3] - 1)`, which equals `max(0, 254 - mask[3])` |
| `Subnet.TargetMembership` | find_device.py:33-39 | an address is a target iff it has 4 octets, starts with `network[:3]`, and network[3] < last < broadcast[3] |
| `Subnet.TargetsAreQuads` | find_device.py:33-39 | every target is four octets in 0..255 |
| `Subnet.TargetsAscending` | find_device.py:39 | later targets have larger last octets and the same prefix, so there are no duplicates |
| `Subnet.ExcludesNetworkAndBroadcast` | find_device.py:33-39 | neither the network nor the broadcast address is a target |
| `Subnet.ZeroLastMaskOctet` | find_device.py:33-39 | a last mask octet of 0 gives the 254 hosts `network[:3]` followed by 1 to 254 |
| `Subnet.Slash24` | find_device.py:25-39 | mask 255.255.255.0 gives x.y.z.1 to x.y.z.254 |
| `Subnet.NoTargetsForNarrowMasks` | find_device.py:33-39 | last mask octet 254 or 255 gives no targets |
| `Subnet.LastOctetsOfSlash30` | find_device.py:30-31 | `5 & 252 == 4` and `5 \| (~252 & 0xff) == 7` |
| `Subnet.Slash30Bounds` | find_device.py:30-31 | 10.0.0.5/255.255.255.252 has network 10.0.0.4 and broadcast 10.0.0.7 |
| `Subnet.Slash30Example` | find_device.py:25-39 | 10.0.0.5/255.255.255.252 yields exactly 10.0.0.5 and 10.0.0.6 |
| `Subnet.WideMaskNetwork` | find_device.py:30 | 10.1.2.3/255.255.0.0 has network 10.1.0.0 |
| `Subnet.WideMaskTargets` | find_device.py:25-39 | 10.1.2.3/255.255.0.0 yields 10.1.0.1 to 10.1.0.254: only the last octet varies |
| `Subnet.WideMaskExample` | find_device.py:25-39 | for 10.1.2.3/255.255.0.0 the interface's own address is not a target |
| `Strings.IsSpace` | find_device.py:74 | Python's `str.isspace()` on one character: space, `\t` to `\r`, U+001C to U+001F, U+0085, U+00A0, U+1680, U+2000 to U+200A, U+2028, U+2029, U+202F, U+205F and U+3000, the separators of `line.split()` |
| `Strings.LowerChar` | find_device.py:59 | `c.lower()` on ASCII: `A` to `Z` map to `a` to `z`, every other character is unchanged |
| `Strings.Lower` | find_device.py:59 | `str.lower()` on ASCII, one character for each input character |
| `Strings.Join` | find_device.py:62 | `sep.join(parts)`: the parts with `sep` between consecutive ones |
| `Strings.SplitFrom` | find_device.py:74 | every field `split()` produces is non-empty and has no whitespace |
| `Strings.Fields` | find_device.py:74 | `line.split()` fields are non-empty and whitespace-free |
| `Strings.SplitThroughField` | find_device.py:74 | non-whitespace characters only extend the current field |
| `Strings.SplitJoinRoundTrip` | find_device.py:74 | splitting space-joined fields gives the same fields back |
| `Mac.IsHexDigit` | find_device.py:59 | membership in the regular-expression class `[0-9a-fA-F]` |
| `Mac.NormalizeMac` | find_device.py:54-64 | `normalize_mac`: None for the empty string or a hex-digit count other than 12, else the colon-joined lowercase pairs (its properties are the lemmas below) |
| `Mac.Digits` | find_device.py:59 | the lowercased hex-only content, never longer than the input |
| `Mac.Pairs` | find_device.py:62 | `[mac[i:i+2] for i in range(0, 12, 2)]`: six parts of two characters |
| `Mac.HexOnly` | find_device.py:59 | removing non-hex characters leaves only hex digits and never lengthens the string |
| `Mac.HexOnlyAppend` | find_device.py:59 | stripping distributes over concatenation |
| `Mac.HexOnlyOfHex` | find_device.py:59 | stripping a hex-only string leaves it unchanged |
| `Mac.LowerHex` | find_device.py:59 | lowercasing hex digits gives lowercase hex digits |
| `Mac.LowerOfLowerHex` | find_device.py:59 | lowercase hex is unchanged by `lower()` |
| `Mac.JoinPairsLayout` | find_device.py:62 | joining 2-character parts puts part k at positions 3k and 3k+1 and the separator at 3k+2 |
| `Mac.HexOnlyOfJoin` | find_device.py:59-62 | stripping hex parts joined by a non-hex separator gives `''.join(parts)` |
| `Mac.PairsRejoin` | find_device.py:62 | the six pairs of a 12-digit string, joined with `''`, give it back |
| `Mac.GroupLayout` | find_device.py:62 | the grouped form has 17 characters: digit pair k at 3k..3k+2, colons between |
| `Mac.NormalizeFails` | find_device.py:56-61 | the result is None iff the number of hex digits is not 12, which includes the empty input |
| `Mac.NormalizeResult` | find_device.py:59-62 | a success is canonical (17 chars, lowercase hex pairs, colons) and its pairs are the lowercased hex-only content |
| `Mac.CanonicalIsFixed` | find_device.py:59-62 | a canonical address normalises to itself |
| `Mac.NormalizeIdempotent` | find_device.py:59-62 | normalising a normalised address returns it unchanged |
| `Mac.FixedIffCanonical` | find_device.py:59-62 | an address normalises to itself iff it is canonical |
| `Mac.SameAddressIffSameDigits` | find_device.py:59-62 | two valid inputs normalise equally iff their lowercased hex digits are equal |
| `Mac.HexUnderLower` | find_device.py:59 | a character is hex iff its lowercase is lowercase hex |
| `Mac.DigitsIgnoreCase` | find_device.py:59 | inputs differing only in case have the same digits |
| `Mac.NormalizeIgnoresCase` | find_device.py:59-62 | inputs differing only in case normalise identically |
| `Mac.NormalizeIgnoresSeparator` | find_device.py:59-62 | six hex pairs normalise identically whatever non-hex separator joins them |
| `Arp.ZeroMac` | find_device.py:75 | the literal `00:00:00:00:00:00` of an incomplete entry |
| `Arp.Qualifies` | find_device.py:75 | the line has at least six fields, field 0 is the address, field 5 the device, and field 3 is not `00:00:00:00:00:00` |
| `Arp.FirstEntry` | find_device.py:73-76 | field 3 of the first qualifying line, None when there is none |
| `Arp.ArpEntry` | find_device.py:70-84 | the lookup's outcome: None for an unreadable or empty table, else the first entry after the header |
| `Arp.GetMac` | find_device.py:66-84 | returns `ArpEntry`: None for an unreadable table, otherwise field 3 of a qualifying line after the header |
| `Arp.FirstEntryIsFirst` | find_device.py:73-76 | the search returns field 3 of the first qualifying line, and None iff no line qualifies |
| `Arp.ArpEntryIsFirstMatch` | find_device.py:73-76 | line 0 is skipped; the result is field 3 of the first qualifying later line, None iff there is none, and never `00:00:00:00:00:00` |
| `Arp.HeaderIgnored` | find_device.py:73 | the header line's content never affects the result |
| `Arp.FoundIsField` | find_device.py:74-76 | a found hardware address is one whitespace-free field |
| `Sorting.LexLess` | find_device.py:120 | Python's `<` on integer tuples: the first differing position decides, and a proper prefix is smaller |
| `Sorting.Insert` | find_device.py:120 | puts an element before the first one not smaller than it; one element longer |
| `Sorting.Sort` | find_device.py:120 | `sorted` under the tuple order, as an insertion sort; same length as its input |
| `Sorting.LexIrreflexive` | find_device.py:120 | no tuple is less than itself |
| `Sorting.LexTransitive` | find_device.py:120 | tuple order is transitive |
| `Sorting.LexTotal` | find_device.py:120 | any two different tuples are ordered |
| `Sorting.LexAsymmetric` | find_device.py:120 | tuple order is asymmetric |
| `Sorting.LexCommonPrefix` | find_device.py:120 | a common prefix does not change the order |
| `Sorting.ConsSorted` | find_device.py:120 | prepending a minimum keeps a list sorted |
| `Sorting.InsertElements` | find_device.py:120 | insertion adds exactly the inserted element |
| `Sorting.InsertSorted` | find_device.py:120 | insertion preserves sortedness |
| `Sorting.SortIsSortedPermutation` | find_device.py:120 | `sorted` returns a sorted permutation of its input |
| `Sorting.SortOfAscending` | find_device.py:120 | sorting a strictly ascending list returns it unchanged |
| `Sorting.AscendingHasNoDuplicates` | find_device.py:120 | strictly ascending lists have no repeated address |
| `Dotted.HostText` | find_device.py:38-39 | `f"{'.'.join(map(str, prefix))}.{last}"` |
| `Dotted.ParseDecimal` | find_device.py:120 | `int(s)` on a non-empty digit string (`int('')` raises, so it is excluded) |
| `Dotted.SplitOn` | find_device.py:120 | `s.split(sep)`, empty pieces kept, at least one piece |
| `Dotted.SortKey` | find_device.py:120 | `tuple(map(int, x.split('.')))`, defined when every piece is a non-empty digit string |
| `Dotted.DigitChar` | find_device.py:38 | a digit value becomes a digit character |
| `Dotted.Decimal` | find_device.py:38 | `str(n)` is a non-empty string of digits |
| `Dotted.SplitOnFrom` | find_device.py:120 | `split('.')` gives at least one piece |
| `Dotted.DecimalRoundTrip` | find_device.py:120 | `int(str(n)) == n` |
| `Dotted.SplitThroughPiece` | find_device.py:120 | non-separator characters only extend the current piece |
| `Dotted.SplitOnJoinRoundTrip` | find_device.py:120 | `sep.join(pieces).split(sep) == pieces` when no piece holds `sep` |
| `Dotted.JoinSnoc` | find_device.py:38-39 | `base + "." + last` is the join of the extended piece list |
| `Dotted.SortKeyOfHostText` | find_device.py:120 | the sort key of a target's text is its octet tuple |
| `Dotted.HostTextInjective` | find_device.py:38-39 | different octets give different target texts |
| `Dotted.QuadTextInjective` | find_device.py:38-39 | two four-octet addresses with the same text are equal |
| `Dotted.HostTextExample` | find_device.py:38-39 | octets 10, 0, 0 and 5 give the text `10.0.0.5` |
| `Scanner.Discovery` | find_device.py:86-120 | what `scan_network` returns: `[]` without config; with a non-empty target MAC, `[]` if it does not normalise, else the MAC search; otherwise the sorted live list |
| `Scanner.HasMac` | find_device.py:115-116 | the looked-up MAC is present, non-empty, and normalises to the target |
| `Scanner.FirstWithMac` | find_device.py:114-118 | `[ip]` for the first live address with the target MAC, else `[]`; so at most one address |
| `Scanner.TableLookup` | find_device.py:70-76 | `get_mac(ip, interface)` on Linux: the ARP-table entry for the address's dotted text |
| `Scanner.Live` | find_device.py:94-104 | the live list is never longer than the target list |
| `Scanner.ProbeAll` | find_device.py:94-104 | `active_devices` holds, in target order, exactly the targets whose probe succeeds |
| `Scanner.FindByMac` | find_device.py:114-118 | returns `[ip]` for the first live address whose looked-up MAC normalises to the target; `[]` iff there is none |
| `Scanner.ScanNetwork` | find_device.py:86-120 | `scan_network` returns `Discovery`: `[]` without config, the MAC search with a non-empty target, otherwise the sorted live list |
| `Scanner.LiveMembers` | find_device.py:96-104 | an address is live iff it is a target and its probe succeeds |
| `Scanner.LiveAppend` | find_device.py:96-104 | filtering distributes over concatenation, so target order is kept |
| `Scanner.LiveAscending` | find_device.py:96-104 | the live list of ascending targets is ascending, so it has no duplicates |
| `Scanner.TargetsStrictlyAscending` | find_device.py:33-39 | the targets ascend strictly as octet tuples |
| `Scanner.FirstWithMacIsFirst` | find_device.py:114-118 | the MAC search gives at most one address, the first live one with the target MAC, and `[]` iff none has it |
| `Scanner.DiscoveryWithinLiveTargets` | find_device.py:86-120 | every reported address is a target whose probe succeeded, and the result is strictly ascending (no duplicates) |
| `Scanner.InvalidMacFindsNothing` | find_device.py:106-110 | a target MAC that does not normalise gives `[]` |
| `Scanner.MacSearchResult` | find_device.py:106-118 | with a valid target MAC the result has at most one element, the first live address whose MAC normalises to it |
| `Scanner.UnfilteredResult` | find_device.py:120 | without a target MAC the result is a sorted permutation of the live list, and in fact equals it |
| `Scanner.TableLookupIsOwnEntry` | find_device.py:115 | through the ARP table, a target's MAC comes from a line whose address field is that target's text and no other target's |
| `Scanner.NoConfigFindsNothing` | find_device.py:88-91 | an interface without IPv4 address or netmask yields `[]` |

## Left out

- `announce_device.py`: a thin wrapper over the third-party zeroconf library, with logging and an endless sleep loop. It has no logic of its own.
- `get_network_info`: a call into the netifaces library. Its result is the `config` parameter. None stands for a missing address or netmask, the `if not ip or not netmask` case.
- Parsing the dotted-quad address and netmask with `int()`, and the exceptions that malformed input raises: replaced by the precondition that both are four octets in 0..255.
- `ping_host`: it spawns the OS `ping` command and turns every failure into False. It is the total `probe` parameter.
- The 100-worker `ThreadPoolExecutor`: modelled as a sequential loop. Results are read in submission order, and `future.result()` never raises because `ping_host` catches everything.
- The non-Linux branch of `get_mac` (`arp -a` and a regular expression), and the reading of `/proc/net/arp`: the file's lines are a parameter, and None means the read failed.
- `normalize_mac`'s `TypeError` branch: inputs are typed strings here. A `None` argument is the callers' Option: `if target_mac` and `if found_mac`.
- `str.lower()` is modelled on ASCII only. By the time it is applied, only hex digits remain.
- The stability of Python's `sorted`: equal keys mean equal addresses, so it cannot be observed.
- The command-line interface, the `quiet` flag and every print (lines 90, 109, 113 and 122-141).
