# interfacez in Dafny

A model of the query layer of the Ruby library `interfacez` (`lib/interfacez.rb`).
The library lists a host's network interfaces and classifies their addresses. Its
queries are: the default capture device, the loopback interfaces, the distinct
interface names, IPv4 and IPv6 addresses grouped by interface, MAC addresses by
interface, and the interface index.

Every query reads one point-in-time list of interface-address records from
`Socket.getifaddrs`. In the model that list is an explicit parameter
`snap: seq<Record>`, so each query is a deterministic function of it.

- `wrappers.dfy`: `Option`, which stands for Ruby's value-or-`nil`.
- `addresses.dfy` (module `Addresses`): the records and address families. It
  also holds the loopback predicates: IPv4 127.0.0.0/8 (section 3.2.1.3 of
  RFC 1122) and IPv6 `::1` (section 2.5.3 of RFC 4291). It defines the
  specification functions that list a snapshot's loopback names, its names per
  family, and one interface's addresses of one family.
- `uniq.dfy` (module `Uniq`): `Array#uniq` and the "append unless present"
  loop. Both keep first occurrences in first-seen order.
- `hwaddr.dfy` (module `Hwaddr`): the Linux MAC extraction. It is the capture
  of `/hwaddr=([\h:]+)/`, written as a leftmost, greedy scan.
- `interfacez.dfy` (module `Interfacez`): the public queries.
- `scenario.dfy` (module `Scenario`): clients of the queries. One concrete
  host snapshot, with `lo` carrying both loopback families and `eth0` carrying
  a broadcast address. The contracts alone determine every answer on it: the
  default device is `eth0`, the loopback is `lo`, `loopbacks` is `["lo"]`, and
  the first IPv4 addresses are `192.168.1.5` and `127.0.0.1`. The module also
  covers the empty snapshot, which is what a failed fetch produces, and one
  `hwaddr=` capture.

The code loops in `default`, `index_of`, the yielding traversals of the
loopback queries, `loopbacks` and the hash built by `ipv4_addresses` and
`ipv6_addresses`. Those are methods with loops, proved against specification
functions. The rest is written as functions. The source's platform probe
(`PF_LINK` first, then `PF_PACKET`) becomes the input `Platform = Bsd | Linux |
Unsupported`.

Where the code does something other than its own method comments say, the
model follows the code:
- The comments on `loopback`, `ipv4_loopback` and `ipv6_loopback`
  (lib/interfacez.rb:16, 41, 60) promise an interface. When no record
  matches, each of them returns the value of the finished `each`, which is
  the snapshot array. The model returns `LoopbackAnswer.Fallthrough(snap)`.
- The comment on `ipv6_loopbacks` (lib/interfacez.rb:65) promises the IPv6
  loopback interfaces. Called without a block, it lists the IPv4 loopback
  names (see Findings).

Some definitions carry no contract of their own. They are the vocabulary of
the rows below:
- `Addresses.HasFamily` is `Addrinfo#ipv4?` / `#ipv6?` (lib/interfacez.rb:96, 127).
- `Addresses.IsLoopback` is `#ipv4_loopback?` / `#ipv6_loopback?` (lib/interfacez.rb:50, 69).
- `Addresses.Names` is `collect { |iface| iface.name }` (lib/interfacez.rb:81).
- `Interfacez.GroupTable` is the hash that lib/interfacez.rb:94-99 builds, as
  a function of the snapshot. `GroupTableSpec`, `GroupStep` and
  `GroupAddresses` state its properties.

## Model

| member | source | states |
|---|---|---|
| `Interfacez.Default` | lib/interfacez.rb:8-14 | nothing iff no record has a broadcast address; otherwise the name of the first record that has one, and every earlier record lacks one |
| `Interfacez.FirstLoopbackIndex` | lib/interfacez.rb:49-51 | the early-return scan: every earlier record is not a loopback of the family, and the record found (if any) is one |
| `Interfacez.FamilyLoopbacks` | lib/interfacez.rb:48-52 | the names yielded by the block form are exactly `LoopbackNames(snap, fam)`: one name per loopback record of the family, in snapshot order |
| `Interfacez.Ipv4Loopbacks` | lib/interfacez.rb:53-57 | the collected names are the IPv4 loopback records' names in order, repeats kept; no longer than the snapshot; a name is listed iff some record with that name has an IPv4 loopback address |
| `Interfacez.Ipv6LoopbacksAsWritten` | lib/interfacez.rb:72-76 | as written, the collected list equals the IPv4 loopback names |
| `Interfacez.Ipv6Loopbacks` | lib/interfacez.rb:66-77 | corrected: the IPv6 loopback records' names in order, repeats kept; a name is listed iff some record with that name has `::1` |
| `Interfacez.Ipv6LoopbacksAsWrittenReportsIpv4` | lib/interfacez.rb:74 | on a snapshot whose only record is `lo` with 127.0.0.1, the as-written list is `["lo"]` while the IPv6 loopback list is empty |
| `Interfacez.Ipv4Loopback` | lib/interfacez.rb:42-44 | found iff some IPv4 loopback record exists; then it is the first such record's name; otherwise the snapshot itself |
| `Interfacez.Ipv6Loopback` | lib/interfacez.rb:61-63 | found iff some IPv6 loopback record exists; then it is the first such record's name; otherwise the snapshot itself |
| `Interfacez.Loopback` | lib/interfacez.rb:17-20 | found iff some IPv4 or IPv6 loopback record exists; the first IPv4 loopback name when there is one, else the first IPv6 loopback name; otherwise the snapshot |
| `Interfacez.LoopbackPresent` | lib/interfacez.rb:23-27 | true iff some record's address is an IPv4 or an IPv6 loopback |
| `Interfacez.LoopbackNamesHead` | lib/interfacez.rb:43-55 | the first name the traversal yields is the name of the record found by the early-return scan |
| `Interfacez.FirstOfFamilyLoopbacks` | lib/interfacez.rb:41-75 | `ipv4_loopback` and `ipv6_loopback` are the first elements of their families' loopback lists, or the snapshot when a list is empty |
| `Interfacez.Loopbacks` | lib/interfacez.rb:30-38 | the list deduplicates the IPv4 names followed by the IPv6 names. It has no repeats. A name is listed iff it belongs to some loopback record. The deduplicated IPv4 names form a prefix. Every name after that prefix has only IPv6 loopback records. Names keep first-seen order |
| `Interfacez.LoopbackHeadsLoopbacks` | lib/interfacez.rb:17-38 | `loopback` is the first element of `loopbacks`, or the snapshot when `loopbacks` is empty |
| `Interfacez.All` | lib/interfacez.rb:80-88 | no name twice; a name is listed iff some record carries it; names in order of first appearance in the snapshot |
| `Interfacez.GroupTableSpec` | lib/interfacez.rb:94-100 | the hash built record by record has a key iff the name has an address of the family, and each value is that name's addresses of the family in snapshot order |
| `Interfacez.GroupStep` | lib/interfacez.rb:96-99 | one more record adds its address to its own name's array, creating the array and a new last key only on the name's first record of the family; other records change nothing |
| `Interfacez.GroupAddresses` | lib/interfacez.rb:94-100 | the loop's keys are the family's names deduplicated in first-seen order, and its hash is the one `GroupTable` describes |
| `Interfacez.GroupFacts` | lib/interfacez.rb:92-107 | the finished hash: keys in first-seen order, a key iff some record of that name has the family, keys exactly the hash's domain, every value non-empty and equal to the name's addresses |
| `Interfacez.Ipv4Addresses` | lib/interfacez.rb:92-107 | keys without repeats in first-seen order, exactly the names with an IPv4 record, each value non-empty and equal to that name's IPv4 addresses in snapshot order |
| `Interfacez.Ipv6Addresses` | lib/interfacez.rb:123-138 | keys without repeats in first-seen order, exactly the names with an IPv6 record, each value non-empty and equal to that name's IPv6 addresses in snapshot order |
| `Interfacez.Ipv4AddressesOf` | lib/interfacez.rb:117-119 | the name's IPv4 addresses in snapshot order; empty iff no record of that name has an IPv4 address |
| `Interfacez.Ipv6AddressesOf` | lib/interfacez.rb:141-143 | the name's IPv6 addresses in snapshot order; empty iff no record of that name has an IPv6 address |
| `Interfacez.Ipv4AddressOf` | lib/interfacez.rb:110-114 | nothing iff the name has no IPv4 address; otherwise the address of the first record of that name with an IPv4 address |
| `Interfacez.Ipv6AddressOf` | lib/interfacez.rb:146-150 | nothing iff the name has no IPv6 address; otherwise the address of the first record of that name with an IPv6 address |
| `Interfacez.Extract` | lib/interfacez.rb:163-175 | per record: nothing on an unsupported platform. On BSD a MAC iff the host part is non-empty and the service part is empty, and then it is the host part. On Linux nothing iff the address text has no `hwaddr=` match; otherwise the greedy run of hex digits and colons after the leftmost match |
| `Interfacez.CollectMacs` | lib/interfacez.rb:163-175 | `map!` then `compact`: every element comes from a record with that name, every MAC a record with that name yields is listed, the list is no longer than the snapshot, and it is empty iff no such record yields a MAC |
| `Interfacez.CollectMacsAppend` | lib/interfacez.rb:163-175 | collecting over a snapshot split in two gives the first part's MACs followed by the second part's |
| `Interfacez.CollectMacsFirst` | lib/interfacez.rb:163-175 | the first collected MAC comes from the first record with that name that yields one |
| `Interfacez.MacAddressesOf` | lib/interfacez.rb:159-180 | all available MACs: `[]` on an unsupported platform. Otherwise empty iff no record with that name yields a MAC. Every element comes from a record with that name, and every MAC such a record yields is listed. On Linux each is a non-empty string of hex digits and colons. On BSD each is a non-empty host part whose service part is empty |
| `Interfacez.MacAddressesOfAppend` | lib/interfacez.rb:160-180 | order and repeats: the list for a snapshot split in two is the first part's list followed by the second part's |
| `Interfacez.MacAddressesOfOne` | lib/interfacez.rb:163-175 | a single record contributes exactly its own MAC once, or nothing when it has another name or yields none |
| `Interfacez.MacAddressOf` | lib/interfacez.rb:153-157 | nothing iff the platform is unsupported or no record with that name yields a MAC; otherwise the MAC of the first record with that name that yields one |
| `Interfacez.IndexOf` | lib/interfacez.rb:183-188 | nothing iff no record has the name; otherwise the `ifindex` of the first record with that name |
| `Hwaddr.HwRun` | lib/interfacez.rb:174 | the greedy `[\h:]+` run: a slice of the text of such characters that ends at the end of the text or before a character outside the class |
| `Hwaddr.HwAddrFrom` | lib/interfacez.rb:174 | nothing iff `hwaddr=` followed by a hex digit or colon occurs nowhere from the start position on; otherwise the greedy run after the leftmost such occurrence |
| `Hwaddr.HwAddr` | lib/interfacez.rb:174 | the capture of `/hwaddr=([\h:]+)/`: nothing iff there is no match; otherwise the greedy run after the leftmost match, non-empty and made of hex digits and colons |
| `Addresses.LoopbackNames` | lib/interfacez.rb:49-55 | no longer than the snapshot, empty iff no record is a loopback of the family, and a name is listed iff some record with that name is a loopback of the family |
| `Addresses.FamilyNames` | lib/interfacez.rb:95-97 | a name is listed iff some record with that name has an address of the family |
| `Addresses.AddressesOf` | lib/interfacez.rb:95-99 | empty iff no record with the name has the family; every element is the address of such a record |
| `Addresses.AddressesOfFirst` | lib/interfacez.rb:110-114 | the first address of a name's group belongs to the first record of that name with the family |
| `Addresses.GroupedNames` | lib/interfacez.rb:96-98 | a name's group is non-empty iff the name is among the family's names |
| `Uniq.Dedup` | lib/interfacez.rb:81 | `uniq`: no repeats, the same elements as the input, no longer than the input |
| `Uniq.DedupFirstSeen` | lib/interfacez.rb:81 | `uniq` keeps the elements in the order of their first occurrence |
| `Uniq.DedupAppend` | lib/interfacez.rb:30-38 | deduplicating `a + b` starts with the deduplicated `a`, and every later element is in `b` and not in `a` |
| `Uniq.DedupHead` | lib/interfacez.rb:36 | deduplication keeps the first element in front |

## Findings

| source | as written | input that shows it | evidently intended | confidence | as-written member | corrected member |
|---|---|---|---|---|---|---|
| lib/interfacez.rb:74 | `ipv6_loopbacks` without a block collects from `Interfacez.ipv4_loopbacks`, so it returns the IPv4 loopback names | a snapshot whose only record is `lo` with 127.0.0.1: the result is `["lo"]`, though no record is IPv6; and `::1` records are never listed | collect from `ipv6_loopbacks` with a block: the names of the `::1` records | high; not executed | `Interfacez.Ipv6LoopbacksAsWritten`, `Interfacez.Ipv6LoopbacksAsWrittenReportsIpv4` | `Interfacez.Ipv6Loopbacks` |

`loopbacks` is not affected: its block form calls the block forms of both
traversals, which `FamilyLoopbacks` models.

## Left out

- `raw_interface_addresses` (lib/interfacez.rb:191-196) is not modelled. It
  calls the operating system through `Socket.getifaddrs`, and the snapshot is
  a parameter instead. Its rescue turns any failure into an empty snapshot.
  `Scenario.FailedFetchLoopbacks` and `Scenario.FailedFetchOthers` show the
  answers on that empty snapshot.
- The source re-reads the snapshot on every internal call (`loopback` calls
  `getifaddrs` up to twice). The model passes one snapshot to all sub-queries,
  so it assumes the interface list does not change during one query.
- The `warn` diagnostics (lib/interfacez.rb:177, 194) write to the process's
  standard error and are not modelled.
- `Addrinfo#ip_address` formatting (lib/interfacez.rb:98, 129) is left out. It
  belongs to the socket library. The grouped values are the `Address` values
  themselves, not their text.
- `getnameinfo` and `inspect_sockaddr` (lib/interfacez.rb:165, 174) are socket
  library calls. Their results are the opaque record fields `nameInfo` and
  `inspected`. The model does not cover `getnameinfo` raising for an address
  it cannot resolve.
- `Socket.const_defined?` (lib/interfacez.rb:162, 171) becomes the
  `Platform` input.
- A record whose `addr` is `nil` is not modelled; Ruby would raise
  `NoMethodError` on it. The `Other` tag stands for addresses of any other
  family.
- The block-taking forms are modelled only by what they yield, not by what
  they return:
  - `all`, `ipv4_addresses` and `ipv6_addresses` yield each element of the
    value they return.
  - The block form of `ipv4_loopbacks` / `ipv6_loopbacks` yields the sequence
    `FamilyLoopbacks` computes. It returns the snapshot array, the value of
    the finished `each`.
  - The block form of `loopbacks` (lib/interfacez.rb:31-33) yields every IPv4
    loopback name and then every IPv6 one, repeats included. That is the
    `yielded` sequence `LoopbackNames(snap, IPv4) + LoopbackNames(snap, IPv6)`
    inside `Loopbacks`. It returns the snapshot array.
- `ipv4_addresses(interface)` and `ipv6_addresses(interface)` with a non-nil
  argument only delegate to `ipv4_addresses_of` / `ipv6_addresses_of`.
  Those are modelled as `Ipv4AddressesOf` / `Ipv6AddressesOf`.
- The Ruby `Hash` is modelled as its insertion order (`keys`) plus its contents
  (`groups`), the two values the hash's `each` exposes.
- Interface names are strings. A `nil` interface argument is not modelled.
- `ifindex` is an unbounded `nat`. The model does not check that records of
  one name agree on it; the source does not check this either.
