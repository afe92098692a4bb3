/**
  The interface-address records of one snapshot, as `Socket.getifaddrs`
  reports them, and the classification of their addresses.
 */
module Addresses {
  import opened Wrappers

  type Octet = x: int | 0 <= x < 0x100
  type Hextet = x: int | 0 <= x < 0x1_0000

  /** The eight 16-bit groups of an IPv6 address. */
  type Groups = s: seq<Hextet> | |s| == 8 witness [0, 0, 0, 0, 0, 0, 0, 0]

  /** The address of a record, tagged by its family. */
  datatype Address =
    | V4(a: Octet, b: Octet, c: Octet, d: Octet)
    | V6(groups: Groups)
    | Link
    | Other

  /** What `Addrinfo#getnameinfo` answers for a record's address: host and service. */
  datatype NameInfo = NameInfo(host: string, service: string)

  /**
    One interface-address record. `nameInfo` and `inspected` are what the
    socket library's `getnameinfo` and `inspect_sockaddr` produce for the
    record's address; the model treats them as opaque observations.
   */
  datatype Record = Record(
    name: string,
    ifindex: nat,
    addr: Address,
    broadcast: Option<Address>,
    nameInfo: NameInfo,
    inspected: string)

  /** The two address families the queries classify by. */
  datatype Family = IPv4 | IPv6

  /** `Addrinfo#ipv4?` and `Addrinfo#ipv6?`. */
  predicate HasFamily(addr: Address, fam: Family) {
    match fam
    case IPv4 => addr.V4?
    case IPv6 => addr.V6?
  }

  /**
    `Addrinfo#ipv4_loopback?` (127.0.0.0/8, section 3.2.1.3 of RFC 1122) and
    `Addrinfo#ipv6_loopback?` (`::1`, section 2.5.3 of RFC 4291).
   */
  predicate IsLoopback(addr: Address, fam: Family) {
    match fam
    case IPv4 => addr.V4? && addr.a == 127
    case IPv6 => addr.V6? && addr.groups == [0, 0, 0, 0, 0, 0, 0, 1]
  }

  /** The interface names of a snapshot, record by record (`collect { |iface| iface.name }`). */
  function Names(snap: seq<Record>): (r: seq<string>)
    ensures |r| == |snap|
    ensures forall i :: 0 <= i < |snap| ==> r[i] == snap[i].name
  {
    seq(|snap|, i requires 0 <= i < |snap| => snap[i].name)
  }

  /** The names of the records whose address is a loopback address of `fam`, in snapshot order. */
  function LoopbackNames(snap: seq<Record>, fam: Family): (r: seq<string>)
    ensures |r| <= |snap|
    ensures r == [] <==> forall i :: 0 <= i < |snap| ==> !IsLoopback(snap[i].addr, fam)
    ensures forall x :: x in r <==> exists i :: 0 <= i < |snap| && snap[i].name == x && IsLoopback(snap[i].addr, fam)
  {
    if snap == [] then []
    else
      var init, last := snap[..|snap| - 1], snap[|snap| - 1];
      assert forall i :: 0 <= i < |init| ==> init[i] == snap[i];
      LoopbackNames(init, fam) + (if IsLoopback(last.addr, fam) then [last.name] else [])
  }

  /** The names of the records whose address belongs to `fam`, in snapshot order. */
  function FamilyNames(snap: seq<Record>, fam: Family): (r: seq<string>)
    ensures |r| <= |snap|
    ensures forall x :: x in r <==> exists i :: 0 <= i < |snap| && snap[i].name == x && HasFamily(snap[i].addr, fam)
  {
    if snap == [] then []
    else
      var init, last := snap[..|snap| - 1], snap[|snap| - 1];
      assert forall i :: 0 <= i < |init| ==> init[i] == snap[i];
      FamilyNames(init, fam) + (if HasFamily(last.addr, fam) then [last.name] else [])
  }

  /** True when record `rec` is named `n` and carries an address of `fam`. */
  predicate Carries(rec: Record, n: string, fam: Family) {
    rec.name == n && HasFamily(rec.addr, fam)
  }

  /** The `fam` addresses of the records named `n`, in snapshot order. */
  function AddressesOf(snap: seq<Record>, n: string, fam: Family): (r: seq<Address>)
    ensures |r| <= |snap|
    ensures r == [] <==> forall i :: 0 <= i < |snap| ==> !Carries(snap[i], n, fam)
    ensures forall a :: a in r ==> HasFamily(a, fam) && exists i :: 0 <= i < |snap| && Carries(snap[i], n, fam) && snap[i].addr == a
  {
    if snap == [] then []
    else
      var init, last := snap[..|snap| - 1], snap[|snap| - 1];
      assert forall i :: 0 <= i < |init| ==> init[i] == snap[i];
      AddressesOf(init, n, fam) + (if Carries(last, n, fam) then [last.addr] else [])
  }

  /** The first address in `AddressesOf` is that of the first record named `n` with a `fam` address. */
  lemma {:induction false} AddressesOfFirst(snap: seq<Record>, n: string, fam: Family)
    requires AddressesOf(snap, n, fam) != []
    ensures exists i :: 0 <= i < |snap| && Carries(snap[i], n, fam) && snap[i].addr == AddressesOf(snap, n, fam)[0]
                        && forall j :: 0 <= j < i ==> !Carries(snap[j], n, fam)
  {
    var init, last := snap[..|snap| - 1], snap[|snap| - 1];
    assert forall i :: 0 <= i < |init| ==> init[i] == snap[i];
    if AddressesOf(init, n, fam) != [] {
      AddressesOfFirst(init, n, fam);
    } else {
      assert Carries(last, n, fam);
      assert AddressesOf(snap, n, fam)[0] == last.addr;
    }
  }

  /** A name has a non-empty group exactly when it is among the `fam` names. */
  lemma GroupedNames(snap: seq<Record>, n: string, fam: Family)
    ensures AddressesOf(snap, n, fam) != [] <==> n in FamilyNames(snap, fam)
  {
    if n in FamilyNames(snap, fam) {
      var i :| 0 <= i < |snap| && snap[i].name == n && HasFamily(snap[i].addr, fam);
      assert Carries(snap[i], n, fam);
    }
  }

  /** Appending a record adds its name to `FamilyNames` exactly when it has a `fam` address. */
  lemma FamilyNamesSnoc(snap: seq<Record>, rec: Record, fam: Family)
    ensures HasFamily(rec.addr, fam) ==> FamilyNames(snap + [rec], fam) == FamilyNames(snap, fam) + [rec.name]
    ensures !HasFamily(rec.addr, fam) ==> FamilyNames(snap + [rec], fam) == FamilyNames(snap, fam)
  {
    assert (snap + [rec])[..|snap|] == snap;
    assert FamilyNames(snap, fam) + [] == FamilyNames(snap, fam);
  }

  /** Appending a record adds its address to the group of its own name only. */
  lemma AddressesOfSnoc(snap: seq<Record>, rec: Record, n: string, fam: Family)
    ensures AddressesOf(snap + [rec], n, fam) == AddressesOf(snap, n, fam) + (if Carries(rec, n, fam) then [rec.addr] else [])
  {
    assert (snap + [rec])[..|snap|] == snap;
  }
}
