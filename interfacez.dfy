/**
  The query layer of the `Interfacez` Ruby module. Every query is a function
  of one snapshot of interface-address records, which the model takes as the
  parameter `snap` instead of calling `Socket.getifaddrs`.
 */
module Interfacez {
  import opened Wrappers
  import opened Addresses
  import opened Uniq
  import Hwaddr

  /** Which link-layer representation the platform's socket library offers. */
  datatype Platform =
    | Bsd          // `PF_LINK` is defined (checked first)
    | Linux        // `PF_PACKET` is defined
    | Unsupported  // neither

  /**
    The answer of `loopback`, `ipv4_loopback` and `ipv6_loopback`: the name of
    the first matching record, or, when none matches, the value of the
    `each` iteration that ran out, which is the snapshot array itself.
   */
  datatype LoopbackAnswer = Found(name: string) | Fallthrough(snapshot: seq<Record>)

  // ---------------------------------------------------------------- default

  /** `default`: the name of the first record that has a broadcast address. */
  method Default(snap: seq<Record>) returns (r: Option<string>)
    ensures r.None? <==> forall i :: 0 <= i < |snap| ==> snap[i].broadcast.None?
    ensures r.Some? ==> exists i :: 0 <= i < |snap| && snap[i].broadcast.Some? && snap[i].name == r.value
                                    && forall j :: 0 <= j < i ==> snap[j].broadcast.None?
  {
    var i := 0;
    while i < |snap|
      invariant 0 <= i <= |snap|
      invariant forall j :: 0 <= j < i ==> snap[j].broadcast.None?
    {
      if snap[i].broadcast.Some? {
        return Some(snap[i].name);
      }
      i := i + 1;
    }
    return None;
  }

  // ---------------------------------------------------------------- loopbacks

  /** The position of the first record with a `fam` loopback address, or `|snap|` if there is none. */
  function FirstLoopbackIndex(snap: seq<Record>, fam: Family): (k: nat)
    ensures k <= |snap|
    ensures forall j :: 0 <= j < k ==> !IsLoopback(snap[j].addr, fam)
    ensures k < |snap| ==> IsLoopback(snap[k].addr, fam)
  {
    if snap == [] then 0
    else if IsLoopback(snap[0].addr, fam) then 0
    else 1 + FirstLoopbackIndex(snap[1..], fam)
  }

  /** Some record has a `fam` loopback address. */
  ghost predicate HasLoopback(snap: seq<Record>, fam: Family) {
    exists i :: 0 <= i < |snap| && IsLoopback(snap[i].addr, fam)
  }

  /** `n` names the first record of `snap` that has a `fam` loopback address. */
  ghost predicate IsFirstLoopback(snap: seq<Record>, fam: Family, n: string) {
    exists i :: 0 <= i < |snap| && IsLoopback(snap[i].addr, fam) && snap[i].name == n
                && forall j :: 0 <= j < i ==> !IsLoopback(snap[j].addr, fam)
  }

  /**
    The traversal behind `ipv4_loopbacks` and `ipv6_loopbacks` with a block:
    the names it yields, one per record with a `fam` loopback address.
   */
  method FamilyLoopbacks(snap: seq<Record>, fam: Family) returns (names: seq<string>)
    ensures names == LoopbackNames(snap, fam)
  {
    names := [];
    for i := 0 to |snap|
      invariant names == LoopbackNames(snap[..i], fam)
    {
      assert snap[..i + 1][..i] == snap[..i];
      if IsLoopback(snap[i].addr, fam) {
        names := names + [snap[i].name];
      }
    }
    assert snap[..|snap|] == snap;
  }

  /** `ipv4_loopbacks` without a block: every IPv4 loopback record's name, repeats kept. */
  method Ipv4Loopbacks(snap: seq<Record>) returns (names: seq<string>)
    ensures names == LoopbackNames(snap, IPv4)
    ensures |names| <= |snap|
    ensures forall x :: x in names <==> exists i :: 0 <= i < |snap| && snap[i].name == x && IsLoopback(snap[i].addr, IPv4)
  {
    names := FamilyLoopbacks(snap, IPv4);
  }

  /**
    `ipv6_loopbacks` without a block, as written: it collects what
    `ipv4_loopbacks` yields, so it lists the IPv4 loopback names.
   */
  method Ipv6LoopbacksAsWritten(snap: seq<Record>) returns (names: seq<string>)
    ensures names == LoopbackNames(snap, IPv4)
  {
    names := FamilyLoopbacks(snap, IPv4);
  }

  /** `ipv6_loopbacks` without a block as evidently intended: every IPv6 loopback record's name. */
  method Ipv6Loopbacks(snap: seq<Record>) returns (names: seq<string>)
    ensures names == LoopbackNames(snap, IPv6)
    ensures |names| <= |snap|
    ensures forall x :: x in names <==> exists i :: 0 <= i < |snap| && snap[i].name == x && IsLoopback(snap[i].addr, IPv6)
  {
    names := FamilyLoopbacks(snap, IPv6);
  }

  /** A snapshot with a single IPv4 loopback record, on which the two versions of `ipv6_loopbacks` differ. */
  const Ipv4OnlyLoopback: seq<Record> :=
    [Record("lo", 1, V4(127, 0, 0, 1), None, NameInfo("localhost", "0"), "127.0.0.1")]

  /** `ipv6_loopbacks` as written reports `lo` on a snapshot without any IPv6 address. */
  lemma Ipv6LoopbacksAsWrittenReportsIpv4()
    ensures LoopbackNames(Ipv4OnlyLoopback, IPv4) == ["lo"]
    ensures LoopbackNames(Ipv4OnlyLoopback, IPv6) == []
  {
    assert Ipv4OnlyLoopback[..0] == [];
  }

  /** `ipv4_loopback`: the name of the first IPv4 loopback record, else the snapshot. */
  function Ipv4Loopback(snap: seq<Record>): (r: LoopbackAnswer)
    ensures r.Found? <==> HasLoopback(snap, IPv4)
    ensures r.Found? ==> IsFirstLoopback(snap, IPv4, r.name)
    ensures r.Fallthrough? ==> r.snapshot == snap
  {
    var k := FirstLoopbackIndex(snap, IPv4);
    if k < |snap| then Found(snap[k].name) else Fallthrough(snap)
  }

  /** `ipv6_loopback`: the name of the first IPv6 loopback record, else the snapshot. */
  function Ipv6Loopback(snap: seq<Record>): (r: LoopbackAnswer)
    ensures r.Found? <==> HasLoopback(snap, IPv6)
    ensures r.Found? ==> IsFirstLoopback(snap, IPv6, r.name)
    ensures r.Fallthrough? ==> r.snapshot == snap
  {
    var k := FirstLoopbackIndex(snap, IPv6);
    if k < |snap| then Found(snap[k].name) else Fallthrough(snap)
  }

  /**
    `loopback`: the first IPv4 loopback record's name if there is one, else the
    first IPv6 loopback record's name, else the snapshot.
   */
  function Loopback(snap: seq<Record>): (r: LoopbackAnswer)
    ensures r.Found? <==> HasLoopback(snap, IPv4) || HasLoopback(snap, IPv6)
    ensures r.Found? && HasLoopback(snap, IPv4) ==> IsFirstLoopback(snap, IPv4, r.name)
    ensures r.Found? && !HasLoopback(snap, IPv4) ==> IsFirstLoopback(snap, IPv6, r.name)
    ensures r.Fallthrough? ==> r.snapshot == snap
  {
    var v4 := Ipv4Loopback(snap);
    if v4.Found? then v4 else Ipv6Loopback(snap)
  }

  /** `loopback?`: some record has an IPv4 or an IPv6 loopback address. */
  function LoopbackPresent(snap: seq<Record>): (b: bool)
    ensures b <==> exists i :: 0 <= i < |snap| && (IsLoopback(snap[i].addr, IPv4) || IsLoopback(snap[i].addr, IPv6))
  {
    FirstLoopbackIndex(snap, IPv4) < |snap| || FirstLoopbackIndex(snap, IPv6) < |snap|
  }

  /** A position holding a `fam` loopback record with none before it is the first loopback index. */
  lemma FirstLoopbackIndexUnique(snap: seq<Record>, fam: Family, k: nat)
    requires k < |snap| && IsLoopback(snap[k].addr, fam)
    requires forall j :: 0 <= j < k ==> !IsLoopback(snap[j].addr, fam)
    ensures FirstLoopbackIndex(snap, fam) == k
  {
  }

  /** The first name `FamilyLoopbacks` yields is that of the first `fam` loopback record. */
  lemma {:induction false} LoopbackNamesHead(snap: seq<Record>, fam: Family)
    requires LoopbackNames(snap, fam) != []
    ensures FirstLoopbackIndex(snap, fam) < |snap|
    ensures LoopbackNames(snap, fam)[0] == snap[FirstLoopbackIndex(snap, fam)].name
  {
    var init, last := snap[..|snap| - 1], snap[|snap| - 1];
    assert snap == init + [last];
    if LoopbackNames(init, fam) != [] {
      LoopbackNamesHead(init, fam);
      var k := FirstLoopbackIndex(init, fam);
      assert snap[k] == init[k];
      FirstLoopbackIndexUnique(snap, fam, k);
      assert LoopbackNames(snap, fam)[0] == LoopbackNames(init, fam)[0];
    } else {
      assert IsLoopback(last.addr, fam);
      FirstLoopbackIndexUnique(snap, fam, |init|);
      assert LoopbackNames(snap, fam) == [last.name];
    }
  }

  /** `ipv4_loopback` is the first element of `ipv4_loopbacks`, and so on for IPv6. */
  lemma FirstOfFamilyLoopbacks(snap: seq<Record>)
    ensures Ipv4Loopback(snap) == if LoopbackNames(snap, IPv4) == [] then Fallthrough(snap) else Found(LoopbackNames(snap, IPv4)[0])
    ensures Ipv6Loopback(snap) == if LoopbackNames(snap, IPv6) == [] then Fallthrough(snap) else Found(LoopbackNames(snap, IPv6)[0])
  {
    if LoopbackNames(snap, IPv4) != [] {
      LoopbackNamesHead(snap, IPv4);
    }
    if LoopbackNames(snap, IPv6) != [] {
      LoopbackNamesHead(snap, IPv6);
    }
  }

  /**
    `loopbacks` without a block: the names yielded for IPv4 loopback records,
    then those yielded for IPv6 loopback records, each kept only the first time.
   */
  method Loopbacks(snap: seq<Record>) returns (names: seq<string>)
    ensures names == Dedup(LoopbackNames(snap, IPv4) + LoopbackNames(snap, IPv6))
    ensures NoDups(names)
    ensures forall x :: x in names <==>
              exists i :: 0 <= i < |snap| && snap[i].name == x && (IsLoopback(snap[i].addr, IPv4) || IsLoopback(snap[i].addr, IPv6))
    ensures Dedup(LoopbackNames(snap, IPv4)) <= names
    ensures forall i :: |Dedup(LoopbackNames(snap, IPv4))| <= i < |names| ==>
              names[i] !in LoopbackNames(snap, IPv4) && names[i] in LoopbackNames(snap, IPv6)
    ensures FirstSeenOrder(names, LoopbackNames(snap, IPv4) + LoopbackNames(snap, IPv6))
  {
    var v4 := FamilyLoopbacks(snap, IPv4);
    var v6 := FamilyLoopbacks(snap, IPv6);
    var yielded := v4 + v6;
    names := [];
    for i := 0 to |yielded|
      invariant names == Dedup(yielded[..i])
    {
      assert yielded[..i + 1][..i] == yielded[..i];
      if yielded[i] !in names {
        names := names + [yielded[i]];
      }
    }
    assert yielded[..|yielded|] == yielded;
    DedupAppend(v4, v6);
    DedupFirstSeen(yielded);
  }

  /** The first name of `loopbacks` is the name `loopback` finds. */
  lemma LoopbackHeadsLoopbacks(snap: seq<Record>)
    ensures var all := Dedup(LoopbackNames(snap, IPv4) + LoopbackNames(snap, IPv6));
            Loopback(snap) == if all == [] then Fallthrough(snap) else Found(all[0])
  {
    var v4, v6 := LoopbackNames(snap, IPv4), LoopbackNames(snap, IPv6);
    FirstOfFamilyLoopbacks(snap);
    if v4 + v6 != [] {
      DedupHead(v4 + v6);
      assert (v4 + v6)[0] == if v4 != [] then v4[0] else v6[0];
    }
  }

  // ---------------------------------------------------------------- all

  /** `all`: every interface name of the snapshot once, in first-seen order. */
  function All(snap: seq<Record>): (r: seq<string>)
    ensures NoDups(r)
    ensures forall x :: x in r <==> exists i :: 0 <= i < |snap| && snap[i].name == x
    ensures FirstSeenOrder(r, Names(snap))
  {
    DedupFirstSeen(Names(snap));
    Dedup(Names(snap))
  }

  // ---------------------------------------------------------------- addresses by family

  /**
    The hash `ipv4_addresses` / `ipv6_addresses` holds after reading `snap`:
    each record with a `fam` address appends that address to the array of its
    name, creating the array on the name's first `fam` record.
   */
  function GroupTable(snap: seq<Record>, fam: Family): map<string, seq<Address>>
  {
    if snap == [] then map[]
    else
      var t, last := GroupTable(snap[..|snap| - 1], fam), snap[|snap| - 1];
      if HasFamily(last.addr, fam) then t[last.name := (if last.name in t then t[last.name] else []) + [last.addr]]
      else t
  }

  /** The hash has a key for every name with a `fam` address, mapped to that name's `fam` addresses. */
  lemma {:induction false} GroupTableSpec(snap: seq<Record>, fam: Family)
    ensures forall n :: n in GroupTable(snap, fam) <==> n in FamilyNames(snap, fam)
    ensures forall n :: n in GroupTable(snap, fam) ==> GroupTable(snap, fam)[n] == AddressesOf(snap, n, fam)
  {
    if snap != [] {
      var init, last := snap[..|snap| - 1], snap[|snap| - 1];
      assert snap == init + [last];
      GroupTableSpec(init, fam);
      FamilyNamesSnoc(init, last, fam);
      forall n
        ensures n in GroupTable(snap, fam) ==> GroupTable(snap, fam)[n] == AddressesOf(snap, n, fam)
      {
        AddressesOfSnoc(init, last, n, fam);
        GroupedNames(init, n, fam);
        if n != last.name || !HasFamily(last.addr, fam) {
          assert AddressesOf(init, n, fam) + [] == AddressesOf(init, n, fam);
        }
      }
    }
  }

  /** One record more: how the hash and its insertion order change. */
  lemma GroupStep(prefix: seq<Record>, rec: Record, fam: Family)
    ensures (rec.name in GroupTable(prefix, fam)) == (rec.name in Dedup(FamilyNames(prefix, fam)))
    ensures GroupTable(prefix + [rec], fam) ==
              if !HasFamily(rec.addr, fam) then GroupTable(prefix, fam)
              else var t := GroupTable(prefix, fam); t[rec.name := (if rec.name in t then t[rec.name] else []) + [rec.addr]]
    ensures Dedup(FamilyNames(prefix + [rec], fam)) ==
              if HasFamily(rec.addr, fam) && rec.name !in Dedup(FamilyNames(prefix, fam))
              then Dedup(FamilyNames(prefix, fam)) + [rec.name] else Dedup(FamilyNames(prefix, fam))
  {
    assert (prefix + [rec])[..|prefix|] == prefix;
    GroupTableSpec(prefix, fam);
    FamilyNamesSnoc(prefix, rec, fam);
    DedupSnoc(FamilyNames(prefix, fam), rec.name);
  }

  /**
    The loop of `ipv4_addresses` and `ipv6_addresses`: the hash built record by
    record. `keys` is the hash's insertion order, `groups` its contents.
   */
  method GroupAddresses(snap: seq<Record>, fam: Family) returns (keys: seq<string>, groups: map<string, seq<Address>>)
    ensures keys == Dedup(FamilyNames(snap, fam))
    ensures groups == GroupTable(snap, fam)
  {
    keys, groups := [], map[];
    for i := 0 to |snap|
      invariant keys == Dedup(FamilyNames(snap[..i], fam))
      invariant groups == GroupTable(snap[..i], fam)
    {
      var rec := snap[i];
      assert snap[..i + 1] == snap[..i] + [rec];
      GroupStep(snap[..i], rec, fam);
      if HasFamily(rec.addr, fam) {
        var group := [];
        if rec.name in groups {
          group := groups[rec.name];
        } else {
          keys := keys + [rec.name];
        }
        groups := groups[rec.name := group + [rec.addr]];
      }
    }
    assert snap[..|snap|] == snap;
  }

  /** What the finished hash satisfies. */
  lemma GroupFacts(snap: seq<Record>, fam: Family)
    ensures FirstSeenOrder(Dedup(FamilyNames(snap, fam)), FamilyNames(snap, fam))
    ensures forall n :: n in Dedup(FamilyNames(snap, fam)) <==> exists i :: 0 <= i < |snap| && Carries(snap[i], n, fam)
    ensures forall n :: n in GroupTable(snap, fam) <==> n in Dedup(FamilyNames(snap, fam))
    ensures forall n :: n in GroupTable(snap, fam) ==> GroupTable(snap, fam)[n] != [] && GroupTable(snap, fam)[n] == AddressesOf(snap, n, fam)
  {
    DedupFirstSeen(FamilyNames(snap, fam));
    GroupTableSpec(snap, fam);
    forall n | n in GroupTable(snap, fam)
      ensures AddressesOf(snap, n, fam) != []
    {
      GroupedNames(snap, n, fam);
    }
  }

  /** `ipv4_addresses` without an interface name: the IPv4 addresses grouped by interface name. */
  method Ipv4Addresses(snap: seq<Record>) returns (keys: seq<string>, groups: map<string, seq<Address>>)
    ensures NoDups(keys) && FirstSeenOrder(keys, FamilyNames(snap, IPv4))
    ensures forall n :: n in keys <==> exists i :: 0 <= i < |snap| && Carries(snap[i], n, IPv4)
    ensures forall n :: n in groups <==> n in keys
    ensures forall n :: n in groups ==> groups[n] != [] && groups[n] == AddressesOf(snap, n, IPv4)
  {
    keys, groups := GroupAddresses(snap, IPv4);
    GroupFacts(snap, IPv4);
  }

  /** `ipv6_addresses` without an interface name: the IPv6 addresses grouped by interface name. */
  method Ipv6Addresses(snap: seq<Record>) returns (keys: seq<string>, groups: map<string, seq<Address>>)
    ensures NoDups(keys) && FirstSeenOrder(keys, FamilyNames(snap, IPv6))
    ensures forall n :: n in keys <==> exists i :: 0 <= i < |snap| && Carries(snap[i], n, IPv6)
    ensures forall n :: n in groups <==> n in keys
    ensures forall n :: n in groups ==> groups[n] != [] && groups[n] == AddressesOf(snap, n, IPv6)
  {
    keys, groups := GroupAddresses(snap, IPv6);
    GroupFacts(snap, IPv6);
  }

  /** `ipv4_addresses_of`: the group of `n`, or `[]` when `n` has no IPv4 address. */
  method Ipv4AddressesOf(snap: seq<Record>, n: string) returns (r: seq<Address>)
    ensures r == AddressesOf(snap, n, IPv4)
    ensures r == [] <==> forall i :: 0 <= i < |snap| ==> !Carries(snap[i], n, IPv4)
  {
    var keys, groups := GroupAddresses(snap, IPv4);
    GroupFacts(snap, IPv4);
    GroupedNames(snap, n, IPv4);
    r := if n in groups then groups[n] else [];
  }

  /** `ipv6_addresses_of`: the group of `n`, or `[]` when `n` has no IPv6 address. */
  method Ipv6AddressesOf(snap: seq<Record>, n: string) returns (r: seq<Address>)
    ensures r == AddressesOf(snap, n, IPv6)
    ensures r == [] <==> forall i :: 0 <= i < |snap| ==> !Carries(snap[i], n, IPv6)
  {
    var keys, groups := GroupAddresses(snap, IPv6);
    GroupFacts(snap, IPv6);
    GroupedNames(snap, n, IPv6);
    r := if n in groups then groups[n] else [];
  }

  /** `n` has an address of `fam`, and `a` is that of the first record named `n` with one. */
  ghost predicate IsFirstAddress(snap: seq<Record>, n: string, fam: Family, a: Address) {
    exists i :: 0 <= i < |snap| && Carries(snap[i], n, fam) && snap[i].addr == a
                && forall j :: 0 <= j < i ==> !Carries(snap[j], n, fam)
  }

  /** `ipv4_address_of`: nothing when `n` has no group in the hash, else the group's first address. */
  method Ipv4AddressOf(snap: seq<Record>, n: string) returns (r: Option<Address>)
    ensures r.None? <==> forall i :: 0 <= i < |snap| ==> !Carries(snap[i], n, IPv4)
    ensures r.Some? ==> IsFirstAddress(snap, n, IPv4, r.value)
  {
    var keys, groups := GroupAddresses(snap, IPv4);
    GroupFacts(snap, IPv4);
    GroupedNames(snap, n, IPv4);
    if n !in groups {
      return None;
    }
    AddressesOfFirst(snap, n, IPv4);
    r := Some(groups[n][0]);
  }

  /** `ipv6_address_of`: the first element of `ipv6_addresses_of`, nothing when that is empty. */
  method Ipv6AddressOf(snap: seq<Record>, n: string) returns (r: Option<Address>)
    ensures r.None? <==> forall i :: 0 <= i < |snap| ==> !Carries(snap[i], n, IPv6)
    ensures r.Some? ==> IsFirstAddress(snap, n, IPv6, r.value)
  {
    var addresses := Ipv6AddressesOf(snap, n);
    if addresses == [] {
      return None;
    }
    AddressesOfFirst(snap, n, IPv6);
    r := Some(addresses[0]);
  }

  // ---------------------------------------------------------------- MAC addresses

  /**
    The MAC address one record yields on platform `p`, if any. On BSD: the host
    part of `getnameinfo` when it is non-empty and the service part is empty.
    On Linux: the `hwaddr=` capture of `inspect_sockaddr`.
   */
  function Extract(p: Platform, rec: Record): (r: Option<string>)
    ensures p.Unsupported? ==> r.None?
    ensures p.Bsd? ==> (r.Some? <==> rec.nameInfo.host != "" && rec.nameInfo.service == "")
    ensures p.Bsd? && r.Some? ==> rec.nameInfo == NameInfo(r.value, "") && r.value != ""
    ensures p.Linux? ==> (r.None? <==> forall i :: 0 <= i < |rec.inspected| ==> !Hwaddr.MatchesAt(rec.inspected, i))
    ensures p.Linux? && r.Some? ==>
              exists i :: 0 <= i < |rec.inspected| && Hwaddr.MatchesAt(rec.inspected, i)
                          && (forall j :: 0 <= j < i ==> !Hwaddr.MatchesAt(rec.inspected, j))
                          && Hwaddr.RunAt(rec.inspected, i + |Hwaddr.Marker|, r.value)
    ensures p.Linux? && r.Some? ==> r.value != "" && forall c :: c in r.value ==> Hwaddr.IsHwChar(c)
  {
    match p
    case Bsd =>
      if rec.nameInfo.host != "" && rec.nameInfo.service == "" then Some(rec.nameInfo.host) else None
    case Linux => Hwaddr.HwAddr(rec.inspected)
    case Unsupported => None
  }

  /** No record named `n` yields a MAC address on `p`. */
  ghost predicate NoMac(snap: seq<Record>, p: Platform, n: string) {
    forall i :: 0 <= i < |snap| && snap[i].name == n ==> Extract(p, snap[i]).None?
  }

  /** Record `rec` is named `n` and yields the MAC address `m` on `p`. */
  predicate Yields(rec: Record, p: Platform, n: string, m: string) {
    rec.name == n && Extract(p, rec) == Some(m)
  }

  /** `map!` over the snapshot followed by `compact`: the MAC addresses the records named `n` yield, in order. */
  function CollectMacs(snap: seq<Record>, p: Platform, n: string): (r: seq<string>)
    ensures forall m :: m in r ==> exists i :: 0 <= i < |snap| && Yields(snap[i], p, n, m)
    ensures forall i, m :: 0 <= i < |snap| && Yields(snap[i], p, n, m) ==> m in r
    ensures r == [] <==> NoMac(snap, p, n)
    ensures |r| <= |snap|
  {
    if snap == [] then []
    else
      var rest := CollectMacs(snap[1..], p, n);
      assert forall i :: 1 <= i < |snap| ==> snap[1..][i - 1] == snap[i];
      if snap[0].name == n && Extract(p, snap[0]).Some? then [Extract(p, snap[0]).value] + rest
      else rest
  }

  /** A record that yields nothing, in front of a prefix that yields nothing, yields nothing. */
  lemma NoMacCons(snap: seq<Record>, p: Platform, n: string, i: nat)
    requires i < |snap| && !(snap[0].name == n && Extract(p, snap[0]).Some?)
    requires NoMac(snap[1..][..i], p, n)
    ensures NoMac(snap[..i + 1], p, n)
  {
    forall j | 0 < j < i + 1 && snap[j].name == n
      ensures Extract(p, snap[j]).None?
    {
      assert snap[j] == snap[1..][..i][j - 1];
    }
  }

  /** The first collected MAC address comes from the first record named `n` that yields one. */
  lemma {:induction false} CollectMacsFirst(snap: seq<Record>, p: Platform, n: string)
    requires CollectMacs(snap, p, n) != []
    ensures exists i :: 0 <= i < |snap| && Yields(snap[i], p, n, CollectMacs(snap, p, n)[0]) && NoMac(snap[..i], p, n)
  {
    var m := CollectMacs(snap, p, n)[0];
    if snap[0].name == n && Extract(p, snap[0]).Some? {
      assert Yields(snap[0], p, n, m) && NoMac(snap[..0], p, n);
    } else {
      var tail := snap[1..];
      assert CollectMacs(snap, p, n) == CollectMacs(tail, p, n);
      CollectMacsFirst(tail, p, n);
      var i :| 0 <= i < |tail| && Yields(tail[i], p, n, m) && NoMac(tail[..i], p, n);
      NoMacCons(snap, p, n, i);
      assert snap[i + 1] == tail[i];
    }
  }

  /** `mac_addresses_of`: the MAC addresses of interface `n` on platform `p`. */
  function MacAddressesOf(snap: seq<Record>, p: Platform, n: string): (r: seq<string>)
    ensures p.Unsupported? ==> r == []
    ensures !p.Unsupported? ==> (r == [] <==> NoMac(snap, p, n))
    ensures forall m :: m in r ==> exists i :: 0 <= i < |snap| && snap[i].name == n && Extract(p, snap[i]) == Some(m)
    ensures forall i, m :: 0 <= i < |snap| && Yields(snap[i], p, n, m) ==> m in r
    ensures |r| <= |snap|
    ensures p.Linux? ==> forall m :: m in r ==> m != "" && forall c :: c in m ==> Hwaddr.IsHwChar(c)
    ensures p.Bsd? ==> forall m :: m in r ==> m != "" && exists i :: 0 <= i < |snap| && snap[i].name == n && snap[i].nameInfo == NameInfo(m, "")
  {
    if p.Unsupported? then [] else CollectMacs(snap, p, n)
  }

  /** Collecting over two consecutive parts of a snapshot concatenates the two collections. */
  lemma {:induction false} CollectMacsAppend(s1: seq<Record>, s2: seq<Record>, p: Platform, n: string)
    ensures CollectMacs(s1 + s2, p, n) == CollectMacs(s1, p, n) + CollectMacs(s2, p, n)
  {
    if s1 == [] {
      assert s1 + s2 == s2;
    } else {
      assert (s1 + s2)[1..] == s1[1..] + s2;
      CollectMacsAppend(s1[1..], s2, p, n);
    }
  }

  /**
    `mac_addresses_of` keeps snapshot order and repeats: the list for a
    snapshot split in two is the list for the first part followed by the list
    for the second part.
   */
  lemma MacAddressesOfAppend(s1: seq<Record>, s2: seq<Record>, p: Platform, n: string)
    ensures MacAddressesOf(s1 + s2, p, n) == MacAddressesOf(s1, p, n) + MacAddressesOf(s2, p, n)
  {
    if !p.Unsupported? {
      CollectMacsAppend(s1, s2, p, n);
    }
  }

  /** One record contributes exactly its own MAC address, or nothing. */
  lemma MacAddressesOfOne(rec: Record, p: Platform, n: string)
    ensures forall m :: Yields(rec, p, n, m) ==> MacAddressesOf([rec], p, n) == [m]
    ensures (rec.name != n || Extract(p, rec).None?) ==> MacAddressesOf([rec], p, n) == []
  {
  }

  /** `mac_address_of`: the first MAC address of `n`, nothing when there is none. */
  function MacAddressOf(snap: seq<Record>, p: Platform, n: string): (r: Option<string>)
    ensures r.None? <==> p.Unsupported? || NoMac(snap, p, n)
    ensures r.Some? ==> exists i :: 0 <= i < |snap| && snap[i].name == n && Extract(p, snap[i]) == r
                                    && NoMac(snap[..i], p, n)
  {
    var list := MacAddressesOf(snap, p, n);
    if |list| == 0 then None
    else
      CollectMacsFirst(snap, p, n);
      Some(list[0])
  }

  // ---------------------------------------------------------------- index

  /** `index_of`: the interface index of the first record named `n`. */
  method IndexOf(snap: seq<Record>, n: string) returns (r: Option<nat>)
    ensures r.None? <==> forall i :: 0 <= i < |snap| ==> snap[i].name != n
    ensures r.Some? ==> exists i :: 0 <= i < |snap| && snap[i].name == n && snap[i].ifindex == r.value
                                    && forall j :: 0 <= j < i ==> snap[j].name != n
  {
    for i := 0 to |snap|
      invariant forall j :: 0 <= j < i ==> snap[j].name != n
    {
      if snap[i].name == n {
        return Some(snap[i].ifindex);
      }
    }
    return None;
  }
}
