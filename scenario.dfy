/**
  A client of the query layer: one concrete snapshot with a loopback
  interface carrying both families and one broadcast-capable interface,
  and the answers the contracts alone pin down for it; then the answers
  on an empty snapshot, which is what a failed fetch produces.
 */
module Scenario {
  import opened Wrappers
  import opened Addresses
  import opened Interfacez

  const NoInfo := NameInfo("", "")

  const Lo4 := Record("lo", 1, V4(127, 0, 0, 1), None, NoInfo, "127.0.0.1")
  const Lo6 := Record("lo", 1, V6([0, 0, 0, 0, 0, 0, 0, 1]), None, NoInfo, "::1")
  const Eth0 := Record("eth0", 2, V4(192, 168, 1, 5), Some(V4(192, 168, 1, 255)), NoInfo, "192.168.1.5")

  method HostDefault() {
    var host := [Lo4, Lo6, Eth0];
    var default := Default(host);
    assert host[2].broadcast.Some?;
    ghost var i :| 0 <= i < |host| && host[i].broadcast.Some? && host[i].name == default.value;
    assert i == 2;
    assert default == Some("eth0");
    var index := IndexOf(host, "eth0");
    assert index == Some(2);
  }

  method HostLoopbacks() {
    var host := [Lo4, Lo6, Eth0];
    assert Loopback(host) == Found("lo");
    var loopbacks := Loopbacks(host);
    assert "lo" in loopbacks;
    assert loopbacks == ["lo"];
  }

  method HostAddresses() {
    var host := [Lo4, Lo6, Eth0];
    var eth0 := Ipv4AddressOf(host, "eth0");
    assert Carries(host[2], "eth0", IPv4);
    ghost var i :| 0 <= i < |host| && Carries(host[i], "eth0", IPv4) && host[i].addr == eth0.value;
    assert i == 2;
    assert eth0 == Some(V4(192, 168, 1, 5));
    var lo := Ipv4AddressOf(host, "lo");
    assert Carries(host[0], "lo", IPv4);
    ghost var j :| 0 <= j < |host| && Carries(host[j], "lo", IPv4) && host[j].addr == lo.value;
    assert j == 0;
    assert lo == Some(V4(127, 0, 0, 1));
    var eth1 := Ipv4AddressOf(host, "eth1");
    assert eth1 == None;
  }

  method FailedFetchLoopbacks() {
    assert Loopback([]) == Fallthrough([]);
    assert !LoopbackPresent([]);
    var loopbacks := Loopbacks([]);
    assert loopbacks == [];
  }

  method FailedFetchOthers(n: string, p: Platform) {
    var default := Default([]);
    assert default == None;
    assert All([]) == [];
    var keys, groups := Ipv4Addresses([]);
    assert n !in keys && n !in groups;
    var addresses := Ipv6AddressesOf([], n);
    assert addresses == [];
    assert MacAddressesOf([], p, n) == [];
    var index := IndexOf([], n);
    assert index == None;
  }

  /** The capture of `hwaddr=` on a short packet-family address text. */
  method LinuxMac() {
    var text := "[hwaddr=0a]";
    assert Hwaddr.MatchesAt(text, 1);
    var m := Hwaddr.HwAddr(text);
    assert m.Some?;
    ghost var i :| 0 <= i < |text| && Hwaddr.MatchesAt(text, i) && (forall j :: 0 <= j < i ==> !Hwaddr.MatchesAt(text, j))
                   && Hwaddr.RunAt(text, i + |Hwaddr.Marker|, m.value);
    assert !Hwaddr.MatchesAt(text, 0);
    assert i == 1;
    assert !Hwaddr.IsHwChar(text[10]);
    assert |m.value| == 2;
    assert m.value == text[8..10];
    assert text[8..10] == "0a";
  }
}
