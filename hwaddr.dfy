/**
  The Linux branch of MAC extraction: the capture of the regular expression
  `/hwaddr=([\h:]+)/` in the text of a packet-family socket address
  (for example `PACKET[protocol=0 eth0 hwaddr=00:11:22:33:44:55]`).
 */
module Hwaddr {
  import opened Wrappers

  const Marker: string := "hwaddr="

  /** The character class `[\h:]`: a hexadecimal digit or a colon. */
  predicate IsHwChar(c: char) {
    '0' <= c <= '9' || 'a' <= c <= 'f' || 'A' <= c <= 'F' || c == ':'
  }

  /** The regular expression can match starting at position `i` of `s`. */
  predicate MatchesAt(s: string, i: nat) {
    i + |Marker| < |s| && s[i..i + |Marker|] == Marker && IsHwChar(s[i + |Marker|])
  }

  /** `m` is the greedy run of `[\h:]` characters that starts at position `k` of `s`. */
  predicate RunAt(s: string, k: nat, m: string) {
    && k + |m| <= |s|
    && s[k..k + |m|] == m
    && (forall j :: k <= j < k + |m| ==> IsHwChar(s[j]))
    && (k + |m| == |s| || !IsHwChar(s[k + |m|]))
  }

  /** The longest run of `[\h:]` characters starting at position `k`. */
  function HwRun(s: string, k: nat): (m: string)
    requires k <= |s|
    ensures RunAt(s, k, m)
    ensures k < |s| && IsHwChar(s[k]) ==> m != []
    ensures forall c :: c in m ==> IsHwChar(c)
    decreases |s| - k
  {
    if k < |s| && IsHwChar(s[k]) then [s[k]] + HwRun(s, k + 1) else []
  }

  /** The capture of the leftmost match at or after position `i`. */
  function HwAddrFrom(s: string, i: nat): (r: Option<string>)
    requires i <= |s|
    ensures r.None? <==> forall j :: i <= j < |s| ==> !MatchesAt(s, j)
    ensures r.Some? ==> exists j :: i <= j < |s| && MatchesAt(s, j) && (forall j' :: i <= j' < j ==> !MatchesAt(s, j'))
                                    && RunAt(s, j + |Marker|, r.value)
    ensures r.Some? ==> r.value != [] && forall c :: c in r.value ==> IsHwChar(c)
    decreases |s| - i
  {
    if i == |s| then None
    else if MatchesAt(s, i) then
      var m := HwRun(s, i + |Marker|);
      assert MatchesAt(s, i) && RunAt(s, i + |Marker|, m);
      Some(m)
    else
      var r := HwAddrFrom(s, i + 1);
      assert !MatchesAt(s, i);
      r
  }

  /**
    `inspect_sockaddr[/hwaddr=([\h:]+)/, 1]`: nothing when the expression does
    not match; otherwise the greedy run of hex digits and colons after the
    leftmost `hwaddr=` that is followed by at least one of them.
   */
  function HwAddr(s: string): (r: Option<string>)
    ensures r.None? <==> forall i :: 0 <= i < |s| ==> !MatchesAt(s, i)
    ensures r.Some? ==> exists i :: 0 <= i < |s| && MatchesAt(s, i) && (forall j :: 0 <= j < i ==> !MatchesAt(s, j))
                                    && RunAt(s, i + |Marker|, r.value)
    ensures r.Some? ==> r.value != [] && forall c :: c in r.value ==> IsHwChar(c)
  {
    HwAddrFrom(s, 0)
  }
}
