/** Choosing an interface's IPv4 address from its address list. Each entry is
    given as the outcome of net.ParseCIDR on it: Some(ip) when it parsed, None
    when it did not. Whether an address is IPv4 (netip's Is4, net.IP's To4) is
    the parameter isV4. FindIPv4 skips entries that fail to parse; the loop of
    GetInterfaceInfo gives up on the first one. */
module AddressSelection {
  import opened NetTypes

  type ParsedAddr = Option<IP>

  /** netip.IPv4Unspecified(): 0.0.0.0. */
  const IPv4Unspecified: IP := [0, 0, 0, 0]

  predicate IsV4Entry(e: ParsedAddr, isV4: IP -> bool)
  {
    e.Some? && isV4(e.value)
  }

  /** Index of the first entry that parsed and is IPv4; |addrs| when none is. */
  function FirstV4(addrs: seq<ParsedAddr>, isV4: IP -> bool): (k: nat)
    ensures k <= |addrs|
    ensures forall j :: 0 <= j < k ==> !IsV4Entry(addrs[j], isV4)
    ensures k < |addrs| ==> IsV4Entry(addrs[k], isV4)
    decreases |addrs|
  {
    if |addrs| == 0 || IsV4Entry(addrs[0], isV4) then 0
    else 1 + FirstV4(addrs[1..], isV4)
  }

  /** Index of the first entry that either failed to parse or is IPv4: where
      GetInterfaceInfo's loop stops; |addrs| when it runs to the end. */
  function FirstStop(addrs: seq<ParsedAddr>, isV4: IP -> bool): (k: nat)
    ensures k <= |addrs|
    ensures forall j :: 0 <= j < k ==> addrs[j].Some? && !isV4(addrs[j].value)
    ensures k < |addrs| ==> addrs[k].None? || isV4(addrs[k].value)
    decreases |addrs|
  {
    if |addrs| == 0 || addrs[0].None? || isV4(addrs[0].value) then 0
    else 1 + FirstStop(addrs[1..], isV4)
  }

  /** FindIPv4: the first address that parses and is IPv4, or 0.0.0.0. */
  method FindIPv4(addrs: seq<ParsedAddr>, isV4: IP -> bool) returns (a: IP)
    ensures FirstV4(addrs, isV4) < |addrs| ==> a == addrs[FirstV4(addrs, isV4)].value
    ensures FirstV4(addrs, isV4) == |addrs| ==> a == IPv4Unspecified
  {
    for i := 0 to |addrs|
      invariant forall j :: 0 <= j < i ==> !IsV4Entry(addrs[j], isV4)
    {
      var e := addrs[i];
      if e.None? {
        continue;
      }
      if isV4(e.value) {
        return e.value;
      }
    }
    return IPv4Unspecified;
  }

  /** What net.InterfaceByName and Interface.Addrs report for the interface:
      its link-layer address, and its address list (None when Addrs failed). */
  datatype Link = Link(hardAddr: HardwareAddr, addrs: Option<seq<ParsedAddr>>)

  /** The result GetInterfaceInfo returns for a name, given what the lookup
      finds (None: no interface of that name). */
  function InterfaceInfoOf(name: string, link: Option<Link>, isV4: IP -> bool): Result<InterfaceInfo>
  {
    match link
    case None => Err(InterfaceNotFound(name))
    case Some(l) =>
      match l.addrs
      case None => Err(AddrsUnavailable(name))
      case Some(addrs) =>
        var k := FirstStop(addrs, isV4);
        if k == |addrs| then Ok(InterfaceInfo("", l.hardAddr, []))
        else if addrs[k].None? then Err(CidrParseFailed)
        else Ok(InterfaceInfo(name, l.hardAddr, addrs[k].value))
  }

  /** GetInterfaceInfo: look the interface up, then walk its addresses. */
  method GetInterfaceInfo(name: string, link: Option<Link>, isV4: IP -> bool) returns (r: Result<InterfaceInfo>)
    ensures r == InterfaceInfoOf(name, link, isV4)
  {
    if link.None? {
      return Err(InterfaceNotFound(name));
    }
    var i := link.value;
    if i.addrs.None? {
      return Err(AddrsUnavailable(name));
    }
    var addrs := i.addrs.value;
    for k := 0 to |addrs|
      invariant forall j :: 0 <= j < k ==> addrs[j].Some? && !isV4(addrs[j].value)
    {
      var e := addrs[k];
      if e.None? {
        return Err(CidrParseFailed);
      }
      if isV4(e.value) {
        return Ok(InterfaceInfo(name, i.hardAddr, e.value));
      }
    }
    return Ok(InterfaceInfo("", i.hardAddr, []));
  }

  /** An interface that exists and lists its addresses yields either an
      error, because an entry before the first IPv4 one failed to parse, or
      its link-layer address; with an IPv4 address it carries the name too,
      without one the name and IP stay empty. */
  lemma InterfaceInfoOutcomes(name: string, hw: HardwareAddr, addrs: seq<ParsedAddr>, isV4: IP -> bool)
    ensures var r := InterfaceInfoOf(name, Some(Link(hw, Some(addrs))), isV4);
      && (r.Err? <==> exists k :: 0 <= k < |addrs| && addrs[k].None? &&
                                  forall j :: 0 <= j < k ==> !IsV4Entry(addrs[j], isV4))
      && (r.Err? ==> r.error == CidrParseFailed)
      && (r.Ok? ==> r.value.hardAddr == hw)
      && ((forall j :: 0 <= j < |addrs| ==> addrs[j].Some? && !isV4(addrs[j].value)) ==>
            r == Ok(InterfaceInfo("", hw, [])))
  {
    var r := InterfaceInfoOf(name, Some(Link(hw, Some(addrs))), isV4);
    var k := FirstStop(addrs, isV4);
    if r.Err? {
      assert addrs[k].None?;
      assert forall j :: 0 <= j < k ==> !IsV4Entry(addrs[j], isV4);
    } else {
      forall k' | 0 <= k' < |addrs| && addrs[k'].None?
        ensures exists j :: 0 <= j < k' && IsV4Entry(addrs[j], isV4)
      {
        assert k < k' && IsV4Entry(addrs[k], isV4);
      }
    }
  }

  /** When every entry parses, the two loops stop at the same entry, so
      GetInterfaceInfo reports the address FindIPv4 returns; with no IPv4
      address at all FindIPv4 falls back to 0.0.0.0 while GetInterfaceInfo
      leaves the name and IP empty. */
  lemma SelectionsAgreeWhenAllParse(name: string, hw: HardwareAddr, addrs: seq<ParsedAddr>, isV4: IP -> bool)
    requires forall j :: 0 <= j < |addrs| ==> addrs[j].Some?
    ensures var k := FirstV4(addrs, isV4);
      InterfaceInfoOf(name, Some(Link(hw, Some(addrs))), isV4) ==
        if k < |addrs| then Ok(InterfaceInfo(name, hw, addrs[k].value))
        else Ok(InterfaceInfo("", hw, []))
  {
    SameStopWhenAllParse(addrs, isV4);
  }

  lemma {:induction false} SameStopWhenAllParse(addrs: seq<ParsedAddr>, isV4: IP -> bool)
    requires forall j :: 0 <= j < |addrs| ==> addrs[j].Some?
    ensures FirstStop(addrs, isV4) == FirstV4(addrs, isV4)
    decreases |addrs|
  {
    if |addrs| > 0 {
      SameStopWhenAllParse(addrs[1..], isV4);
    }
  }

  /** A failed entry ahead of every IPv4 address costs FindIPv4 nothing but
      makes GetInterfaceInfo fail. */
  lemma {:induction false} FailureBeforeV4(name: string, hw: HardwareAddr, bad: seq<ParsedAddr>, rest: seq<ParsedAddr>, isV4: IP -> bool)
    requires |bad| > 0 && forall j :: 0 <= j < |bad| ==> bad[j].None?
    ensures FirstV4(bad + rest, isV4) == |bad| + FirstV4(rest, isV4)
    ensures InterfaceInfoOf(name, Some(Link(hw, Some(bad + rest))), isV4) == Err(CidrParseFailed)
    decreases |bad|
  {
    if |bad| > 1 {
      assert (bad + rest)[1..] == bad[1..] + rest;
      FailureBeforeV4(name, hw, bad[1..], rest, isV4);
    } else {
      assert (bad + rest)[1..] == rest;
    }
  }
}
