/**
 * The parsed document printed by `tailscale status --json`, restricted to the
 * fields the extension reads.
 */
module Status {
  import opened Wrappers

  /** One node object: the `Self` object or one value of the `Peer` object. */
  datatype NodeRecord = NodeRecord(
    HostName: string,
    Online: bool,
    TailscaleIPs: seq<string>,     // conventionally the IPv4 address first, then the IPv6 one
    ExitNodeOption: Option<bool>,  // None when the key is absent from the object
    ExitNode: bool)

  /**
   * The whole document. `Peer` is a JSON object keyed by node key; `for…in`
   * visits its (non-numeric) keys in insertion order, so it is kept as the
   * sequence of (key, record) pairs in that order. An absent `Peer` object
   * iterates nothing and is the empty sequence.
   */
  datatype RawStatus = RawStatus(
    BackendState: string,
    HasExitNodeStatus: bool,       // whether the key `ExitNodeStatus` is present at all
    Self: NodeRecord,
    Peer: seq<(string, NodeRecord)>)

  /** `+IPv6_over_4`: unary plus turns the preference into the index 0 or 1. */
  function AddressIndex(ipv6OverV4: bool): (i: nat)
    ensures i <= 1
    ensures i == 1 <==> ipv6OverV4
  {
    if ipv6OverV4 then 1 else 0
  }

  /**
   * `TailscaleIPs[+IPv6_over_4]`: the first address when IPv4 is preferred,
   * the second when IPv6 is, and `undefined` (None) when the list is too short.
   */
  function SelectAddress(ips: seq<string>, ipv6OverV4: bool): (r: Option<string>)
    ensures !ipv6OverV4 ==> (r.Some? <==> |ips| >= 1) && (r.Some? ==> r.value == ips[0])
    ensures ipv6OverV4 ==> (r.Some? <==> |ips| >= 2) && (r.Some? ==> r.value == ips[1])
  {
    var i := AddressIndex(ipv6OverV4);
    if i < |ips| then Some(ips[i]) else None
  }
}
