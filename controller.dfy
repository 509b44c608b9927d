/**
 * The three refresh operations, each taking the already-parsed output of
 * `tailscale status --json`: the connection status loop, and the loops that
 * build the lists handed to `SetNodesUI` and `SetExitNodesUI`.
 */
module Controller {
  import opened Wrappers
  import opened Status
  import opened Projection
  import opened Menu

  /**
   * Calls `SetStatusUI` once per peer with the connection flags: with no
   * peers the menu is left as it was.
   */
  method GetTailscaleStatus(menu: TailscaleMenu, raw: RawStatus)
    modifies menu
    ensures menu.statusCalls == old(menu.statusCalls) + StatusUICalls(raw)
    ensures raw.Peer == [] ==> unchanged(menu)
    ensures raw.Peer != [] ==>
      var flags := ConnectionFlags(raw);
      && menu.icon == Some(ChooseIcon(flags.status, flags.usingExitNode))
      && menu.statusLabel == StatusLabel(flags.status)
      && menu.toggleState == flags.status
  {
    var peers := raw.Peer;
    for i := 0 to |peers|
      invariant menu.statusCalls == old(menu.statusCalls) + StatusUICalls(raw)[..i]
      invariant i == 0 ==> unchanged(menu)
      invariant i > 0 ==>
        && menu.icon == Some(ChooseIcon(raw.BackendState == "Running", raw.HasExitNodeStatus))
        && menu.statusLabel == StatusLabel(raw.BackendState == "Running")
        && menu.toggleState == (raw.BackendState == "Running")
    {
      menu.SetStatusUI(raw.BackendState == "Running", raw.HasExitNodeStatus);
      assert StatusUICalls(raw)[..i + 1] == StatusUICalls(raw)[..i] + [ConnectionFlags(raw)];
    }
    assert StatusUICalls(raw)[..|peers|] == StatusUICalls(raw);
  }

  /** Builds the node list: this machine, then each peer in iteration order. */
  method GetTailscaleNodes(raw: RawStatus, ipv6OverV4: bool) returns (nodes: seq<NodeView>)
    ensures nodes == NodeViews(raw, ipv6OverV4)
  {
    nodes := [];
    var self := raw.Self;
    nodes := nodes + [NodeView(self.HostName, self.Online, SelfGlyph, SelectAddress(self.TailscaleIPs, ipv6OverV4))];
    var peers := raw.Peer;
    for i := 0 to |peers|
      invariant nodes == [SelfNode(self, ipv6OverV4)] + PeerNodes(peers[..i], ipv6OverV4)
    {
      var peer := peers[i].1;
      var node := NodeView(peer.HostName, peer.Online, if peer.Online then OnlineGlyph else OfflineGlyph,
                           SelectAddress(peer.TailscaleIPs, ipv6OverV4));
      nodes := nodes + [node];
      assert peers[..i + 1][..i] == peers[..i];
    }
    assert peers[..|peers|] == peers;
  }

  /**
   * Builds the exit-node list: keeps every peer whose `ExitNodeOption` is not
   * false, sums `current_exit_node`, and puts the "none" sentinel in front.
   */
  method GetExitNodes(raw: RawStatus, ipv6OverV4: bool) returns (exitNodes: seq<ExitNodeView>)
    ensures exitNodes == ExitNodeViews(raw, ipv6OverV4)
  {
    exitNodes := [];
    var peers := raw.Peer;
    for i := 0 to |peers|
      invariant exitNodes == ExitEntries(peers[..i], ipv6OverV4)
    {
      var peer := peers[i].1;
      assert peers[..i + 1][..i] == peers[..i];
      if peer.ExitNodeOption == Some(false) {
        continue;
      }
      var exitNode := ExitNodeView(peer.HostName, peer.Online, if peer.ExitNode then ActiveGlyph else InactiveGlyph,
                                   SelectAddress(peer.TailscaleIPs, ipv6OverV4), peer.ExitNode);
      exitNodes := exitNodes + [exitNode];
    }
    assert peers[..|peers|] == peers;
    var usingNoneExitNode := ActiveSum(exitNodes) == 0;
    var noneExitNode := ExitNodeView(NoneName, true, if usingNoneExitNode then ActiveGlyph else InactiveGlyph,
                                     Some(""), usingNoneExitNode);
    exitNodes := [noneExitNode] + exitNodes;
  }
}
