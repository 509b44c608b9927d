/**
 * The views the tray menu shows, as functions of one parsed status document
 * and the IPv6 preference: the node list, the exit-node list with its "none"
 * sentinel, and the connection flags. The loops that build the lists are the
 * methods of module Controller, proved equal to these functions.
 */
module Projection {
  import opened Wrappers
  import opened Status

  const SelfGlyph: string := "\U{1F4BB}"     // laptop: this machine
  const OnlineGlyph: string := "\U{1F7E2}"   // green circle
  const OfflineGlyph: string := "\U{1F534}"  // red circle
  const ActiveGlyph: string := "\U{25CF}"    // black circle
  const InactiveGlyph: string := "\U{25CB}"  // white circle
  const NoneName: string := "none"

  /** An entry of the "Nodes" submenu. */
  datatype NodeView = NodeView(name: string, status: bool, statusString: string, ip: Option<string>)

  /** An entry of the "Exit Nodes" submenu. */
  datatype ExitNodeView = ExitNodeView(
    name: string, status: bool, statusString: string, ip: Option<string>, currentExitNode: bool)

  /** The arguments of one `SetStatusUI` call. */
  datatype StatusArgs = StatusArgs(status: bool, usingExitNode: bool)

  // ---------------------------------------------------------------------
  // Connection flags

  /**
   * Connected iff the backend reports "Running"; using an exit node iff the
   * `ExitNodeStatus` key is present, whatever its value.
   */
  function ConnectionFlags(raw: RawStatus): (args: StatusArgs)
    ensures args.status <==> raw.BackendState == "Running"
    ensures args.usingExitNode <==> raw.HasExitNodeStatus
  {
    StatusArgs(raw.BackendState == "Running", raw.HasExitNodeStatus)
  }

  /** `SetStatusUI` is called once per peer, each time with the same flags. */
  function StatusUICalls(raw: RawStatus): (calls: seq<StatusArgs>)
    ensures |calls| == |raw.Peer|
    ensures forall k :: 0 <= k < |calls| ==> calls[k] == ConnectionFlags(raw)
  {
    seq(|raw.Peer|, _ => ConnectionFlags(raw))
  }

  // ---------------------------------------------------------------------
  // Node list

  function SelfNode(self: NodeRecord, ipv6OverV4: bool): NodeView
  {
    NodeView(self.HostName, self.Online, SelfGlyph, SelectAddress(self.TailscaleIPs, ipv6OverV4))
  }

  function PeerNode(peer: NodeRecord, ipv6OverV4: bool): NodeView
  {
    NodeView(peer.HostName, peer.Online, if peer.Online then OnlineGlyph else OfflineGlyph,
             SelectAddress(peer.TailscaleIPs, ipv6OverV4))
  }

  /** The peer entries, pushed one by one in iteration order. */
  function PeerNodes(peers: seq<(string, NodeRecord)>, ipv6OverV4: bool): seq<NodeView>
  {
    if peers == [] then []
    else PeerNodes(peers[..|peers| - 1], ipv6OverV4) + [PeerNode(peers[|peers| - 1].1, ipv6OverV4)]
  }

  /** The list handed to `SetNodesUI`: this machine first, then every peer. */
  function NodeViews(raw: RawStatus, ipv6OverV4: bool): seq<NodeView>
  {
    [SelfNode(raw.Self, ipv6OverV4)] + PeerNodes(raw.Peer, ipv6OverV4)
  }

  lemma {:induction false} PeerNodesAt(peers: seq<(string, NodeRecord)>, ipv6OverV4: bool)
    ensures |PeerNodes(peers, ipv6OverV4)| == |peers|
    ensures forall i :: 0 <= i < |peers| ==> PeerNodes(peers, ipv6OverV4)[i] == PeerNode(peers[i].1, ipv6OverV4)
  {
    if peers != [] {
      var init := peers[..|peers| - 1];
      PeerNodesAt(init, ipv6OverV4);
      assert forall i :: 0 <= i < |init| ==> init[i] == peers[i];
    }
  }

  /**
   * The node list has one entry for this machine, always with the laptop
   * glyph, followed by one entry per peer in iteration order; no peer is
   * dropped, and a peer's glyph and status follow its `Online` field.
   */
  lemma NodeViewsShape(raw: RawStatus, ipv6OverV4: bool)
    ensures |NodeViews(raw, ipv6OverV4)| == 1 + |raw.Peer|
    ensures NodeViews(raw, ipv6OverV4)[0]
         == NodeView(raw.Self.HostName, raw.Self.Online, SelfGlyph,
                     SelectAddress(raw.Self.TailscaleIPs, ipv6OverV4))
    ensures forall i :: 0 <= i < |raw.Peer| ==>
              var n, p := NodeViews(raw, ipv6OverV4)[i + 1], raw.Peer[i].1;
              && n.name == p.HostName
              && n.status == p.Online
              && (n.statusString == OnlineGlyph <==> p.Online)
              && (n.statusString == OfflineGlyph <==> !p.Online)
              && n.ip == SelectAddress(p.TailscaleIPs, ipv6OverV4)
  {
    PeerNodesAt(raw.Peer, ipv6OverV4);
  }

  // ---------------------------------------------------------------------
  // Exit-node list

  /** A peer is skipped only when `ExitNodeOption` is literally `false`; an absent key keeps it. */
  predicate OffersExitNode(peer: NodeRecord)
  {
    peer.ExitNodeOption != Some(false)
  }

  function ActivityGlyph(active: bool): string
  {
    if active then ActiveGlyph else InactiveGlyph
  }

  function ExitEntry(peer: NodeRecord, ipv6OverV4: bool): ExitNodeView
  {
    ExitNodeView(peer.HostName, peer.Online, ActivityGlyph(peer.ExitNode),
                 SelectAddress(peer.TailscaleIPs, ipv6OverV4), peer.ExitNode)
  }

  /** The peer entries of the exit-node list, before the sentinel is put in front. */
  function ExitEntries(peers: seq<(string, NodeRecord)>, ipv6OverV4: bool): seq<ExitNodeView>
  {
    if peers == [] then []
    else
      var init, last := ExitEntries(peers[..|peers| - 1], ipv6OverV4), peers[|peers| - 1].1;
      if OffersExitNode(last) then init + [ExitEntry(last, ipv6OverV4)] else init
  }

  /** The positions in `peers` of the peers that are kept, in order. */
  function KeptIndices(peers: seq<(string, NodeRecord)>): seq<nat>
  {
    if peers == [] then []
    else
      var init := KeptIndices(peers[..|peers| - 1]);
      if OffersExitNode(peers[|peers| - 1].1) then init + [|peers| - 1] else init
  }

  /** The `reduce` that adds up `current_exit_node` (true counting 1) from left to right. */
  function ActiveSum(entries: seq<ExitNodeView>): nat
  {
    if entries == [] then 0
    else ActiveSum(entries[..|entries| - 1]) + (if entries[|entries| - 1].currentExitNode then 1 else 0)
  }

  /** The synthetic entry that stands for "no exit node"; its address is the empty string. */
  function NoneEntry(usingNone: bool): ExitNodeView
  {
    ExitNodeView(NoneName, true, ActivityGlyph(usingNone), Some(""), usingNone)
  }

  /** The list handed to `SetExitNodesUI`: the sentinel, then the kept peers. */
  function ExitNodeViews(raw: RawStatus, ipv6OverV4: bool): seq<ExitNodeView>
  {
    var entries := ExitEntries(raw.Peer, ipv6OverV4);
    [NoneEntry(ActiveSum(entries) == 0)] + entries
  }

  /**
   * The kept peers are exactly those whose `ExitNodeOption` is not false, in
   * their original relative order, each turned into its entry.
   */
  lemma {:induction false} ExitEntriesAt(peers: seq<(string, NodeRecord)>, ipv6OverV4: bool)
    ensures |ExitEntries(peers, ipv6OverV4)| == |KeptIndices(peers)|
    ensures forall j :: 0 <= j < |KeptIndices(peers)| ==>
              KeptIndices(peers)[j] < |peers|
              && ExitEntries(peers, ipv6OverV4)[j] == ExitEntry(peers[KeptIndices(peers)[j]].1, ipv6OverV4)
    ensures forall j, k :: 0 <= j < k < |KeptIndices(peers)| ==> KeptIndices(peers)[j] < KeptIndices(peers)[k]
    ensures forall i :: 0 <= i < |peers| ==> (i in KeptIndices(peers) <==> OffersExitNode(peers[i].1))
  {
    if peers != [] {
      var init := peers[..|peers| - 1];
      ExitEntriesAt(init, ipv6OverV4);
      assert forall i :: 0 <= i < |init| ==> init[i] == peers[i];
    }
  }

  /** The sum is zero exactly when no entry is the current exit node. */
  lemma {:induction false} ActiveSumZero(entries: seq<ExitNodeView>)
    ensures ActiveSum(entries) == 0 <==> forall j :: 0 <= j < |entries| ==> !entries[j].currentExitNode
  {
    if entries != [] {
      var init := entries[..|entries| - 1];
      ActiveSumZero(init);
      assert forall j :: 0 <= j < |init| ==> init[j] == entries[j];
    }
  }

  /**
   * The exit-node list is the sentinel `{none, online, ""}` followed by exactly
   * the peers whose `ExitNodeOption` is not false, in their original order.
   */
  lemma ExitNodeViewsShape(raw: RawStatus, ipv6OverV4: bool)
    ensures var views, kept := ExitNodeViews(raw, ipv6OverV4), KeptIndices(raw.Peer);
      && |views| == 1 + |kept|
      && views[0].name == NoneName && views[0].status && views[0].ip == Some("")
      && (forall j, k :: 0 <= j < k < |kept| ==> kept[j] < kept[k])
      && (forall i :: 0 <= i < |raw.Peer| ==> (i in kept <==> OffersExitNode(raw.Peer[i].1)))
      && (forall j :: 0 <= j < |kept| ==>
            kept[j] < |raw.Peer| && views[j + 1] == ExitEntry(raw.Peer[kept[j]].1, ipv6OverV4))
  {
    ExitEntriesAt(raw.Peer, ipv6OverV4);
  }

  /** The sentinel is active iff no kept peer is the current exit node. */
  lemma NoneActiveIff(raw: RawStatus, ipv6OverV4: bool)
    ensures ExitNodeViews(raw, ipv6OverV4)[0].currentExitNode
        <==> forall i :: 0 <= i < |raw.Peer| && OffersExitNode(raw.Peer[i].1) ==> !raw.Peer[i].1.ExitNode
  {
    var entries, kept := ExitEntries(raw.Peer, ipv6OverV4), KeptIndices(raw.Peer);
    ExitEntriesAt(raw.Peer, ipv6OverV4);
    ActiveSumZero(entries);
    if forall j :: 0 <= j < |entries| ==> !entries[j].currentExitNode {
      forall i | 0 <= i < |raw.Peer| && OffersExitNode(raw.Peer[i].1)
        ensures !raw.Peer[i].1.ExitNode
      {
        var j :| 0 <= j < |kept| && kept[j] == i;
        assert entries[j].currentExitNode == raw.Peer[i].1.ExitNode;
      }
    }
  }

  /** Every entry, peer or sentinel, shows the filled circle iff it is the current exit node. */
  lemma ExitGlyphs(raw: RawStatus, ipv6OverV4: bool)
    ensures forall j :: 0 <= j < |ExitNodeViews(raw, ipv6OverV4)| ==>
              var e := ExitNodeViews(raw, ipv6OverV4)[j];
              && (e.statusString == ActiveGlyph <==> e.currentExitNode)
              && (e.statusString == InactiveGlyph <==> !e.currentExitNode)
  {
    ExitEntriesAt(raw.Peer, ipv6OverV4);
  }

  /** With no peer offering an exit node the list is the active sentinel alone. */
  lemma NoExitNodesOnlyNone(raw: RawStatus, ipv6OverV4: bool)
    requires forall i :: 0 <= i < |raw.Peer| ==> !OffersExitNode(raw.Peer[i].1)
    ensures ExitNodeViews(raw, ipv6OverV4) == [NoneEntry(true)]
    ensures ExitNodeViews(raw, ipv6OverV4)[0].statusString == ActiveGlyph
  {
    ExitEntriesAt(raw.Peer, ipv6OverV4);
  }

  /** Upstream reports at most one kept peer as the current exit node. */
  predicate AtMostOneActive(peers: seq<(string, NodeRecord)>)
  {
    forall i, k :: 0 <= i < |peers| && 0 <= k < |peers|
      && OffersExitNode(peers[i].1) && peers[i].1.ExitNode
      && OffersExitNode(peers[k].1) && peers[k].1.ExitNode
      ==> i == k
  }

  /** Entry `k` is the current exit node and no other entry is. */
  predicate OnlyActiveAt(views: seq<ExitNodeView>, k: nat)
  {
    k < |views| && forall m :: 0 <= m < |views| ==> (views[m].currentExitNode <==> m == k)
  }

  /**
   * When the one kept peer at position `i` is the current exit node, exactly
   * one entry is active: that peer's, and the sentinel is not.
   */
  lemma ActivePeerSelected(raw: RawStatus, ipv6OverV4: bool, i: nat)
    requires i < |raw.Peer| && OffersExitNode(raw.Peer[i].1) && raw.Peer[i].1.ExitNode
    requires AtMostOneActive(raw.Peer)
    ensures exists k :: 0 < k && OnlyActiveAt(ExitNodeViews(raw, ipv6OverV4), k)
                        && ExitNodeViews(raw, ipv6OverV4)[k] == ExitEntry(raw.Peer[i].1, ipv6OverV4)
  {
    var views, kept := ExitNodeViews(raw, ipv6OverV4), KeptIndices(raw.Peer);
    ExitEntriesAt(raw.Peer, ipv6OverV4);
    NoneActiveIff(raw, ipv6OverV4);
    var j :| 0 <= j < |kept| && kept[j] == i;
    forall m | 0 <= m < |views|
      ensures views[m].currentExitNode <==> m == j + 1
    {
      if 0 < m && m != j + 1 {
        assert kept[m - 1] != i by {
          if m - 1 < j { assert kept[m - 1] < kept[j]; } else { assert kept[j] < kept[m - 1]; }
        }
        assert kept[m - 1] in kept;
      }
    }
    assert OnlyActiveAt(views, j + 1);
  }

  /**
   * If upstream reports at most one kept peer as the current exit node, the
   * exit-node list has exactly one active entry; it is the sentinel iff no
   * kept peer is active.
   */
  lemma ExactlyOneActive(raw: RawStatus, ipv6OverV4: bool)
    requires AtMostOneActive(raw.Peer)
    ensures exists k :: OnlyActiveAt(ExitNodeViews(raw, ipv6OverV4), k)
    ensures OnlyActiveAt(ExitNodeViews(raw, ipv6OverV4), 0)
        <==> forall i :: 0 <= i < |raw.Peer| && OffersExitNode(raw.Peer[i].1) ==> !raw.Peer[i].1.ExitNode
  {
    var views := ExitNodeViews(raw, ipv6OverV4);
    NoneActiveIff(raw, ipv6OverV4);
    if i :| 0 <= i < |raw.Peer| && OffersExitNode(raw.Peer[i].1) && raw.Peer[i].1.ExitNode {
      ActivePeerSelected(raw, ipv6OverV4, i);
    } else {
      ExitEntriesAt(raw.Peer, ipv6OverV4);
      var kept := KeptIndices(raw.Peer);
      forall m | 0 < m < |views|
        ensures !views[m].currentExitNode
      {
        assert kept[m - 1] in kept;
      }
      assert OnlyActiveAt(views, 0);
    }
  }

  /**
   * A running machine "laptop" with one online peer "server" that is the
   * current exit node, IPv4 preferred.
   */
  lemma ServerAsExitNodeExample()
    ensures var server := NodeRecord("server", true, ["100.2.2.2"], Some(true), true);
      var raw := RawStatus("Running", false, NodeRecord("laptop", true, ["100.1.1.1"], None, false),
                           [("k1", server)]);
      && ConnectionFlags(raw) == StatusArgs(true, false)
      && NodeViews(raw, false) == [NodeView("laptop", true, SelfGlyph, Some("100.1.1.1")),
                                   NodeView("server", true, OnlineGlyph, Some("100.2.2.2"))]
      && ExitNodeViews(raw, false) == [NoneEntry(false),
                                       ExitNodeView("server", true, ActiveGlyph, Some("100.2.2.2"), true)]
      && NodeViews(raw, true)[1].ip == None
  {
  }
}
