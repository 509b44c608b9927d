/**
 * The panel button: the status icon and switch that `SetStatusUI` updates in
 * place, and what a click on an exit-node entry does.
 */
module Menu {
  import opened Wrappers
  import opened Status
  import opened Projection
  import Commands

  /** `icon-on.svg`, `icon-off.svg` and `icon-exit-node.png`. */
  datatype Icon = IconOn | IconOff | IconExitNode

  /** The exit-node icon when connected through an exit node, the on icon when only connected, else the off icon. */
  function ChooseIcon(status: bool, usingExitNode: bool): (icon: Icon)
    ensures icon == IconExitNode <==> status && usingExitNode
    ensures icon == IconOn <==> status && !usingExitNode
    ensures icon == IconOff <==> !status
  {
    if status then (if usingExitNode then IconExitNode else IconOn) else IconOff
  }

  /** The label of the status switch. */
  function StatusLabel(status: bool): (text: string)
    ensures text == "On" <==> status
    ensures text == "Off" <==> !status
  {
    if status then "On" else "Off"
  }

  class TailscaleMenu {
    var icon: Option<Icon>      // the panel icon; there is none until the first SetStatusUI
    var statusLabel: string     // text of the status switch item
    var toggleState: bool       // state of the status switch item
    ghost var statusCalls: seq<StatusArgs>  // the arguments of every SetStatusUI call so far

    /** The menu as set up: no icon yet, the switch reading "Off" and off. */
    constructor ()
      ensures icon == None && statusLabel == "Off" && !toggleState && statusCalls == []
    {
      icon := None;
      statusLabel := "Off";
      toggleState := false;
      statusCalls := [];
    }

    method SetStatusUI(status: bool, usingExitNode: bool)
      modifies this
      ensures icon == Some(ChooseIcon(status, usingExitNode))
      ensures statusLabel == StatusLabel(status) && toggleState == status
      ensures statusCalls == old(statusCalls) + [StatusArgs(status, usingExitNode)]
    {
      var usedIcon := IconOff;
      var statusString := "Off";
      if status {
        if usingExitNode {
          usedIcon := IconExitNode;
        } else {
          usedIcon := IconOn;
        }
        statusString := "On";
      }
      icon := Some(usedIcon);
      statusLabel := statusString;
      toggleState := status;
      statusCalls := statusCalls + [StatusArgs(status, usingExitNode)];
    }
  }

  /**
   * Clicking an exit-node entry: nothing when it is already the current exit
   * node, otherwise `tailscale set --exit-node=<its address>`.
   */
  function ClickExitNode(entry: ExitNodeView): (command: Option<seq<string>>)
    ensures command.None? <==> entry.currentExitNode
    ensures command.Some? ==> Commands.RequestedExitNode(command.value) == Some(Commands.JsString(entry.ip))
  {
    if entry.currentExitNode then None else Some(Commands.SetExitNode(entry.ip))
  }

  /** Clicking the inactive sentinel clears the exit node with an empty name. */
  lemma ClickNoneClears(raw: RawStatus, ipv6OverV4: bool)
    requires !ExitNodeViews(raw, ipv6OverV4)[0].currentExitNode
    ensures ClickExitNode(ExitNodeViews(raw, ipv6OverV4)[0]) == Some(["tailscale", "set", "--exit-node="])
  {
    assert ExitNodeViews(raw, ipv6OverV4)[0].ip == Some("");
    assert Commands.ExitNodeFlag + "" == "--exit-node=";
  }

  /**
   * Clicking the entry of the `j`-th kept peer asks for that peer's selected
   * address, unless the peer is already the exit node.
   */
  lemma ClickKeptPeer(raw: RawStatus, ipv6OverV4: bool, j: nat)
    requires j < |KeptIndices(raw.Peer)|
    ensures KeptIndices(raw.Peer)[j] < |raw.Peer|
    ensures var p := raw.Peer[KeptIndices(raw.Peer)[j]].1;
      && j + 1 < |ExitNodeViews(raw, ipv6OverV4)|
      && ClickExitNode(ExitNodeViews(raw, ipv6OverV4)[j + 1])
         == if p.ExitNode then None else Some(Commands.SetExitNode(SelectAddress(p.TailscaleIPs, ipv6OverV4)))
  {
    ExitNodeViewsShape(raw, ipv6OverV4);
  }

  /** When entry `k` alone is active, a click issues a command exactly on the other entries. */
  lemma ClickOnlyInactive(views: seq<ExitNodeView>, k: nat, m: nat)
    requires OnlyActiveAt(views, k) && m < |views|
    ensures ClickExitNode(views[m]).None? <==> m == k
  {
  }
}
