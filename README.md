# Tailscale Manager: status projection model

A Dafny model of the logic inside the GNOME Shell panel extension "Tailscale
Manager" that turns the parsed output of `tailscale status --json` into what
the tray menu shows, and of the command lines the menu issues.

- `status.dfy` (module `Status`): the parsed status document (`RawStatus`,
  `NodeRecord`), the index `+IPv6_over_4` (`AddressIndex`) and the address
  choice `TailscaleIPs[+IPv6_over_4]` (`SelectAddress`), where an index past
  the end is JavaScript `undefined` (`None`).
- `projection.dfy` (module `Projection`): the node list, the exit-node list
  with its "none" sentinel, the `reduce` sum of `current_exit_node`, and the
  connection flags, as functions, with the lemmas about them. `NodeViews`
  (the node list), `ExitNodeViews` (the exit-node list) and `ActiveSum` (the
  `reduce` sum) are the specification functions that the rows below refer to;
  the lemmas and methods in those rows state their properties.
- `controller.dfy` (module `Controller`): `GetTailscaleStatus`, which calls
  `SetStatusUI` once per peer on the menu object, and `GetTailscaleNodes` /
  `GetExitNodes`, the loops that `push` entries and `unshift` the sentinel,
  each proved to return exactly the list the projection functions specify.
  Their result is the argument the source passes to `SetNodesUI` /
  `SetExitNodesUI`.
- `menu.dfy` (module `Menu`): the `TailscaleMenu` object whose icon, status
  label and switch state `SetStatusUI` updates in place, the icon and label
  choice, and the click handler of an exit-node entry, which does nothing on
  the current exit node.
- `commands.dfy` (module `Commands`): the argv of `tailscale up` / `down` (a
  non-boolean argument is rejected) and `tailscale set --exit-node=<ip>`.

The IPv6 preference is an explicit boolean parameter. Each refresh operation
takes the document that `JSON.parse` would give.

Behaviour of the code worth knowing:

- A peer is dropped from the exit-node list only when its `ExitNodeOption` is
  `false` (extension.js:154). A peer without that key is kept.
- An address index past the end gives `undefined`, not the empty string
  (extension.js:108, 123, 162). Clicking such an entry passes it through
  JavaScript's `+`, so the command becomes `--exit-node=undefined`
  (`Commands.JsString`).
- The "none" entry is active when the numeric sum of `current_exit_node` is 0
  (extension.js:169-174). `Projection.ActiveSumZero` shows that this is the
  same as "no kept peer is the exit node".
- `SetStatusUI` is called once per peer, not once per poll (extension.js:58-62).
  With no peers the status icon and switch are not updated at all.

## Model

| member | source | states |
|---|---|---|
| `Status.AddressIndex` | extension.js:108 | the unary plus on the preference gives index 1 iff IPv6 is preferred, else 0 |
| `Status.SelectAddress` | extension.js:108 | the first address when IPv4 is preferred, the second when IPv6 is; `undefined` (None) exactly when the list is too short |
| `Projection.ConnectionFlags` | extension.js:58-62 | connected iff `BackendState == "Running"`; using an exit node iff the `ExitNodeStatus` key is present, whatever its value |
| `Projection.StatusUICalls` | extension.js:58-62 | one `SetStatusUI` call per peer, each with the connection flags, so none with no peers |
| `Projection.PeerNodesAt` | extension.js:113-127 | the peer entries are one per peer, in iteration order, each built from that peer |
| `Projection.NodeViewsShape` | extension.js:100-127 | node list length is 1 + number of peers; first entry is `Self` with the laptop glyph whatever `Online` is; entry i+1 is peer i with name, `status == Online`, green glyph iff online, red glyph iff offline, address by the preference |
| `Projection.ExitEntriesAt` | extension.js:149-167 | the kept peers are exactly those whose `ExitNodeOption` is not false, at strictly increasing positions, each turned into its entry |
| `Projection.ActiveSumZero` | extension.js:169-174 | the `reduce` sum of `current_exit_node` is 0 iff no entry is the current exit node |
| `Projection.ExitNodeViewsShape` | extension.js:146-184 | the exit-node list is the sentinel (`none`, online, address `""`) followed by exactly the kept peers in original order; length 1 + number of kept peers |
| `Projection.NoneActiveIff` | extension.js:169-182 | the sentinel is active iff no kept peer has `ExitNode` true |
| `Projection.ExitGlyphs` | extension.js:158-182 | every entry, sentinel included, shows the filled circle iff it is the current exit node and the hollow circle otherwise |
| `Projection.NoExitNodesOnlyNone` | extension.js:151-184 | with no peer offering an exit node (in particular no peers) the list is the active sentinel alone |
| `Projection.ActivePeerSelected` | extension.js:161-184 | when the single active kept peer is at position i, exactly one entry is active, it is that peer's entry and the sentinel is not |
| `Projection.ExactlyOneActive` | extension.js:169-184 | if upstream reports at most one kept peer as the exit node, exactly one entry is active, and it is the sentinel iff no kept peer is active |
| `Projection.ServerAsExitNodeExample` | extension.js:100-184 | a running laptop with one active exit-node peer gives flags (true, false), nodes [laptop, server] and exit nodes [inactive none, active server]; an IPv6 preference with one address gives `undefined` |
| `Commands.UpDownArgv` | extension.js:81-82 | argv is `tailscale up` for true and `tailscale down` for false |
| `Commands.SetTailscaleStatus` | extension.js:74-82 | a non-boolean argument is rejected with no command; a boolean gives the up/down argv |
| `Commands.UpDownRoundTrip` | extension.js:81-82 | the up/down argv determines the requested state |
| `Commands.JsString` | extension.js:200 | a string concatenates as itself, `undefined` as the text "undefined" |
| `Commands.SetExitNode` | extension.js:197-200 | argv is `tailscale set` followed by `--exit-node=` and the name |
| `Commands.SetExitNodeRoundTrip` | extension.js:200 | the name read back from the `--exit-node=` argument is the name given, so the empty name clears the exit node |
| `Commands.SetExitNodeInjective` | extension.js:200 | distinct stringified names give distinct commands (`undefined` and the text "undefined" coincide) |
| `Menu.ChooseIcon` | extension.js:308-318 | exit-node icon iff connected and using an exit node, on icon iff connected only, off icon iff not connected |
| `Menu.StatusLabel` | extension.js:309-317 | the label is "On" iff the status is true, "Off" otherwise |
| `Menu.TailscaleMenu.constructor` | extension.js:224-244 | the menu starts with no icon and the switch off, labelled "Off" |
| `Menu.TailscaleMenu.SetStatusUI` | extension.js:301-334 | sets the icon to the chosen icon, the label to the status label and the switch state to the status |
| `Menu.ClickExitNode` | extension.js:357-366 | clicking the current exit node issues nothing; any other entry issues a `set --exit-node=` command carrying its address |
| `Menu.ClickNoneClears` | extension.js:176-184 | clicking the inactive sentinel issues `tailscale set --exit-node=` with an empty name |
| `Menu.ClickKeptPeer` | extension.js:357-366 | clicking the entry of a kept peer issues nothing if it is the exit node, else asks for that peer's preferred address |
| `Menu.ClickOnlyInactive` | extension.js:362-365 | when one entry alone is active, a click issues a command exactly on the other entries |
| `Controller.GetTailscaleStatus` | extension.js:53-64 | calls `SetStatusUI` once per peer with the connection flags; with no peers the menu is unchanged, otherwise it shows the flags |
| `Controller.GetTailscaleNodes` | extension.js:94-131 | the loop builds exactly the node list `NodeViews` |
| `Controller.GetExitNodes` | extension.js:141-187 | the loop, the sum and the `unshift` build exactly the exit-node list `ExitNodeViews` |

## Left out

- `TailscaleControler.Control` (extension.js:21-50) spawns a subprocess and reads its output asynchronously. This is operating-system I/O. In the model, each refresh operation starts where the success callback receives stdout. The `true`/`false` results of `Control` and of its callers are not modelled.
- `JSON.parse` (extension.js:57, 98, 145) is not modelled. The model starts from the parsed document, so malformed JSON and its exception are not modelled.
- The follow-up refreshes are not modelled separately: `_init` calls `GetTailscaleStatus` (extension.js:236), `SetTailscaleStatus` then calls `GetTailscaleStatus`, `SetExitNode` then calls `GetExitNodes` and `GetTailscaleStatus`, and `_OnButtonClick` runs all three. Each is a sequence of the modelled operations.
- GNOME Shell widgets and lifecycle are modelled only as far as `_init` and `setupMenu` fix the starting state: no icon and the status switch off, labelled "Off" (`Menu.TailscaleMenu.constructor`). Not modelled: the rest of `_init` and `setupMenu`, the creation of `St.Icon`, the `removeAll`/`addAction` population of the submenus with their labels, the clipboard copy of a node's address, and `enable`/`disable` with the global `tailscale_manager`. They are host UI with no further logic.
- Settings plumbing (extension.js:272-290) and prefs.js are not modelled. The IPv6 preference is a plain boolean parameter.
- JavaScript coercions on ill-typed documents are not modelled. `Online` and `ExitNode` are booleans, so the NaN from summing a missing `ExitNode` cannot arise.
- `for…in` visits integer-like keys before the others. Peer keys are node keys and are never integer-like, so `Peer` is kept in insertion order.
