/**
 * The messages exchanged between the three scripts: NEW from the tab watcher
 * to the page controller, PLAY and DELETE from the popup to the page
 * controller. A message is addressed to a tab.
 */
module Messages {
  import opened Wrappers

  type TabId = int

  datatype Message =
    | New(videoId: Option<string>)   // `{type: "NEW", videoId}`; the id is null when the URL has no `v`
    | Play(value: nat)               // `{type: "PLAY", value}`
    | Delete(value: nat)             // `{type: "DELETE", value}`
    | Unrecognised(kind: string)     // any other `type`

  datatype Outgoing = Outgoing(tabId: TabId, message: Message)
}
