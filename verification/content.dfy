/**
 * The content script's state and its top-level operations: the loaded
 * driver data, the page under `document.body`, and the tooltip singleton.
 */
module ContentScript {
  import opened Wrappers
  import opened FactStore
  import opened Matcher
  import opened Page
  import opened Listeners
  import opened Placement
  import opened Scan

  /** What the tooltip shows after `showTooltip`: the driver, their stats and where the box is. */
  datatype Card = Card(driverName: string, stats: DriverStats, at: Position)

  /** The tooltip element: whether it is displayed, and its content once it has been filled. */
  datatype Tooltip = Tooltip(visible: bool, card: Option<Card>)

  /** The `mouseenter` event: the target's `data-driver-name` and the mouse's viewport position. */
  datatype MouseEvent = MouseEvent(targetDriverName: Option<string>, clientX: real, clientY: real)

  class Script {
    /** `driverData` with `driverNames`; `None` until the data has loaded. */
    var store: Option<Store>
    /** The children of `document.body`. */
    var body: seq<Node>
    /** Whether the document holds an element with the id `f1-driver-tooltip`. */
    var tooltipInDocument: bool
    /** `tooltipElement`. */
    var tooltip: Option<Tooltip>

    /** Loaded data is well formed, and a tooltip the script made is in the document. */
    predicate Valid()
      reads this
    {
      (store.Some? ==> FactStore.Valid(store.value)) && (tooltip.Some? ==> tooltipInDocument)
    }

    /** The script as it is injected: no data, no tooltip of its own, and the page as it stands. */
    constructor (page: seq<Node>, idTaken: bool)
      ensures Valid()
      ensures store == None && body == page && tooltipInDocument == idTaken && tooltip == None
    {
      store := None;
      body := page;
      tooltipInDocument := idTaken;
      tooltip := None;
    }

    /**
     * `createTooltip`: when an element with the tooltip's id already exists it
     * does nothing (so `tooltipElement` may stay null); otherwise it appends a
     * hidden, empty tooltip.
     */
    method CreateTooltip()
      requires Valid()
      modifies this
      ensures Valid()
      ensures store == old(store) && body == old(body)
      ensures old(tooltipInDocument) ==> tooltipInDocument && tooltip == old(tooltip)
      ensures !old(tooltipInDocument) ==> tooltipInDocument && tooltip == Some(Tooltip(false, None))
    {
      if tooltipInDocument {
        return;
      }
      tooltip := Some(Tooltip(false, None));
      tooltipInDocument := true;
    }

    /**
     * `showTooltip`: nothing happens unless the tooltip exists, the data has
     * loaded and the target names a loaded driver; then the tooltip shows that
     * driver's stats, displayed at the placed position.
     */
    method ShowTooltip(event: MouseEvent, view: Viewport)
      requires Valid()
      modifies this
      ensures Valid()
      ensures store == old(store) && body == old(body) && tooltipInDocument == old(tooltipInDocument)
      ensures var name := event.targetDriverName;
        if old(tooltip).Some? && store.Some? && name.Some? && name.value != "" && name.value in store.value.data
        then tooltip == Some(Tooltip(true, Some(Card(name.value, store.value.data[name.value],
                                                     Place(event.clientX, event.clientY, view)))))
        else tooltip == old(tooltip)
    {
      if tooltip.None? || store.None? {
        return;
      }
      var name := event.targetDriverName;
      if name.None? || name.value == "" || name.value !in store.value.data {
        return;
      }
      var stats := store.value.data[name.value];
      var at := Place(event.clientX, event.clientY, view);
      tooltip := Some(Tooltip(true, Some(Card(name.value, stats, at))));
    }

    /** `hideTooltip`: the tooltip, if there is one, is no longer displayed and keeps its content. */
    method HideTooltip()
      requires Valid()
      modifies this
      ensures Valid()
      ensures store == old(store) && body == old(body) && tooltipInDocument == old(tooltipInDocument)
      ensures old(tooltip).Some? ==> tooltip == Some(old(tooltip).value.(visible := false))
      ensures old(tooltip).None? ==> tooltip == None
    {
      if tooltip.Some? {
        tooltip := Some(tooltip.value.(visible := false));
      }
    }

    /** `attachEventListeners`: every highlight element gets the two tooltip handlers, once each. */
    method AttachEventListeners()
      requires Valid()
      modifies this
      ensures Valid()
      ensures store == old(store) && tooltipInDocument == old(tooltipInDocument) && tooltip == old(tooltip)
      ensures body == BindAll(old(body))
    {
      body := BindAll(body);
    }

    /**
     * `scanAndHighlight`: skipped while no data has loaded or no driver is
     * registered; otherwise every accepted text node is rewritten, then the
     * listeners are attached.
     */
    method ScanAndHighlight()
      requires Valid()
      modifies this
      ensures Valid()
      ensures store == old(store) && tooltipInDocument == old(tooltipInDocument) && tooltip == old(tooltip)
      ensures store.None? || store.value.names == [] ==> body == old(body)
      ensures store.Some? && store.value.names != [] ==> body == BindAll(Highlighted(old(body), store.value.names))
    {
      if store.None? || |store.value.names| == 0 {
        return;
      }
      var walker := LeavesAll(body, false);
      var nodesToProcess := CollectTextNodes(body);
      var repl := ProcessCollected(walker, nodesToProcess, store);
      LeavesAllCount(body, false);
      body := ReplaceAll(body, repl);
      AttachEventListeners();
    }

    /**
     * `loadDriverData`: the fetched and parsed data, or `None` when the fetch
     * or the parse failed (the error is only logged); on success the scan
     * runs at once.
     */
    method LoadDriverData(response: Option<Store>)
      requires Valid()
      requires response.Some? ==> FactStore.Valid(response.value)
      modifies this
      ensures Valid()
      ensures tooltipInDocument == old(tooltipInDocument) && tooltip == old(tooltip)
      ensures response.None? ==> store == old(store) && body == old(body)
      ensures response.Some? ==> store == response
      ensures response.Some? && response.value.names == [] ==> body == old(body)
      ensures response.Some? && response.value.names != [] ==>
                body == BindAll(Highlighted(old(body), response.value.names))
    {
      if response.None? {
        return;
      }
      store := response;
      ScanAndHighlight();
    }

    /**
     * The script's top level: create the tooltip once, then load the data
     * (which scans the page when it arrives).
     */
    method Start(response: Option<Store>)
      requires Valid()
      requires response.Some? ==> FactStore.Valid(response.value)
      modifies this
      ensures Valid() && tooltipInDocument
      ensures !old(tooltipInDocument) ==> tooltip == Some(Tooltip(false, None))
      ensures old(tooltipInDocument) ==> tooltip == old(tooltip)
      ensures response.None? ==> store == old(store) && body == old(body)
      ensures response.Some? ==> store == response
      ensures response.Some? && response.value.names == [] ==> body == old(body)
      ensures response.Some? && response.value.names != [] ==>
                body == BindAll(Highlighted(old(body), response.value.names))
    {
      CreateTooltip();
      LoadDriverData(response);
    }
  }
}
