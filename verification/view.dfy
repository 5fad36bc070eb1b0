/**
 * The focus registry of the dashboard: every widget added to the UI is
 * remembered in order, and the keybinding registered with it focuses
 * that widget and unfocuses all the others.
 */
module View {

  /** A widget, reduced to what the registry touches: its focus flag. */
  class Widget {
    var focused: bool

    constructor ()
      ensures !focused
    {
      focused := false;
    }

    method SetFocused(f: bool)
      modifies this
      ensures focused == f
    {
      focused := f;
    }
  }

  /** A keybinding registered by AddWidget: its key and the widget its handler focuses. */
  datatype Binding = Binding(key: string, target: Widget)

  class UI {
    var widgets: seq<Widget>
    var bindings: seq<Binding>

    /** Every registered handler focuses a registered widget. */
    ghost predicate Valid()
      reads this
    {
      forall k :: 0 <= k < |bindings| ==> bindings[k].target in widgets
    }

    constructor ()
      ensures widgets == [] && bindings == [] && Valid()
    {
      widgets, bindings := [], [];
    }

    /** The registered widgets, in registration order. */
    function GetWidgets(): (r: seq<Widget>)
      reads this
      ensures r == widgets
      ensures Valid() ==> forall k :: 0 <= k < |bindings| ==> bindings[k].target in r
    {
      widgets
    }

    /**
     * AddWidget: appends w to the registered widgets and registers a
     * handler for the key that focuses w.
     */
    method AddWidget(w: Widget, key: string)
      requires Valid()
      modifies this
      ensures Valid()
      ensures widgets == old(widgets) + [w]
      ensures bindings == old(bindings) + [Binding(key, w)]
    {
      widgets := widgets + [w];
      bindings := bindings + [Binding(key, w)];
    }

    /** UnFocusedAll: every registered widget loses focus; nothing else changes. */
    method UnFocusedAll()
      modifies widgets
      ensures widgets == old(widgets)
      ensures forall v :: v in widgets ==> !v.focused
    {
      for i := 0 to |widgets|
        invariant forall k :: 0 <= k < i ==> !widgets[k].focused
      {
        widgets[i].SetFocused(false);
      }
    }

    /**
     * The handler AddWidget registers for w: reads the widget list when it
     * fires, unfocuses all of it, then focuses w.
     */
    method Focus(w: Widget)
      modifies widgets, w
      ensures w.focused
      ensures forall v :: v in widgets && v != w ==> !v.focused
    {
      UnFocusedAll();
      w.SetFocused(true);
    }

    /** Fires the handler registered by the k-th AddWidget call. */
    method RunHandler(k: nat)
      requires Valid() && k < |bindings|
      modifies widgets
      ensures forall v :: v in widgets ==> (v.focused <==> v == bindings[k].target)
    {
      Focus(bindings[k].target);
    }
  }

  /**
   * A handler registered before a later widget still unfocuses it, since
   * the list is read when the handler fires.
   */
  method FocusAfterLateRegistration() returns (first: Widget, later: Widget)
    ensures first.focused && !later.focused
  {
    var ui := new UI();
    first := new Widget();
    ui.AddWidget(first, "Ctrl+r");
    later := new Widget();
    ui.AddWidget(later, "Ctrl+g");
    later.SetFocused(true);
    ui.RunHandler(0);
  }
}
