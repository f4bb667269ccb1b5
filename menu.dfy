/** The context-menu controller of `static/menu.mjs` (`setupContextMenu`). The DOM
    and the clipboard are modelled by what the controller does to them: the menu's
    style, the one-shot window listeners it arms, the `checked` class of each layout
    item, and a log of effects (style writes, clipboard requests, pastes, layout
    callbacks) in the order they are issued. */
module Menu {
  import opened Wrappers
  import Common

  /** One `.menu-item` of the markup: its `data-cmd` and `data-layout` attributes. */
  datatype MenuItem = MenuItem(cmd: Option<string>, layout: Option<string>)

  /** The window listeners `showMenu` arms (both call `closeOnce`, with `once: true`).
      Adding the same callback for the same type again adds nothing (the "add an event
      listener" algorithm, section 2.7 of the WHATWG DOM Standard), so what is armed is
      a set keyed by event type. */
  datatype Listener = ClickListener | KeydownListener

  /** An event delivered to `closeOnce`. */
  datatype WindowEvent = ClickEvent | KeydownEvent(key: string)

  /** What the terminal answers at the moment of a click: `hasSelection?.()` (None
      when the terminal has no such method) and `getSelection()`. */
  datatype TermView = TermView(hasSelection: Option<bool>, selection: string)

  /** Where a click lands: outside the menu, or on it, with the index of the
      `.menu-item` that `ev.target.closest(".menu-item")` finds, if any. */
  datatype ClickTarget = Outside | OnMenu(item: Option<nat>)

  datatype Point = Point(x: int, y: int)

  datatype Effect =
    | MenuShown(at: Point)            // style.left, style.top, then display = "block"
    | MenuHidden                      // display = "none"
    | ClipboardWrite(text: string)    // navigator.clipboard.writeText(text)
    | ClipboardRead                   // navigator.clipboard.readText(), now pending
    | TermPaste(text: string)         // term.paste(text), once a read resolves
    | LayoutChanged(layout: string)   // opts.onLayoutChange(layout)

  predicate IsClipboardEffect(e: Effect)
  {
    e.ClipboardWrite? || e.ClipboardRead?
  }

  /** JavaScript truthiness of an optional attribute: present and not empty. */
  predicate Truthy(attr: Option<string>)
  {
    attr.Some? && attr.value != ""
  }

  /** The `switch (cmd)` of the menu handler. `copy` writes the selection once,
      provided the terminal exists and has a `hasSelection` that answers true;
      `paste` issues one clipboard read, provided the terminal exists; any other or
      absent command issues nothing. */
  function CommandEffects(cmd: Option<string>, hasTerm: bool, term: TermView): (r: seq<Effect>)
    ensures |r| <= 1
    ensures forall k :: 0 <= k < |r| ==> IsClipboardEffect(r[k])
    ensures ClipboardWrite(term.selection) in r
        <==> cmd == Some("copy") && hasTerm && term.hasSelection == Some(true)
    ensures (forall t :: ClipboardWrite(t) in r ==> t == term.selection)
    ensures ClipboardRead in r <==> cmd == Some("paste") && hasTerm
    ensures cmd != Some("copy") && cmd != Some("paste") ==> r == []
  {
    if cmd == Some("copy") then
      if hasTerm && term.hasSelection == Some(true) then [ClipboardWrite(term.selection)] else []
    else if cmd == Some("paste") then
      if hasTerm then [ClipboardRead] else []
    else []
  }

  /** The `if (layout)` block's callback: `onLayoutChange?.(layout)`. */
  function LayoutEffects(layout: Option<string>, hasLayoutCallback: bool): (r: seq<Effect>)
    ensures |r| <= 1
    ensures forall l :: LayoutChanged(l) in r <==> Truthy(layout) && hasLayoutCallback && l == layout.value
    ensures forall k :: 0 <= k < |r| ==> r[k].LayoutChanged?
  {
    if Truthy(layout) && hasLayoutCallback then [LayoutChanged(layout.value)] else []
  }

  /** Everything the menu handler issues for a click on `item`: the menu is hidden
      first, and only then come the clipboard request and the layout callback. */
  function ItemClickEffects(item: MenuItem, hasTerm: bool, term: TermView, hasLayoutCallback: bool): (r: seq<Effect>)
    ensures 1 <= |r| <= 3 && r[0] == MenuHidden
    ensures forall k :: 0 < k < |r| ==> !r[k].MenuHidden? && !r[k].MenuShown?
    ensures forall k :: 0 <= k < |r| && IsClipboardEffect(r[k]) ==> item.cmd == Some("copy") || item.cmd == Some("paste")
    ensures ClipboardWrite(term.selection) in r
        <==> item.cmd == Some("copy") && hasTerm && term.hasSelection == Some(true)
    ensures ClipboardRead in r <==> item.cmd == Some("paste") && hasTerm
    ensures forall l :: LayoutChanged(l) in r <==> Truthy(item.layout) && hasLayoutCallback && l == item.layout.value
  {
    [MenuHidden] + CommandEffects(item.cmd, hasTerm, term) + LayoutEffects(item.layout, hasLayoutCallback)
  }

  /** Each element with a `data-layout` attribute is checked exactly when that
      attribute equals the current layout. */
  ghost predicate LayoutUIConsistent(items: seq<MenuItem>, checked: seq<bool>, current: string)
    requires |checked| == |items|
  {
    forall k :: 0 <= k < |items| && items[k].layout.Some? ==> (checked[k] <==> items[k].layout.value == current)
  }

  /** What `updateLayoutUI` leaves: layout elements toggled to match `current`, the
      others untouched. */
  function RefreshChecks(items: seq<MenuItem>, current: string, checked: seq<bool>): (r: seq<bool>)
    requires |checked| == |items|
    ensures |r| == |items|
    ensures LayoutUIConsistent(items, r, current)
    ensures forall k :: 0 <= k < |items| && items[k].layout.None? ==> r[k] == checked[k]
  {
    seq(|items|, k requires 0 <= k < |items| =>
      if items[k].layout.Some? then items[k].layout.value == current else checked[k])
  }

  /** When the markup names each layout once and the current layout is among them,
      exactly one layout element is checked. */
  lemma ExactlyOneChecked(items: seq<MenuItem>, checked: seq<bool>, current: string, c: nat)
    requires |checked| == |items| && LayoutUIConsistent(items, checked, current)
    requires forall j, k :: 0 <= j < k < |items| && items[j].layout.Some? && items[k].layout.Some?
               ==> items[j].layout.value != items[k].layout.value
    requires c < |items| && items[c].layout == Some(current)
    ensures checked[c]
    ensures forall k :: 0 <= k < |items| && items[k].layout.Some? && checked[k] ==> k == c
  {
  }

  /** The layout the controller may hold: its initial value or the `data-layout` of
      some item (a click only ever stores a truthy one). */
  ghost predicate KnownLayout(items: seq<MenuItem>, current: string)
  {
    current == Common.DefaultLayout || exists k :: 0 <= k < |items| && items[k].layout == Some(current)
  }

  /** The state `setupContextMenu` keeps: the menu element's style, the closure
      variable `currentLayout`, the armed window listeners, the `checked` class of
      each element, and the clipboard reads still pending. */
  class ContextMenu {
    const items: seq<MenuItem>
    const hasTerm: bool
    const hasLayoutCallback: bool

    var visible: bool
    var position: Option<Point>
    var currentLayout: string
    var armed: set<Listener>
    var checked: seq<bool>
    var pendingReads: nat
    var log: seq<Effect>

    ghost predicate Valid()
      reads this
    {
      && |checked| == |items|
      && LayoutUIConsistent(items, checked, currentLayout)
      && KnownLayout(items, currentLayout)
      && (pendingReads > 0 ==> hasTerm)
    }

    /** `setupContextMenu(containerEl, opts)`: `currentLayout` starts as "qwerty" and
        `updateLayoutUI` runs once. The menu starts hidden and with no position set;
        `markupChecked` is the `checked` class the markup gives each element. */
    constructor (items: seq<MenuItem>, markupChecked: seq<bool>, hasTerm: bool, hasLayoutCallback: bool)
      requires |markupChecked| == |items|
      ensures Valid()
      ensures this.items == items && this.hasTerm == hasTerm && this.hasLayoutCallback == hasLayoutCallback
      ensures !visible && position == None && armed == {} && pendingReads == 0 && log == []
      ensures currentLayout == Common.DefaultLayout
      ensures checked == RefreshChecks(items, Common.DefaultLayout, markupChecked)
    {
      this.items := items;
      this.hasTerm := hasTerm;
      this.hasLayoutCallback := hasLayoutCallback;
      visible := false;
      position := None;
      currentLayout := Common.DefaultLayout;
      armed := {};
      checked := markupChecked;
      pendingReads := 0;
      log := [];
      new;
      UpdateLayoutUI();
    }

    /** `updateLayoutUI`: the `forEach` over the `[data-layout]` elements. */
    method UpdateLayoutUI()
      requires |checked| == |items|
      modifies this`checked
      ensures checked == RefreshChecks(items, currentLayout, old(checked))
    {
      var k := 0;
      while k < |items|
        invariant 0 <= k <= |items| && |checked| == |items|
        invariant forall j :: 0 <= j < k ==> checked[j] == RefreshChecks(items, currentLayout, old(checked))[j]
        invariant forall j :: k <= j < |items| ==> checked[j] == old(checked)[j]
      {
        if items[k].layout.Some? {
          checked := checked[k := items[k].layout.value == currentLayout];
        }
        k := k + 1;
      }
    }

    /** `showMenu(x, y)`: position and display the menu and arm both one-shot
        listeners; a listener type already armed stays armed once. */
    method ShowMenu(x: int, y: int)
      modifies this`visible, this`position, this`armed, this`log
      ensures visible && position == Some(Point(x, y))
      ensures armed == old(armed) + {ClickListener, KeydownListener}
      ensures log == old(log) + [MenuShown(Point(x, y))]
    {
      position := Some(Point(x, y));
      visible := true;
      log := log + [MenuShown(Point(x, y))];
      armed := armed + {ClickListener, KeydownListener};
    }

    /** `hide()`: sets `display` to none and touches nothing else. */
    method Hide()
      modifies this`visible, this`log
      ensures !visible
      ensures log == old(log) + [MenuHidden]
    {
      visible := false;
      log := log + [MenuHidden];
    }

    /** `closeOnce(e)`: a key other than Escape does nothing; anything else hides. */
    method CloseOnce(e: WindowEvent)
      modifies this`visible, this`log
      ensures e.KeydownEvent? && e.key != "Escape" ==> visible == old(visible) && log == old(log)
      ensures !(e.KeydownEvent? && e.key != "Escape") ==> !visible && log == old(log) + [MenuHidden]
    {
      if e.KeydownEvent? && e.key != "Escape" {
        return;
      }
      Hide();
    }

    /** Delivery of a window event to the armed listener of its type: a `once`
        listener is removed before its callback runs; with none armed, nothing
        happens. */
    method DispatchWindow(l: Listener, e: WindowEvent)
      requires l == ClickListener <==> e.ClickEvent?
      modifies this`visible, this`log, this`armed
      ensures armed == old(armed) - {l}
      ensures l in old(armed) && !(e.KeydownEvent? && e.key != "Escape")
              ==> !visible && log == old(log) + [MenuHidden]
      ensures l !in old(armed) || (e.KeydownEvent? && e.key != "Escape")
              ==> visible == old(visible) && log == old(log)
    {
      if l in armed {
        armed := armed - {l};
        CloseOnce(e);
      }
    }

    /** The `contextmenu` listener on the container: only with Ctrl held is the default
        prevented and the menu shown at the mouse position; otherwise nothing changes. */
    method OnContextMenu(ctrlKey: bool, x: int, y: int) returns (defaultPrevented: bool)
      requires Valid()
      modifies this`visible, this`position, this`armed, this`log
      ensures Valid()
      ensures defaultPrevented == ctrlKey
      ensures ctrlKey ==> && visible && position == Some(Point(x, y))
                          && armed == old(armed) + {ClickListener, KeydownListener}
                          && log == old(log) + [MenuShown(Point(x, y))]
      ensures !ctrlKey ==> && visible == old(visible) && position == old(position)
                           && armed == old(armed) && log == old(log)
    {
      defaultPrevented := false;
      if ctrlKey {
        defaultPrevented := true;
        ShowMenu(x, y);
      }
    }

    /** The `click` listener on the menu, for a click whose target lies inside item
        `idx`: hide, dispatch the command, then adopt a truthy `data-layout`, refresh
        the checks and call back. */
    method OnMenuItemClick(idx: nat, term: TermView)
      requires Valid() && idx < |items|
      modifies this`visible, this`log, this`currentLayout, this`checked, this`pendingReads
      ensures Valid()
      ensures !visible
      ensures log == old(log) + ItemClickEffects(items[idx], hasTerm, term, hasLayoutCallback)
      ensures currentLayout == if Truthy(items[idx].layout) then items[idx].layout.value else old(currentLayout)
      ensures checked == if Truthy(items[idx].layout) then RefreshChecks(items, currentLayout, old(checked)) else old(checked)
      ensures pendingReads == old(pendingReads) + (if items[idx].cmd == Some("paste") && hasTerm then 1 else 0)
    {
      var li := items[idx];
      var cmd := li.cmd;
      var layout := li.layout;
      Hide();

      ghost var afterHide := log;
      RunCommand(cmd, term);
      ghost var afterCommand := log;

      if Truthy(layout) {
        currentLayout := layout.value;
        UpdateLayoutUI();
        if hasLayoutCallback {
          log := log + [LayoutChanged(layout.value)];
        }
      }
      assert log == afterCommand + LayoutEffects(layout, hasLayoutCallback);
      assert log == old(log) + ItemClickEffects(li, hasTerm, term, hasLayoutCallback);
    }

    /** The `switch (cmd)` of the menu handler: a `paste` request leaves one more
        clipboard read pending. */
    method RunCommand(cmd: Option<string>, term: TermView)
      requires pendingReads > 0 ==> hasTerm
      modifies this`log, this`pendingReads
      ensures log == old(log) + CommandEffects(cmd, hasTerm, term)
      ensures pendingReads == old(pendingReads) + (if cmd == Some("paste") && hasTerm then 1 else 0)
      ensures pendingReads > 0 ==> hasTerm
    {
      if cmd == Some("copy") {
        if hasTerm && term.hasSelection == Some(true) {
          log := log + [ClipboardWrite(term.selection)];
        }
      } else if cmd == Some("paste") {
        if hasTerm {
          log := log + [ClipboardRead];
          pendingReads := pendingReads + 1;
        }
      }
    }

    /** A click anywhere: it reaches the menu's listener first when it lands inside
        the menu (which acts only inside a `.menu-item`), then bubbles to the window,
        where an armed click listener is consumed and hides the menu. */
    method OnClick(target: ClickTarget, term: TermView)
      requires Valid()
      requires target.OnMenu? && target.item.Some? ==> target.item.value < |items|
      modifies this`visible, this`log, this`currentLayout, this`checked, this`pendingReads, this`armed
      ensures Valid()
      ensures armed == old(armed) - {ClickListener}
      ensures var menuPart := if target.OnMenu? && target.item.Some?
                              then ItemClickEffects(items[target.item.value], hasTerm, term, hasLayoutCallback)
                              else [];
              var windowPart := if ClickListener in old(armed) then [MenuHidden] else [];
              log == old(log) + menuPart + windowPart
      ensures visible == (old(visible) && ClickListener !in old(armed) && !(target.OnMenu? && target.item.Some?))
      ensures !(target.OnMenu? && target.item.Some?) ==>
                currentLayout == old(currentLayout) && checked == old(checked) && pendingReads == old(pendingReads)
      ensures target.OnMenu? && target.item.Some? ==>
                var item := items[target.item.value];
                && currentLayout == (if Truthy(item.layout) then item.layout.value else old(currentLayout))
                && checked == (if Truthy(item.layout) then RefreshChecks(items, currentLayout, old(checked)) else old(checked))
                && pendingReads == old(pendingReads) + (if item.cmd == Some("paste") && hasTerm then 1 else 0)
    {
      if target.OnMenu? && target.item.Some? {
        OnMenuItemClick(target.item.value, term);
      }
      DispatchWindow(ClickListener, ClickEvent);
    }

    /** A key press anywhere: only the armed keydown listener sees it. */
    method OnKeydown(key: string)
      requires Valid()
      modifies this`visible, this`log, this`armed
      ensures Valid()
      ensures armed == old(armed) - {KeydownListener}
      ensures KeydownListener in old(armed) && key == "Escape" ==> !visible && log == old(log) + [MenuHidden]
      ensures KeydownListener !in old(armed) || key != "Escape" ==> visible == old(visible) && log == old(log)
    {
      DispatchWindow(KeydownListener, KeydownEvent(key));
    }

    /** A pending `readText()` resolves to `text`: the terminal gets exactly that text. */
    method ResolveRead(text: string)
      requires Valid() && pendingReads > 0
      modifies this`pendingReads, this`log
      ensures Valid()
      ensures pendingReads == old(pendingReads) - 1
      ensures log == old(log) + [TermPaste(text)]
    {
      pendingReads := pendingReads - 1;
      log := log + [TermPaste(text)];
    }

    /** A pending `readText()` is rejected: nothing happens and nothing is reported. */
    method RejectRead()
      requires Valid() && pendingReads > 0
      modifies this`pendingReads
      ensures Valid()
      ensures pendingReads == old(pendingReads) - 1
    {
      pendingReads := pendingReads - 1;
    }
  }
}
