/**
 A modal dialog instance: its listener table (the instance is an event
 emitter), its shortcut table, the content it placed, whether its document
 key-up and window resize handlers are registered, whether its overlay is in
 the document, and the top offset of its dialog box. Handlers that the browser
 calls are methods; which of them the browser can still reach is decided by the
 registration state, as in `modal.js`.
 */
module ModalDialog {
  import opened ModalOptions
  import opened Shortcuts
  import opened Centring

  /** A subscriber to the dialog's events, by identity. */
  datatype Listener = Listener(id: nat)

  /** One call of `emit`: the event name and the listeners it reached, in registration order. */
  datatype Emission = Emission(event: string, delivered: seq<Listener>)

  /** A child of the content container. */
  datatype Child = Paragraph(text: string) | Appended(node: NodeRef)

  /** Where a click inside the overlay landed: on the overlay element itself or on a descendant. */
  datatype ClickTarget = Overlay | Descendant

  /** The listeners registered for `event`, in registration order. */
  function ListenersOf(table: map<string, seq<Listener>>, event: string): seq<Listener> {
    if event in table then table[event] else []
  }

  /** No node occurs twice. */
  predicate Distinct(nodes: seq<NodeRef>) {
    forall i, j :: 0 <= i < j < |nodes| ==> nodes[i] != nodes[j]
  }

  /** The position of the last occurrence of `node` in `nodes`. */
  function LastIndex(nodes: seq<NodeRef>, node: NodeRef): (r: nat)
    requires node in nodes
    ensures r < |nodes| && nodes[r] == node
  {
    if node in nodes[1..] then 1 + LastIndex(nodes[1..], node) else 0
  }

  /** No occurrence of the node follows its last index. */
  lemma {:induction false} LastIndexIsLast(nodes: seq<NodeRef>, node: NodeRef, j: int)
    requires node in nodes && LastIndex(nodes, node) < j < |nodes|
    ensures nodes[j] != node
  {
    assert nodes[j] == nodes[1..][j - 1];
    if node in nodes[1..] {
      LastIndexIsLast(nodes[1..], node, j - 1);
    }
  }

  /**
   Each node once, at the place of its last occurrence: the nodes are those of
   `nodes`.
   */
  function LastOccurrences(nodes: seq<NodeRef>): (r: seq<NodeRef>)
    ensures forall n :: n in r <==> n in nodes
  {
    if nodes == [] then []
    else
      var rest := LastOccurrences(nodes[1..]);
      if nodes[0] in nodes[1..] then rest else [nodes[0]] + rest
  }

  /** A node of the tail last occurs one place further on in the whole list. */
  lemma LastIndexTail(nodes: seq<NodeRef>, node: NodeRef)
    requires nodes != [] && node in nodes[1..]
    ensures LastIndex(nodes, node) == 1 + LastIndex(nodes[1..], node)
  {
  }

  /** No node occurs twice among the last occurrences. */
  lemma {:induction false} LastOccurrencesDistinct(nodes: seq<NodeRef>)
    ensures Distinct(LastOccurrences(nodes))
  {
    if nodes != [] {
      var rest := LastOccurrences(nodes[1..]);
      LastOccurrencesDistinct(nodes[1..]);
      if nodes[0] !in nodes[1..] {
        var r := [nodes[0]] + rest;
        forall i, j | 0 <= i < j < |r| ensures r[i] != r[j] {
          assert r[j] == rest[j - 1] && rest[j - 1] in rest;
          if 0 < i {
            assert r[i] == rest[i - 1];
          }
        }
      }
    }
  }

  /** The nodes are ordered by where they last occur. */
  lemma {:induction false} LastOccurrencesOrder(nodes: seq<NodeRef>, i: int, j: int)
    requires 0 <= i < j < |LastOccurrences(nodes)|
    ensures LastIndex(nodes, LastOccurrences(nodes)[i]) < LastIndex(nodes, LastOccurrences(nodes)[j])
  {
    var r, rest := LastOccurrences(nodes), LastOccurrences(nodes[1..]);
    if nodes[0] in nodes[1..] {
      LastOccurrencesOrder(nodes[1..], i, j);
      LastIndexTail(nodes, rest[i]);
      LastIndexTail(nodes, rest[j]);
    } else {
      LastIndexTail(nodes, rest[j - 1]);
      if 0 < i {
        LastOccurrencesOrder(nodes[1..], i - 1, j - 1);
        LastIndexTail(nodes, rest[i - 1]);
      }
    }
  }

  /** A list without a repeated node is its own last occurrences. */
  lemma {:induction false} LastOccurrencesOfDistinct(nodes: seq<NodeRef>)
    ensures Distinct(nodes) ==> LastOccurrences(nodes) == nodes
  {
    if nodes != [] && Distinct(nodes) {
      forall i, j | 0 <= i < j < |nodes[1..]| ensures nodes[1..][i] != nodes[1..][j] {
        assert nodes[1..][i] == nodes[i + 1] && nodes[1..][j] == nodes[j + 1];
      }
      forall j | 0 <= j < |nodes[1..]| ensures nodes[1..][j] != nodes[0] {
        assert nodes[1..][j] == nodes[j + 1];
      }
      LastOccurrencesOfDistinct(nodes[1..]);
    }
  }

  /** The nodes of `fragment` that are not in `drop`, in their order. */
  function Keep(fragment: seq<NodeRef>, drop: seq<NodeRef>): seq<NodeRef> {
    if fragment == [] then []
    else (if fragment[0] in drop then [] else [fragment[0]]) + Keep(fragment[1..], drop)
  }

  /** Keep drops exactly the nodes of `drop`. */
  lemma {:induction false} KeepMembers(fragment: seq<NodeRef>, drop: seq<NodeRef>, n: NodeRef)
    ensures n in Keep(fragment, drop) <==> n in fragment && n !in drop
  {
    if fragment != [] {
      KeepMembers(fragment[1..], drop, n);
      assert n in fragment <==> n == fragment[0] || n in fragment[1..];
    }
  }

  /**
   The DOM's `appendChild`: a node already in the fragment is moved, so it ends
   up last and only there; every other child stays.
   */
  function AppendChild(fragment: seq<NodeRef>, node: NodeRef): (r: seq<NodeRef>)
    ensures |r| > 0 && r[|r| - 1] == node && node !in r[..|r| - 1]
    ensures forall n :: n != node ==> (n in r <==> n in fragment)
  {
    var kept := Keep(fragment, [node]);
    assert (kept + [node])[..|kept|] == kept;
    assert forall n :: n in kept <==> n in fragment && n != node by {
      forall n { KeepMembers(fragment, [node], n); }
    }
    kept + [node]
  }

  /** jQuery's `append` of a collection: `appendChild` of each node in turn. */
  function AppendAll(fragment: seq<NodeRef>, nodes: seq<NodeRef>): seq<NodeRef>
    decreases |nodes|
  {
    if nodes == [] then fragment
    else AppendAll(AppendChild(fragment, nodes[0]), nodes[1..])
  }

  lemma {:induction false} KeepNothing(fragment: seq<NodeRef>)
    ensures Keep(fragment, []) == fragment
  {
    if fragment != [] {
      KeepNothing(fragment[1..]);
    }
  }

  lemma {:induction false} KeepConcat(a: seq<NodeRef>, b: seq<NodeRef>, drop: seq<NodeRef>)
    ensures Keep(a + b, drop) == Keep(a, drop) + Keep(b, drop)
  {
    if a != [] {
      assert (a + b)[0] == a[0];
      assert (a + b)[1..] == a[1..] + b;
      KeepConcat(a[1..], b, drop);
    } else {
      assert a + b == b;
    }
  }

  lemma {:induction false} KeepTwice(fragment: seq<NodeRef>, node: NodeRef, drop: seq<NodeRef>)
    ensures Keep(Keep(fragment, [node]), drop) == Keep(fragment, [node] + drop)
  {
    if fragment != [] {
      var first := fragment[0];
      KeepTwice(fragment[1..], node, drop);
      assert [first][1..] == [];
      assert first in [node] + drop <==> first == node || first in drop;
      if first == node {
        assert Keep(fragment, [node]) == Keep(fragment[1..], [node]);
      } else {
        assert Keep(fragment, [node]) == [first] + Keep(fragment[1..], [node]);
        KeepConcat([first], Keep(fragment[1..], [node]), drop);
        assert Keep([first], drop) == if first in drop then [] else [first];
      }
    }
  }

  /** A single node is kept unless it is dropped. */
  lemma KeepSingle(node: NodeRef, drop: seq<NodeRef>)
    ensures Keep([node], drop) == if node in drop then [] else [node]
  {
    assert [node][1..] == [];
  }

  /** Moving `node` to the end and then dropping the nodes of `drop` is dropping `[node] + drop` first. */
  lemma MovedThenKept(fragment: seq<NodeRef>, node: NodeRef, drop: seq<NodeRef>)
    ensures Keep(AppendChild(fragment, node), drop) == Keep(fragment, [node] + drop) + Keep([node], drop)
  {
    KeepConcat(Keep(fragment, [node]), [node], drop);
    KeepTwice(fragment, node, drop);
  }

  /** The last occurrences of a list are those of its tail, after its head if it does not recur. */
  lemma LastOccurrencesStep(nodes: seq<NodeRef>)
    requires nodes != []
    ensures LastOccurrences(nodes) == Keep([nodes[0]], nodes[1..]) + LastOccurrences(nodes[1..])
  {
    KeepSingle(nodes[0], nodes[1..]);
  }

  /**
   Appending nodes one by one moves each repeated node to its last position:
   what was in the fragment and is not appended again stays in front, followed
   by each appended node once, where it last occurs.
   */
  lemma {:induction false} AppendAllKeepsLast(fragment: seq<NodeRef>, nodes: seq<NodeRef>)
    ensures AppendAll(fragment, nodes) == Keep(fragment, nodes) + LastOccurrences(nodes)
    decreases |nodes|
  {
    if nodes == [] {
      KeepNothing(fragment);
    } else {
      var first, rest := nodes[0], nodes[1..];
      var moved := AppendChild(fragment, first);
      calc {
        AppendAll(fragment, nodes);
        AppendAll(moved, rest);
        { AppendAllKeepsLast(moved, rest); }
        Keep(moved, rest) + LastOccurrences(rest);
        { MovedThenKept(fragment, first, rest); assert [first] + rest == nodes; }
        Keep(fragment, nodes) + Keep([first], rest) + LastOccurrences(rest);
        { LastOccurrencesStep(nodes); }
        Keep(fragment, nodes) + LastOccurrences(nodes);
      }
    }
  }

  /** One `Appended` child per node, in order. */
  function AppendedChildren(nodes: seq<NodeRef>): (children: seq<Child>)
    ensures |children| == |nodes|
    ensures forall j :: 0 <= j < |nodes| ==> children[j] == Appended(nodes[j])
  {
    seq(|nodes|, j requires 0 <= j < |nodes| => Appended(nodes[j]))
  }

  /** The appended children are exactly the nodes, each as itself. */
  lemma AppendedChildrenMembers(nodes: seq<NodeRef>)
    ensures forall c :: c in AppendedChildren(nodes) ==> c.Appended? && c.node in nodes
    ensures forall n :: n in nodes ==> Appended(n) in AppendedChildren(nodes)
  {
    var children := AppendedChildren(nodes);
    forall c | c in children ensures c.Appended? && c.node in nodes {
      var j :| 0 <= j < |children| && children[j] == c;
      assert nodes[j] in nodes;
    }
    forall n | n in nodes ensures Appended(n) in children {
      var j :| 0 <= j < |nodes| && nodes[j] == n;
      assert children[j] == Appended(n);
    }
  }

  /**
   The children a node collection is placed as: each node once, where it last
   occurs, and the collection itself when no node repeats.
   */
  lemma PlaceNodes(nodes: seq<NodeRef>)
    ensures AppendedChildren(AppendAll([], nodes)) == AppendedChildren(LastOccurrences(nodes))
    ensures Distinct(nodes) ==> AppendedChildren(AppendAll([], nodes)) == AppendedChildren(nodes)
    ensures forall c :: c in AppendedChildren(AppendAll([], nodes)) ==> c.Appended? && c.node in nodes
    ensures forall n :: n in nodes ==> Appended(n) in AppendedChildren(AppendAll([], nodes))
  {
    AppendAllKeepsLast([], nodes);
    LastOccurrencesOfDistinct(nodes);
    assert Keep([], nodes) == [];
    AppendedChildrenMembers(LastOccurrences(nodes));
  }

  /**
   What the constructor appends to the content container: a string becomes one
   paragraph holding it; node content is appended node by node, so every node
   is placed as itself, once, where it last occurs in the collection, and a
   collection without a repeated node is placed in its own order; `false`,
   `null` or `NaN` append nothing.
   */
  function PlaceContent(content: Content): (children: seq<Child>)
    ensures content.TextContent? <==> |children| == 1 && children[0].Paragraph?
    ensures content.TextContent? ==> children[0].text == content.text
    ensures forall c :: c in children && c.Appended? ==> content.NodeContent? && c.node in content.nodes
    ensures content.NodeContent? ==> forall n :: n in content.nodes ==> Appended(n) in children
    ensures content.NodeContent? ==> children == AppendedChildren(LastOccurrences(content.nodes))
    ensures content.NodeContent? && Distinct(content.nodes) ==> children == AppendedChildren(content.nodes)
    ensures content.FalsyContent? ==> children == []
  {
    match content
    case TextContent(text) => [Paragraph(text)]
    case NodeContent(nodes) =>
      PlaceNodes(nodes);
      AppendedChildren(AppendAll([], nodes))
    case FalsyContent => []
  }

  /** A collection that lists a node twice places it once, at its later position. */
  lemma PlaceContentRepeatedNode(a: NodeRef, b: NodeRef)
    requires a != b
    ensures PlaceContent(NodeContent([a, a])) == [Appended(a)]
    ensures PlaceContent(NodeContent([a, b, a])) == [Appended(b), Appended(a)]
  {
    assert [a, a][1..] == [a] && [a][1..] == [];
    assert LastOccurrences([a]) == [a];
    assert LastOccurrences([a, a]) == [a];
    assert [a, b, a][1..] == [b, a] && [b, a][1..] == [a];
    assert LastOccurrences([b, a]) == [b, a];
    assert LastOccurrences([a, b, a]) == [b, a];
    assert AppendedChildren([a]) == [Appended(a)];
    assert AppendedChildren([b, a]) == [Appended(b), Appended(a)];
  }

  /**
   Placement loses only repetitions: equal placements come from equal string
   contents, and node contents that place the same children have the same last
   occurrences, so equal contents when neither repeats a node.
   */
  lemma PlaceContentInjective(a: Content, b: Content)
    requires PlaceContent(a) == PlaceContent(b)
    ensures a.TextContent? || b.TextContent? ==> a == b
    ensures a.NodeContent? && b.NodeContent? ==> LastOccurrences(a.nodes) == LastOccurrences(b.nodes)
    ensures a.NodeContent? && b.NodeContent? && Distinct(a.nodes) && Distinct(b.nodes) ==> a == b
  {
    if a.TextContent? {
      assert PlaceContent(b)[0] == Paragraph(a.text);
    } else if a.NodeContent? && b.NodeContent? {
      var la, lb := LastOccurrences(a.nodes), LastOccurrences(b.nodes);
      LastOccurrencesOfDistinct(a.nodes);
      LastOccurrencesOfDistinct(b.nodes);
      forall j | 0 <= j < |la| ensures la[j] == lb[j] {
        assert AppendedChildren(la)[j] == Appended(la[j]);
      }
    }
  }

  class Modal {
    const settings: Settings
    /** The shortcut table: key code to button index, fixed at construction. */
    const keys: map<int, nat>
    /** The emitter's listener table. */
    var listeners: map<string, seq<Listener>>
    /** Every emit so far, with the listeners it reached. */
    var emitted: seq<Emission>
    /** The children appended to the content container. */
    var contentChildren: seq<Child>
    var keyupRegistered: bool
    var resizeRegistered: bool
    /** The overlay is in the document; its click handlers and the buttons' are bound while it is. */
    var inDocument: bool
    /** Fade-outs started by a close whose completion (which removes the overlay) is still due. */
    var pendingRemovals: nat
    /** The dialog box's top offset, in pixels. */
    var top: real

    ghost predicate Valid()
      reads this
    {
      keys == KeyTable(settings.buttons)
    }

    /** The state a close leaves: no listeners, no document or window handler. */
    ghost predicate TornDown()
      reads this
    {
      listeners == map[] && !keyupRegistered && !resizeRegistered
    }

    /** Since the old state: one emit of `event`, reaching its listeners of then, followed by a close. */
    twostate predicate EmittedThenClosed(event: string)
      reads this
    {
      && emitted == old(emitted) + [Emission(event, ListenersOf(old(listeners), event))]
      && TornDown()
      && pendingRemovals == old(pendingRemovals) + 1
      && inDocument == old(inDocument)
      && top == old(top)
      && contentChildren == old(contentChildren)
    }

    /**
     Builds the dialog from merged settings for a dialog box of `height` in a
     viewport of `viewport`; `top` is the offset the entrance transition comes
     to rest at.
     */
    constructor (settings: Settings, height: int, viewport: int)
      ensures this.settings == settings && Valid()
      ensures listeners == map[] && emitted == []
      ensures contentChildren == PlaceContent(settings.content)
      ensures keyupRegistered && resizeRegistered && inDocument && pendingRemovals == 0
      ensures top == CentredTop(height, viewport, 0.0)
    {
      var table := BuildKeyTable(settings.buttons);
      this.settings := settings;
      contentChildren := PlaceContent(settings.content);
      keys := table;
      listeners := map[];
      emitted := [];
      keyupRegistered := true;
      inDocument := true;
      pendingRemovals := 0;
      top := CentredTop(height, viewport, 0.0);
      resizeRegistered := true;
    }

    /** `on(event, listener)`: appends the listener to those of `event`. */
    method On(event: string, listener: Listener)
      modifies this`listeners
      ensures listeners == old(listeners)[event := ListenersOf(old(listeners), event) + [listener]]
    {
      listeners := listeners[event := ListenersOf(listeners, event) + [listener]];
    }

    /** `emit(event)`: reaches every listener of `event`, in registration order. */
    method Emit(event: string)
      modifies this`emitted
      ensures emitted == old(emitted) + [Emission(event, ListenersOf(listeners, event))]
    {
      emitted := emitted + [Emission(event, ListenersOf(listeners, event))];
    }

    /** `removeAllListeners()`: forgets every listener of every event. */
    method RemoveAllListeners()
      modifies this`listeners
      ensures listeners == map[]
    {
      listeners := map[];
    }

    /**
     `close` (`removeModal`): starts the fade-out whose completion removes the
     overlay, drops every listener and unregisters the document key-up and
     window resize handlers. Nothing prevents a second close.
     */
    method Close()
      modifies this`listeners, this`keyupRegistered, this`resizeRegistered, this`pendingRemovals
      ensures TornDown()
      ensures pendingRemovals == old(pendingRemovals) + 1
    {
      pendingRemovals := pendingRemovals + 1;
      RemoveAllListeners();
      keyupRegistered := false;
      resizeRegistered := false;
    }

    /** The fade-out's completion: the overlay, with the click handlers bound in it, leaves the document. */
    method FinishRemoval()
      requires pendingRemovals > 0
      modifies this`inDocument, this`pendingRemovals
      ensures !inDocument
      ensures pendingRemovals == old(pendingRemovals) - 1
    {
      inDocument := false;
      pendingRemovals := pendingRemovals - 1;
    }

    /** `handleResize`: centres the dialog box when it is shorter than the viewport. */
    method HandleResize(height: int, viewport: int)
      modifies this`top
      ensures top == CentredTop(height, viewport, old(top))
    {
      if height < viewport {
        var diff := viewport - height;
        top := diff as real / 2.0;
      }
    }

    /** The window fires resize: `handleResize` runs only while it is registered. */
    method WindowResize(height: int, viewport: int)
      modifies this`top
      ensures top == if resizeRegistered then CentredTop(height, viewport, old(top)) else old(top)
    {
      if resizeRegistered {
        HandleResize(height, viewport);
      }
    }

    /** The key-up handler: a code in the table emits its button's event, then closes. */
    method OnKeyup(code: int)
      requires Valid()
      modifies this`emitted, this`listeners, this`keyupRegistered, this`resizeRegistered, this`pendingRemovals
      ensures ShortcutEvent(settings.buttons, code).Some? ==>
                EmittedThenClosed(ShortcutEvent(settings.buttons, code).value)
      ensures ShortcutEvent(settings.buttons, code).None? ==> unchanged(this)
    {
      if code in keys {
        var button := keys[code];
        Emit(settings.buttons[button].event);
        Close();
      }
    }

    /** The document fires key-up: the handler runs only while it is registered. */
    method DocumentKeyup(code: int)
      requires Valid()
      modifies this`emitted, this`listeners, this`keyupRegistered, this`resizeRegistered, this`pendingRemovals
      ensures old(keyupRegistered) && ShortcutEvent(settings.buttons, code).Some? ==>
                EmittedThenClosed(ShortcutEvent(settings.buttons, code).value)
      ensures !old(keyupRegistered) || ShortcutEvent(settings.buttons, code).None? ==> unchanged(this)
    {
      if keyupRegistered {
        OnKeyup(code);
      }
    }

    /** The click handler of button `i`: emits that button's event, then closes. */
    method OnButtonClick(i: nat)
      requires i < |settings.buttons|
      modifies this`emitted, this`listeners, this`keyupRegistered, this`resizeRegistered, this`pendingRemovals
      ensures EmittedThenClosed(settings.buttons[i].event)
    {
      Emit(settings.buttons[i].event);
      Close();
    }

    /** A click on rendered button `i`, which exists for each configured button, in order. */
    method ClickButton(i: nat)
      requires i < |settings.buttons|
      modifies this`emitted, this`listeners, this`keyupRegistered, this`resizeRegistered, this`pendingRemovals
      ensures old(inDocument) ==> EmittedThenClosed(settings.buttons[i].event)
      ensures !old(inDocument) ==> unchanged(this)
    {
      if inDocument {
        OnButtonClick(i);
      }
    }

    /** The overlay's click handler: only a click on the overlay itself emits and closes. */
    method OnOverlayClick(target: ClickTarget)
      modifies this`emitted, this`listeners, this`keyupRegistered, this`resizeRegistered, this`pendingRemovals
      ensures target == Overlay ==> EmittedThenClosed(settings.clickOutsideEvent)
      ensures target == Descendant ==> unchanged(this)
    {
      if target == Overlay {
        Emit(settings.clickOutsideEvent);
        Close();
      }
    }

    /** A click inside the overlay: its handler exists only when `clickOutsideToClose` is set. */
    method ClickOverlay(target: ClickTarget)
      modifies this`emitted, this`listeners, this`keyupRegistered, this`resizeRegistered, this`pendingRemovals
      ensures old(inDocument) && settings.clickOutsideToClose && target == Overlay ==>
                EmittedThenClosed(settings.clickOutsideEvent)
      ensures !(old(inDocument) && settings.clickOutsideToClose && target == Overlay) ==> unchanged(this)
    {
      if inDocument && settings.clickOutsideToClose {
        OnOverlayClick(target);
      }
    }
  }

  /** `modal(options)`: a dialog built from the options merged over the defaults. */
  method NewModal(options: Options, height: int, viewport: int) returns (m: Modal)
    ensures fresh(m) && m.Valid() && m.settings == Merge(options)
    ensures m.listeners == map[] && m.emitted == []
    ensures m.contentChildren == PlaceContent(Merge(options).content)
    ensures m.keyupRegistered && m.resizeRegistered && m.inDocument && m.pendingRemovals == 0
    ensures m.top == CentredTop(height, viewport, 0.0)
  {
    m := new Modal(Merge(options), height, viewport);
  }

  /**
   With default options, clicking button 0 reaches the `cancel` subscribers and
   button 1 the `confirm` subscribers, and the dialog then tears down.
   */
  method DefaultButtonClick(i: nat, onCancel: Listener, onConfirm: Listener, height: int, viewport: int)
    returns (emitted: seq<Emission>, keyupRegistered: bool, resizeRegistered: bool)
    requires i < 2
    ensures emitted == [if i == 0 then Emission("cancel", [onCancel]) else Emission("confirm", [onConfirm])]
    ensures !keyupRegistered && !resizeRegistered
  {
    MergeNoOptions();
    var m := NewModal(NoOptions, height, viewport);
    m.On("cancel", onCancel);
    m.On("confirm", onConfirm);
    assert ListenersOf(m.listeners, "cancel") == [onCancel];
    assert ListenersOf(m.listeners, "confirm") == [onConfirm];
    assert m.settings.buttons[i].event == if i == 0 then "cancel" else "confirm";
    m.ClickButton(i);
    emitted, keyupRegistered, resizeRegistered := m.emitted, m.keyupRegistered, m.resizeRegistered;
  }

  /**
   With default options, key-up 27 reaches the `cancel` subscribers and closes;
   any other code emits nothing and leaves the handler registered.
   */
  method DefaultKeyup(code: int, onCancel: Listener, height: int, viewport: int)
    returns (emitted: seq<Emission>, keyupRegistered: bool)
    ensures code == 27 ==> emitted == [Emission("cancel", [onCancel])] && !keyupRegistered
    ensures code != 27 ==> emitted == [] && keyupRegistered
  {
    MergeNoOptions();
    DefaultShortcuts(code);
    var m := NewModal(NoOptions, height, viewport);
    m.On("cancel", onCancel);
    assert ListenersOf(m.listeners, "cancel") == [onCancel];
    m.DocumentKeyup(code);
    emitted, keyupRegistered := m.emitted, m.keyupRegistered;
  }

  /**
   A click on the overlay with `clickOutsideToClose` set to `flag`: only a
   click on the overlay itself, and only with the flag set, emits the default
   `cancel` and closes.
   */
  method OutsideClick(flag: bool, target: ClickTarget, onCancel: Listener, height: int, viewport: int)
    returns (emitted: seq<Emission>, keyupRegistered: bool)
    ensures flag && target == Overlay ==> emitted == [Emission("cancel", [onCancel])] && !keyupRegistered
    ensures !(flag && target == Overlay) ==> emitted == [] && keyupRegistered
  {
    var m := NewModal(NoOptions.(clickOutsideToClose := Some(flag)), height, viewport);
    m.On("cancel", onCancel);
    assert ListenersOf(m.listeners, "cancel") == [onCancel];
    assert m.settings.clickOutsideEvent == "cancel";
    m.ClickOverlay(target);
    emitted, keyupRegistered := m.emitted, m.keyupRegistered;
  }

  /**
   After a close and the end of its fade-out the overlay is out of the
   document, an emit reaches nobody, and button clicks, key-ups and resizes no
   longer do anything. The ensures on `top` shows only that a late resize
   moves nothing: the slide-out towards the viewport's bottom that runs during
   the fade is an animation this model leaves out.
   */
  method CloseThenRemove(event: string, listener: Listener, code: int, height: int, viewport: int)
    returns (inDocument: bool, late: seq<Emission>, top: real)
    ensures !inDocument
    ensures late == [Emission(event, [])]
    ensures top == CentredTop(height, viewport, 0.0)
  {
    var m := NewModal(NoOptions, height, viewport);
    m.On(event, listener);
    m.Close();
    m.FinishRemoval();
    assert !m.inDocument && m.TornDown() && m.emitted == [];
    if |m.settings.buttons| > 0 {
      m.ClickButton(0);
    }
    m.DocumentKeyup(code);
    m.ClickOverlay(Overlay);
    m.WindowResize(height + 1, viewport + 1);
    m.Emit(event);
    inDocument, late, top := m.inDocument, m.emitted, m.top;
  }

  /**
   String content becomes exactly one paragraph holding the text; a single
   node is appended as that very node, and several nodes as themselves, each
   once, where it last occurs.
   */
  method ContentPlacement(content: Content, height: int, viewport: int) returns (children: seq<Child>)
    ensures content.TextContent? ==> children == [Paragraph(content.text)]
    ensures forall n :: content == NodeContent([n]) ==> children == [Appended(n)]
    ensures content.NodeContent? ==> children == AppendedChildren(LastOccurrences(content.nodes))
    ensures content.NodeContent? && Distinct(content.nodes) ==> children == AppendedChildren(content.nodes)
  {
    var m := NewModal(NoOptions.(content := Some(content)), height, viewport);
    children := m.contentChildren;
  }

  /**
   A dialog built at top 0 (it did not fit the viewport then), once measured
   at 100px in a 1000px viewport, is moved to top 450px.
   */
  method HandleResizeExample() returns (centred: real)
    ensures centred == 450.0
  {
    var m := NewModal(NoOptions, 1000, 1000);
    assert m.top == 0.0;
    m.HandleResize(100, 1000);
    centred := m.top;
  }
}
