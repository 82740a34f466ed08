/**
 The configuration of a modal dialog: the caller's options object, the fixed
 defaults record, and the shallow merge `$.extend({}, defaults, options)` that
 `modal()` performs before constructing the dialog.
 */
module ModalOptions {

  datatype Option<T> = None | Some(value: T)

  /** A title is a string, or a falsy non-string such as `false` or `null`. */
  datatype Title = TitleText(text: string) | TitleFalsy

  /** The identity of a DOM node the caller built; two refs are the same node iff equal. */
  datatype NodeRef = NodeRef(id: nat)

  /**
   Content is a string; the nodes of a jQuery object, an array of nodes or a
   fragment's children, in order (a single element is one node, an empty
   collection none); or one of the falsy non-strings `false`, `null` and
   `NaN`, which append nothing.
   */
  datatype Content = TextContent(text: string) | NodeContent(nodes: seq<NodeRef>) | FalsyContent

  /**
   A button as configured. `keyCodes` is None when the property is absent or
   falsy; `className` and `iconClassName` only matter to the template.
   */
  datatype Button = Button(
    text: string,
    event: string,
    className: Option<string>,
    keyCodes: Option<seq<int>>,
    iconClassName: Option<string>)

  /**
   A caller's options object. A field is None when the key is absent or holds
   `undefined`, the two cases `$.extend` does not copy.
   */
  datatype Options = Options(
    title: Option<Title>,
    content: Option<Content>,
    buttons: Option<seq<Button>>,
    clickOutsideToClose: Option<bool>,
    clickOutsideEvent: Option<string>,
    className: Option<string>)

  /** The merged settings a dialog is built from: every key has a value. */
  datatype Settings = Settings(
    title: Title,
    content: Content,
    buttons: seq<Button>,
    clickOutsideToClose: bool,
    clickOutsideEvent: string,
    className: string)

  /** The empty object `{}`, which is also what an omitted `options` argument contributes. */
  const NoOptions: Options := Options(None, None, None, None, None, None)

  const DefaultButtons: seq<Button> := [
    Button("Cancel", "cancel", Some(""), Some([27]), None),
    Button("Confirm", "confirm", Some("btn-primary"), None, None)
  ]

  const DefaultSettings: Settings := Settings(
    TitleText("Are you sure?"),
    TextContent("Please confirm this action."),
    DefaultButtons,
    true,
    "cancel",
    "")

  /** An options object that gives every key the value it has in `s`. */
  function FromSettings(s: Settings): (o: Options)
    ensures Complete(o)
  {
    Options(Some(s.title), Some(s.content), Some(s.buttons),
            Some(s.clickOutsideToClose), Some(s.clickOutsideEvent), Some(s.className))
  }

  /** The shared `defaults` object. */
  const Defaults: Options := FromSettings(DefaultSettings)

  predicate Complete(o: Options) {
    o.title.Some? && o.content.Some? && o.buttons.Some? &&
    o.clickOutsideToClose.Some? && o.clickOutsideEvent.Some? && o.className.Some?
  }

  /** Reads a complete options object as settings. */
  function ToSettings(o: Options): (s: Settings)
    requires Complete(o)
    ensures FromSettings(s) == o
  {
    Settings(o.title.value, o.content.value, o.buttons.value,
             o.clickOutsideToClose.value, o.clickOutsideEvent.value, o.className.value)
  }

  /** One property of `$.extend(target, source)`: a defined source value replaces the target's. */
  function Pick<T>(target: Option<T>, source: Option<T>): Option<T> {
    if source.Some? then source else target
  }

  /**
   `$.extend(target, source)` without deep copying: every key that `source`
   defines is copied over `target`, every other key of `target` is kept.
   */
  function Extend(target: Options, source: Options): (r: Options)
    ensures source.title.Some? ==> r.title == source.title
    ensures source.title.None? ==> r.title == target.title
    ensures source.content.Some? ==> r.content == source.content
    ensures source.content.None? ==> r.content == target.content
    ensures source.buttons.Some? ==> r.buttons == source.buttons
    ensures source.buttons.None? ==> r.buttons == target.buttons
    ensures source.clickOutsideToClose.Some? ==> r.clickOutsideToClose == source.clickOutsideToClose
    ensures source.clickOutsideToClose.None? ==> r.clickOutsideToClose == target.clickOutsideToClose
    ensures source.clickOutsideEvent.Some? ==> r.clickOutsideEvent == source.clickOutsideEvent
    ensures source.clickOutsideEvent.None? ==> r.clickOutsideEvent == target.clickOutsideEvent
    ensures source.className.Some? ==> r.className == source.className
    ensures source.className.None? ==> r.className == target.className
    ensures Complete(target) ==> Complete(r)
    ensures Complete(source) ==> r == source
  {
    Options(
      Pick(target.title, source.title),
      Pick(target.content, source.content),
      Pick(target.buttons, source.buttons),
      Pick(target.clickOutsideToClose, source.clickOutsideToClose),
      Pick(target.clickOutsideEvent, source.clickOutsideEvent),
      Pick(target.className, source.className))
  }

  /** `modal(options)` builds its dialog from `$.extend({}, defaults, options)`. */
  function Merge(options: Options): (s: Settings)
    ensures options.title.Some? ==> s.title == options.title.value
    ensures options.title.None? ==> s.title == DefaultSettings.title
    ensures options.content.Some? ==> s.content == options.content.value
    ensures options.content.None? ==> s.content == DefaultSettings.content
    ensures options.buttons.Some? ==> s.buttons == options.buttons.value
    ensures options.buttons.None? ==> s.buttons == DefaultSettings.buttons
    ensures options.clickOutsideToClose.Some? ==> s.clickOutsideToClose == options.clickOutsideToClose.value
    ensures options.clickOutsideToClose.None? ==> s.clickOutsideToClose == DefaultSettings.clickOutsideToClose
    ensures options.clickOutsideEvent.Some? ==> s.clickOutsideEvent == options.clickOutsideEvent.value
    ensures options.clickOutsideEvent.None? ==> s.clickOutsideEvent == DefaultSettings.clickOutsideEvent
    ensures options.className.Some? ==> s.className == options.className.value
    ensures options.className.None? ==> s.className == DefaultSettings.className
  {
    ToSettings(Extend(Extend(NoOptions, Defaults), options))
  }

  /** Extending the fresh `{}` target with an object yields a copy of that object. */
  lemma ExtendFreshTarget(o: Options)
    ensures Extend(NoOptions, o) == o
    ensures Extend(o, NoOptions) == o
  {
  }

  /** Extending by two sources in turn is extending by their combination. */
  lemma ExtendAssociative(a: Options, b: Options, c: Options)
    ensures Extend(Extend(a, b), c) == Extend(a, Extend(b, c))
  {
  }

  /** With no options the dialog is built from exactly the defaults. */
  lemma MergeNoOptions()
    ensures Merge(NoOptions) == DefaultSettings
  {
  }

  /** An options object that sets every key leaves no default in the result. */
  lemma MergeEveryKey(s: Settings)
    ensures Merge(FromSettings(s)) == s
  {
  }

  /** Falsy titles still override the default title, since only undefined is skipped. */
  lemma MergeFalsyTitle(o: Options)
    requires o.title == Some(TitleText("")) || o.title == Some(TitleFalsy)
    ensures Merge(o).title != DefaultSettings.title
    ensures Merge(o).title == o.title.value
  {
  }

  /** A buttons array replaces the default buttons wholesale, even when it is empty. */
  lemma MergeButtonsShallow(o: Options, buttons: seq<Button>)
    requires o.buttons == Some(buttons)
    ensures Merge(o).buttons == buttons
  {
  }
}
