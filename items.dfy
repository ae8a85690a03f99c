/** The menu items of SSHMenu.py: hosts, submenus, separators and the bare items the program
    adds itself ("Open all as tabs", "Preferences", ...). Actions (callables) are not modelled. */
module Items {
  import opened Document

  // Kind tags of `Item` (SSHMenu.py:323-326).
  const MENU: string := "menu"
  const SEPARATOR: string := "separator"
  const ITEM: string := "item"
  const HOST: string := "host"

  /** The label every `SeparatorItem` is created with. */
  const SEPARATOR_LABEL: string := "_____________________________"

  /** An item of the menu forest. `showInTree` is false for the entries injected at render time,
      which the preferences editor hides. A menu owns the ordered list of its children. */
  datatype Item =
    | Host(display: Value, profile: Value, geometry: Value, sshParams: Value, enableBcvi: bool, showInTree: bool)
    | Menu(display: Value, items: seq<Item>, showInTree: bool)
    | Separator(display: Value, showInTree: bool)
    | Plain(display: Value, showInTree: bool)

  /** The `kind` attribute every item carries. */
  function Kind(item: Item): (k: string)
    ensures k in {MENU, SEPARATOR, ITEM, HOST}
    ensures (k == MENU) == item.Menu? && (k == HOST) == item.Host?
    ensures (k == SEPARATOR) == item.Separator? && (k == ITEM) == item.Plain?
  {
    match item
    case Host(_, _, _, _, _, _) => HOST
    case Menu(_, _, _) => MENU
    case Separator(_, _) => SEPARATOR
    case Plain(_, _) => ITEM
  }

  /** A freshly created `SeparatorItem()`. */
  function NewSeparator(): (r: Item)
    ensures r.Separator? && r.display == Str(SEPARATOR_LABEL) && r.showInTree
  {
    Separator(Str(SEPARATOR_LABEL), true)
  }

  /** How a host constructor reads its parameter mapping: SSHMenu.py defaults `profile` and
      `geometry` to '' with `.get`; the sshmenu_indicator copies subscript all three keys. */
  datatype HostRule = Lenient | Strict

  function Lookup(m: map<string, Value>, key: string, default: Value): Value {
    if key in m then m[key] else default
  }

  /** `HostItem(display, params)`: falsy (empty) params stand for three empty strings; a missing
      mandatory key raises `KeyError`, checked in the order the constructor reads the keys. */
  function NewHost(display: Value, params: map<string, Value>, rule: HostRule): (r: Result<Item>)
    ensures r.Ok? ==> r.value.Host? && r.value.display == display && !r.value.enableBcvi && r.value.showInTree
    ensures params == map[] ==> r == Ok(Host(display, Str(""), Str(""), Str(""), false, true))
    ensures params != map[] && rule == Lenient ==>
      (r.Ok? <==> "sshparams" in params) &&
      (r.Ok? ==> r.value.sshParams == params["sshparams"] &&
                 r.value.profile == Lookup(params, "profile", Str("")) &&
                 r.value.geometry == Lookup(params, "geometry", Str("")))
    ensures params != map[] && rule == Strict ==>
      (r.Ok? <==> "profile" in params && "geometry" in params && "sshparams" in params) &&
      (r.Ok? ==> r.value.sshParams == params["sshparams"] &&
                 r.value.profile == params["profile"] && r.value.geometry == params["geometry"])
    ensures r.Err? ==> r.error.KeyError? && r.error.key in {"profile", "geometry", "sshparams"}
    ensures r.Err? ==> r.error.key !in params
    ensures r.Err? && rule == Lenient ==> r.error == KeyError("sshparams")
    ensures r.Err? && rule == Strict ==>
      r.error == KeyError(if "profile" !in params then "profile" else if "geometry" !in params then "geometry" else "sshparams")
  {
    var p := if params == map[] then map["profile" := Str(""), "geometry" := Str(""), "sshparams" := Str("")]
             else params;
    match rule
    case Lenient =>
      if "sshparams" !in p then Err(KeyError("sshparams"))
      else Ok(Host(display, Lookup(p, "profile", Str("")), Lookup(p, "geometry", Str("")), p["sshparams"], false, true))
    case Strict =>
      if "profile" !in p then Err(KeyError("profile"))
      else if "geometry" !in p then Err(KeyError("geometry"))
      else if "sshparams" !in p then Err(KeyError("sshparams"))
      else Ok(Host(display, p["profile"], p["geometry"], p["sshparams"], false, true))
  }

  /** Where the copies diverge: whatever the strict constructor accepts, the lenient one builds
      identically; the lenient one also accepts a mapping without `profile` or `geometry`. */
  lemma StrictHostAgreesWithLenient(display: Value, params: map<string, Value>)
    ensures NewHost(display, params, Strict).Ok? ==>
              NewHost(display, params, Lenient) == NewHost(display, params, Strict)
    ensures params != map[] && "sshparams" in params && "profile" !in params ==>
              NewHost(display, params, Lenient).Ok? && NewHost(display, params, Strict) == Err(KeyError("profile"))
  {
  }

  /** `MenuItem.has_items()`: whether some child is shown in the editor tree. */
  function HasItems(items: seq<Item>): (r: bool)
    ensures r <==> exists i :: 0 <= i < |items| && items[i].showInTree
    decreases items
  {
    if items == [] then false
    else items[0].showInTree || HasItems(items[1..])
  }

  /** What the preferences tree shows of a list of items, in order: every menu (with its own list
      filtered the same way) and every other item whose `showInTree` is set. */
  function EditorView(items: seq<Item>): (r: seq<Item>)
    ensures |r| <= |items|
    decreases items
  {
    if items == [] then []
    else EntryView(items[0]) + EditorView(items[1..])
  }

  function EntryView(item: Item): (r: seq<Item>)
    ensures |r| <= 1
    decreases item
  {
    match item
    case Menu(d, children, shown) => [Menu(d, EditorView(children), shown)]
    case _ => if item.showInTree then [item] else []
  }

  /** An item list every entry of which, at every depth, is shown in the editor. */
  ghost predicate AllShown(items: seq<Item>)
    decreases items
  {
    forall i :: 0 <= i < |items| ==> items[i].showInTree && (items[i].Menu? ==> AllShown(items[i].items))
  }

  lemma {:induction false} EditorViewOfShown(items: seq<Item>)
    requires AllShown(items)
    ensures EditorView(items) == items
    decreases items
  {
    if items != [] {
      if items[0].Menu? {
        EditorViewOfShown(items[0].items);
      }
      EditorViewOfShown(items[1..]);
    }
  }

  lemma {:induction false} EditorViewConcat(a: seq<Item>, b: seq<Item>)
    ensures EditorView(a + b) == EditorView(a) + EditorView(b)
    decreases a
  {
    if a == [] {
      assert a + b == b;
    } else {
      assert (a + b)[0] == a[0] && (a + b)[1..] == a[1..] + b;
      EditorViewConcat(a[1..], b);
    }
  }
}
