/** Building the indicator's menu from the item forest: `App.initialize_menu`, `App.add_item`
    and `App.add_options_from_preferences`. The GTK widgets are not modelled; a rendered item
    stands for the menu entry built for it, a rendered submenu for the submenu with its entries. */
module Render {
  import opened Document
  import opened Items
  import Config
  import Codec
  import opened Forest

  const OPEN_TABS: string := "menus_open_tabs"
  const OPEN_ALL: string := "menus_open_all"
  const OPEN_TABS_LABEL: string := "Open all as tabs"
  const OPEN_ALL_LABEL: string := "Open all windows"

  /** `get_global(key) == 1`: a boolean compares equal to 1 exactly when it is `True`. */
  predicate Flag(settings: map<string, Value>, key: string)
    ensures Flag(settings, key) <==> key in settings && Truthy(settings[key])
  {
    Config.GlobalFlag(Map(settings), key) == Ok(true)
  }

  /** The entries `add_options_from_preferences` puts in front of a submenu's children, given
      the two settings: "Open all as tabs", then "Open all windows", then a separator when
      either was added; every one of them hidden from the preferences editor. */
  function Options(openTabs: bool, openAll: bool): (r: seq<Item>)
    ensures |r| == (if openTabs then 1 else 0) + (if openAll then 1 else 0) + (if openTabs || openAll then 1 else 0)
    ensures forall i :: 0 <= i < |r| ==> !r[i].showInTree && !r[i].Menu?
    ensures openTabs ==> r[0] == Plain(Str(OPEN_TABS_LABEL), false)
    ensures openAll ==> r[if openTabs then 1 else 0] == Plain(Str(OPEN_ALL_LABEL), false)
    ensures r != [] ==> r[|r| - 1] == Separator(Str(SEPARATOR_LABEL), false)
  {
    var added := (if openTabs then [Plain(Str(OPEN_TABS_LABEL), false)] else []) +
                 (if openAll then [Plain(Str(OPEN_ALL_LABEL), false)] else []);
    if added == [] then [] else added + [Separator(Str(SEPARATOR_LABEL), false)]
  }

  /** A list whose entries are all hidden, non-menu items shows nothing in the editor. */
  lemma {:induction false} HiddenView(xs: seq<Item>)
    requires forall i :: 0 <= i < |xs| ==> !xs[i].showInTree && !xs[i].Menu?
    ensures EditorView(xs) == []
    decreases xs
  {
    if xs != [] {
      HiddenView(xs[1..]);
    }
  }

  /** `add_options_from_preferences(menu_item)`: the submenu with the enabled options put in
      front of its children, which follow unchanged. */
  function AddOptionsFromPreferences(settings: map<string, Value>, menu: Item): (r: Item)
    requires menu.Menu?
    ensures r.Menu? && r.display == menu.display && r.showInTree == menu.showInTree
    ensures |r.items| >= |menu.items| && r.items[|r.items| - |menu.items|..] == menu.items
    ensures r.items[..|r.items| - |menu.items|] == Options(Flag(settings, OPEN_TABS), Flag(settings, OPEN_ALL))
    ensures EditorView(r.items) == EditorView(menu.items)
    ensures !Flag(settings, OPEN_TABS) && !Flag(settings, OPEN_ALL) ==> r == menu
  {
    var opts := Options(Flag(settings, OPEN_TABS), Flag(settings, OPEN_ALL));
    HiddenInFront(opts, menu.items);
    Menu(menu.display, opts + menu.items, menu.showInTree)
  }

  /** Hidden entries put in front of a list leave the list recoverable and its view unchanged. */
  lemma HiddenInFront(opts: seq<Item>, items: seq<Item>)
    requires forall i :: 0 <= i < |opts| ==> !opts[i].showInTree && !opts[i].Menu?
    ensures (opts + items)[|opts|..] == items && (opts + items)[..|opts|] == opts
    ensures EditorView(opts + items) == EditorView(items)
  {
    HiddenView(opts);
    EditorViewConcat(opts, items);
    assert (opts + items)[|opts|..] == items;
  }

  /** The options a submenu receives while rendered: SSHMenu.py adds them only to a submenu with
      children; sshmenu_indicator/App.py (`injectEmpty`) adds them to every submenu. */
  function OptionsFor(settings: map<string, Value>, injectEmpty: bool, children: seq<Item>): (r: seq<Item>)
    ensures !injectEmpty && children == [] ==> r == []
    ensures forall i :: 0 <= i < |r| ==> !r[i].showInTree && !r[i].Menu?
  {
    if injectEmpty || |children| > 0 then Options(Flag(settings, OPEN_TABS), Flag(settings, OPEN_ALL)) else []
  }

  /** An item after `add_item`: each submenu, at every depth, has its options in front of its
      children; other items are as they were. */
  function Rendered(item: Item, settings: map<string, Value>, injectEmpty: bool): (r: Item)
    ensures !item.Menu? ==> r == item
    ensures r.Menu? == item.Menu? && r.display == item.display && r.showInTree == item.showInTree
    decreases item
  {
    match item
    case Menu(d, children, s) =>
      Menu(d, OptionsFor(settings, injectEmpty, children) + RenderedList(children, settings, injectEmpty), s)
    case _ => item
  }

  /** `add_item` for each entry of a list, in order. */
  function RenderedList(items: seq<Item>, settings: map<string, Value>, injectEmpty: bool): (r: seq<Item>)
    ensures |r| == |items|
    ensures forall i :: 0 <= i < |items| ==> r[i] == Rendered(items[i], settings, injectEmpty)
    decreases items
  {
    if items == [] then [] else [Rendered(items[0], settings, injectEmpty)] + RenderedList(items[1..], settings, injectEmpty)
  }

  lemma {:induction false} RenderedListSnoc(items: seq<Item>, x: Item, settings: map<string, Value>, injectEmpty: bool)
    ensures RenderedList(items + [x], settings, injectEmpty) ==
            RenderedList(items, settings, injectEmpty) + [Rendered(x, settings, injectEmpty)]
    decreases items
  {
    if items == [] {
      assert items + [x] == [x];
    } else {
      assert (items + [x])[0] == items[0] && (items + [x])[1..] == items[1..] + [x];
      RenderedListSnoc(items[1..], x, settings, injectEmpty);
    }
  }

  /** Rendering leaves entries that are not submenus as they are. */
  lemma {:induction false} RenderedListOfLeaves(opts: seq<Item>, items: seq<Item>, settings: map<string, Value>, injectEmpty: bool)
    requires forall i :: 0 <= i < |opts| ==> !opts[i].Menu?
    ensures RenderedList(opts + items, settings, injectEmpty) == opts + RenderedList(items, settings, injectEmpty)
    decreases opts
  {
    if opts == [] {
      assert opts + items == items;
    } else {
      assert (opts + items)[0] == opts[0] && (opts + items)[1..] == opts[1..] + items;
      RenderedListOfLeaves(opts[1..], items, settings, injectEmpty);
    }
  }

  /** The submenus `add_item` records in `self.menus` while rendering an item: each submenu
      after everything below it. */
  function MenusOf(item: Item, settings: map<string, Value>, injectEmpty: bool): (r: seq<Item>)
    ensures forall i :: 0 <= i < |r| ==> r[i].Menu?
    ensures item.Menu? ==> r != [] && r[|r| - 1] == Rendered(item, settings, injectEmpty)
    ensures !item.Menu? ==> r == []
    decreases item
  {
    match item
    case Menu(_, children, _) => MenusOfList(children, settings, injectEmpty) + [Rendered(item, settings, injectEmpty)]
    case _ => []
  }

  function MenusOfList(items: seq<Item>, settings: map<string, Value>, injectEmpty: bool): (r: seq<Item>)
    ensures forall i :: 0 <= i < |r| ==> r[i].Menu?
    decreases items
  {
    if items == [] then [] else MenusOf(items[0], settings, injectEmpty) + MenusOfList(items[1..], settings, injectEmpty)
  }

  lemma {:induction false} MenusOfListSnoc(items: seq<Item>, x: Item, settings: map<string, Value>, injectEmpty: bool)
    ensures MenusOfList(items + [x], settings, injectEmpty) ==
            MenusOfList(items, settings, injectEmpty) + MenusOf(x, settings, injectEmpty)
    decreases items
  {
    if items == [] {
      assert items + [x] == [x];
    } else {
      assert (items + [x])[1..] == items[1..] + [x];
      MenusOfListSnoc(items[1..], x, settings, injectEmpty);
    }
  }

  /** One round of the loop over `items`: the item's rendering and its submenus follow those
      of the items before it. */
  lemma RenderStep(items: seq<Item>, i: nat, settings: map<string, Value>, injectEmpty: bool)
    requires i < |items|
    ensures RenderedList(items[..i + 1], settings, injectEmpty) ==
            RenderedList(items[..i], settings, injectEmpty) + [Rendered(items[i], settings, injectEmpty)]
    ensures MenusOfList(items[..i + 1], settings, injectEmpty) ==
            MenusOfList(items[..i], settings, injectEmpty) + MenusOf(items[i], settings, injectEmpty)
  {
    assert items[..i + 1] == items[..i] + [items[i]];
    MenusOfListSnoc(items[..i], items[i], settings, injectEmpty);
    RenderedListSnoc(items[..i], items[i], settings, injectEmpty);
  }

  lemma {:induction false} MenusOfHidden(opts: seq<Item>, items: seq<Item>, settings: map<string, Value>, injectEmpty: bool)
    requires forall i :: 0 <= i < |opts| ==> !opts[i].Menu?
    ensures MenusOfList(opts + items, settings, injectEmpty) == MenusOfList(items, settings, injectEmpty)
    decreases opts
  {
    if opts == [] {
      assert opts + items == items;
    } else {
      assert (opts + items)[0] == opts[0] && (opts + items)[1..] == opts[1..] + items;
      MenusOfHidden(opts[1..], items, settings, injectEmpty);
    }
  }

  /** Rendering never changes what the preferences editor shows: the injected entries are all
      hidden from it. */
  lemma {:induction false} RenderedView(item: Item, settings: map<string, Value>, injectEmpty: bool)
    ensures EntryView(Rendered(item, settings, injectEmpty)) == EntryView(item)
    decreases item
  {
    match item
    case Menu(d, children, s) =>
      var opts := OptionsFor(settings, injectEmpty, children);
      var rest := RenderedList(children, settings, injectEmpty);
      HiddenView(opts);
      EditorViewConcat(opts, rest);
      RenderedListView(children, settings, injectEmpty);
      assert Rendered(item, settings, injectEmpty) == Menu(d, opts + rest, s);
      assert EditorView(opts + rest) == [] + EditorView(rest) == EditorView(children);
    case _ =>
  }

  lemma {:induction false} RenderedListView(items: seq<Item>, settings: map<string, Value>, injectEmpty: bool)
    ensures EditorView(RenderedList(items, settings, injectEmpty)) == EditorView(items)
    decreases items
  {
    if items != [] {
      RenderedView(items[0], settings, injectEmpty);
      RenderedListView(items[1..], settings, injectEmpty);
    }
  }

  /** A forest read from the configuration file is shown in full by the editor, so the editor
      built from the rendered menu shows exactly the configured items. */
  lemma RenderedParsedForest(items: seq<Item>, settings: map<string, Value>, injectEmpty: bool)
    requires AllShown(items)
    ensures EditorView(RenderedList(items, settings, injectEmpty)) == items
  {
    RenderedListView(items, settings, injectEmpty);
    EditorViewOfShown(items);
  }

  /** The fixed entries `initialize_menu` appends after the configured items. */
  function Trailer(): (r: seq<Item>)
    ensures |r| == 4 && r[0].Separator? && forall i :: 1 <= i < 4 ==> r[i].Plain?
  {
    [NewSeparator(), Plain(Str("Add SSH Key"), true), Plain(Str("Remove SSH Key"), true), Plain(Str("Preferences"), true)]
  }

  /** The indicator application of SSHMenu.py (`injectEmpty` false) or of
      sshmenu_indicator/App.py (`injectEmpty` true), reduced to what rendering reads and records. */
  class App {
    const settings: map<string, Value>
    const injectEmpty: bool
    var menus: seq<Item>

    constructor(settings: map<string, Value>, injectEmpty: bool)
      ensures this.settings == settings && this.injectEmpty == injectEmpty && menus == []
    {
      this.settings := settings;
      this.injectEmpty := injectEmpty;
      menus := [];
    }

    /** `add_item(menu, menu_item)`: returns the entry as rendered and records every submenu.
        Rendering an entry that is not a submenu records nothing, so the options put in front
        of a submenu's children are taken as they are. */
    method AddItem(item: Item) returns (shown: Item)
      modifies this
      ensures shown == Rendered(item, settings, injectEmpty)
      ensures menus == old(menus) + MenusOf(item, settings, injectEmpty)
      decreases item
    {
      if !item.Menu? {
        return item;
      }
      var opts := OptionsFor(settings, injectEmpty, item.items);
      var shownKids := AddItems(item.items);
      shown := Menu(item.display, opts + shownKids, item.showInTree);
      menus := menus + [shown];
    }

    /** `for item in items: self.add_item(menu, item)`. */
    method AddItems(items: seq<Item>) returns (shown: seq<Item>)
      modifies this
      ensures shown == RenderedList(items, settings, injectEmpty)
      ensures menus == old(menus) + MenusOfList(items, settings, injectEmpty)
      decreases items
    {
      shown := [];
      var i := 0;
      while i < |items|
        invariant 0 <= i <= |items|
        invariant shown == RenderedList(items[..i], settings, injectEmpty)
        invariant menus == old(menus) + MenusOfList(items[..i], settings, injectEmpty)
      {
        RenderStep(items, i, settings, injectEmpty);
        var child := AddItem(items[i]);
        Associative(old(menus), MenusOfList(items[..i], settings, injectEmpty), MenusOf(items[i], settings, injectEmpty));
        shown := shown + [child];
        i := i + 1;
      }
      assert items[..i] == items;
    }

    /** `initialize_menu()`: renders the configured items in order, then the fixed trailer;
        `self.menus` is reset first, so it ends holding exactly the submenus of this rendering. */
    method InitializeMenu(items: seq<Item>) returns (top: seq<Item>)
      modifies this
      ensures top == RenderedList(items, settings, injectEmpty) + Trailer()
      ensures menus == MenusOfList(items, settings, injectEmpty)
    {
      menus := [];
      top := AddItems(items);
      var tail := AddItems(Trailer());
      RenderedListOfLeaves(Trailer(), [], settings, injectEmpty);
      MenusOfHidden(Trailer(), [], settings, injectEmpty);
      assert Trailer() + [] == Trailer();
      top := top + tail;
    }
  }

  // ---- The prototype, sshmenu_indicator/app.py ----

  /** `self.prefs['global'][key] == 1` on the raw loaded document: a missing key raises. */
  function PrototypeFlag(prefs: Value, key: string): (r: Result<bool>)
    ensures r.Ok? ==> prefs.Map? && "global" in prefs.m && prefs.m["global"].Map? && key in prefs.m["global"].m &&
                      (r.value <==> EqualsBool(prefs.m["global"].m[key], true))
    ensures prefs.Map? && "global" in prefs.m && prefs.m["global"].Map? && key !in prefs.m["global"].m ==>
              r == Err(KeyError(key))
    ensures prefs.Map? && "global" !in prefs.m ==> r == Err(KeyError("global"))
  {
    if !prefs.Map? then Err(TypeError)
    else if "global" !in prefs.m then Err(KeyError("global"))
    else
      var g := prefs.m["global"];
      if !g.Map? then Err(TypeError)
      else if key !in g.m then Err(KeyError(key))
      else Ok(EqualsBool(g.m[key], true))
  }

  /** What a rendering step appends to the prototype's flat `menu_items`, and the exception
      that stopped it, if any. */
  datatype Trace = Trace(appended: seq<Item>, error: Option<Error>)

  /** The prototype's `add_options_from_preferences(menu)`: the entries it adds, through
      `add_item`, in order; the separator is `Item('sep', kind=SEPARATOR)`. */
  function PrototypeOptions(prefs: Value): (r: Trace)
    ensures r.error.None? ==> PrototypeFlag(prefs, OPEN_TABS).Ok? && PrototypeFlag(prefs, OPEN_ALL).Ok?
    ensures r.error.None? && PrototypeFlag(prefs, OPEN_TABS).Ok? && PrototypeFlag(prefs, OPEN_ALL).Ok? ==>
      var t := PrototypeFlag(prefs, OPEN_TABS).value; var a := PrototypeFlag(prefs, OPEN_ALL).value;
      |r.appended| == (if t then 1 else 0) + (if a then 1 else 0) + (if t || a then 1 else 0)
    ensures PrototypeFlag(prefs, OPEN_TABS).Err? ==> r == Trace([], Some(PrototypeFlag(prefs, OPEN_TABS).error))
    ensures forall i :: 0 <= i < |r.appended| ==> !r.appended[i].Menu?
  {
    var t := PrototypeFlag(prefs, OPEN_TABS);
    if t.Err? then Trace([], Some(t.error))
    else
      var first := if t.value then [Plain(Str(OPEN_TABS_LABEL), true)] else [];
      var a := PrototypeFlag(prefs, OPEN_ALL);
      if a.Err? then Trace(first, Some(a.error))
      else
        var added := first + (if a.value then [Plain(Str(OPEN_ALL_LABEL), true)] else []);
        Trace(if added == [] then [] else added + [Separator(Str("sep"), true)], None)
  }

  /** The prototype's `add_item(menu, item)`: a submenu's options, then its children, then the
      submenu itself are appended; any other item is appended alone. */
  function PrototypeItem(prefs: Value, item: Item): (r: Trace)
    ensures r.error.None? && item.Menu? ==> r.appended != [] && r.appended[|r.appended| - 1] == item
    ensures !item.Menu? ==> r == Trace([item], None)
    decreases item
  {
    match item
    case Menu(_, children, _) =>
      var o := PrototypeOptions(prefs);
      if o.error.Some? then o
      else
        var c := PrototypeList(prefs, children);
        if c.error.Some? then Trace(o.appended + c.appended, c.error)
        else Trace(o.appended + c.appended + [item], None)
    case _ => Trace([item], None)
  }

  function PrototypeList(prefs: Value, items: seq<Item>): (r: Trace)
    decreases items
  {
    if items == [] then Trace([], None)
    else
      var h := PrototypeItem(prefs, items[0]);
      if h.error.Some? then h
      else
        var t := PrototypeList(prefs, items[1..]);
        Trace(h.appended + t.appended, t.error)
  }

  /** Every item of a forest with each submenu after its children. */
  function PostOrder(items: seq<Item>): (r: seq<Item>)
    ensures |items| <= |r|
    decreases items
  {
    if items == [] then []
    else (if items[0].Menu? then PostOrder(items[0].items) + [items[0]] else [items[0]]) + PostOrder(items[1..])
  }

  /** With both options switched off, the prototype records exactly the items of the forest,
      each submenu after its children. */
  lemma {:induction false} PrototypeRecordsPostOrder(prefs: Value, items: seq<Item>)
    requires PrototypeFlag(prefs, OPEN_TABS) == Ok(false) && PrototypeFlag(prefs, OPEN_ALL) == Ok(false)
    ensures PrototypeList(prefs, items) == Trace(PostOrder(items), None)
    decreases items
  {
    if items != [] {
      if items[0].Menu? {
        PrototypeRecordsPostOrder(prefs, items[0].items);
      }
      PrototypeRecordsPostOrder(prefs, items[1..]);
    }
  }

  /** The prototype's trailer: its separator is an `Item` labelled "Seperator". */
  function PrototypeTrailer(): (r: seq<Item>)
    ensures |r| == 4 && r[0] == Separator(Str("Seperator"), true)
  {
    [Separator(Str("Seperator"), true), Plain(Str("Add SSH Key"), true), Plain(Str("Remove SSH Key"), true), Plain(Str("Preferences"), true)]
  }

  /** The prototype's `App`, reduced to the loaded document and the flat item list. */
  class PrototypeApp {
    const prefs: Value
    var menuItems: seq<Item>

    constructor(prefs: Value)
      ensures this.prefs == prefs && menuItems == []
    {
      this.prefs := prefs;
      menuItems := [];
    }

    /** `add_item(menu, menu_item)`; an exception it raises is returned, with what was appended
        before it. */
    method AddItem(item: Item) returns (err: Option<Error>)
      modifies this
      ensures var t := PrototypeItem(prefs, item); menuItems == old(menuItems) + t.appended && err == t.error
      decreases item
    {
      if !item.Menu? {
        menuItems := menuItems + [item];
        return None;
      }
      err := AddOptionsFromPreferences();
      if err.Some? {
        return;
      }
      err := AddItems(item.items);
      if err.Some? {
        return;
      }
      menuItems := menuItems + [item];
    }

    /** `for item in items: self.add_item(menu, item)`, stopped by the first exception. */
    method AddItems(items: seq<Item>) returns (err: Option<Error>)
      modifies this
      ensures var t := PrototypeList(prefs, items); menuItems == old(menuItems) + t.appended && err == t.error
      decreases items
    {
      var i := 0;
      while i < |items|
        invariant 0 <= i <= |items|
        invariant PrototypeList(prefs, items[..i]).error.None?
        invariant menuItems == old(menuItems) + PrototypeList(prefs, items[..i]).appended
      {
        ghost var a := PrototypeList(prefs, items[..i]).appended;
        ghost var b := PrototypeItem(prefs, items[i]);
        PrototypeStep(prefs, items, i);
        err := AddItem(items[i]);
        Associative(old(menuItems), a, b.appended);
        if err.Some? {
          return;
        }
        i := i + 1;
      }
      assert items[..i] == items;
      err := None;
    }

    /** The prototype's `add_options_from_preferences(menu)`. */
    method AddOptionsFromPreferences() returns (err: Option<Error>)
      modifies this
      ensures var t := PrototypeOptions(prefs); menuItems == old(menuItems) + t.appended && err == t.error
    {
      var added := false;
      var t := PrototypeFlag(prefs, OPEN_TABS);
      if t.Err? {
        return Some(t.error);
      }
      if t.value {
        menuItems := menuItems + [Plain(Str(OPEN_TABS_LABEL), true)];
        added := true;
      }
      var a := PrototypeFlag(prefs, OPEN_ALL);
      if a.Err? {
        return Some(a.error);
      }
      if a.value {
        menuItems := menuItems + [Plain(Str(OPEN_ALL_LABEL), true)];
        added := true;
      }
      if added {
        menuItems := menuItems + [Separator(Str("sep"), true)];
      }
      err := None;
    }

    /** `initialize_menu()`: parse `prefs['items']`, render each item, then the trailer. */
    method InitializeMenu() returns (err: Option<Error>)
      modifies this
      ensures var parsed := if !prefs.Map? then Err(TypeError)
                            else if "items" !in prefs.m then Err(KeyError("items"))
                            else Codec.ParseChildren(prefs.m["items"], Codec.Prototype);
        (parsed.Err? ==> err == Some(parsed.error) && menuItems == old(menuItems)) &&
        (parsed.Ok? ==> var t := PrototypeList(prefs, parsed.value);
           (t.error.Some? ==> err == t.error && menuItems == old(menuItems) + t.appended) &&
           (t.error.None? ==> err == None && menuItems == old(menuItems) + t.appended + PrototypeTrailer()))
    {
      if !prefs.Map? {
        return Some(TypeError);
      }
      if "items" !in prefs.m {
        return Some(KeyError("items"));
      }
      var parsed := Codec.ParseChildren(prefs.m["items"], Codec.Prototype);
      if parsed.Err? {
        return Some(parsed.error);
      }
      err := AddItems(parsed.value);
      if err.Some? {
        return;
      }
      var trailer := PrototypeTrailer();
      var j := 0;
      while j < |trailer|
        invariant 0 <= j <= |trailer|
        invariant menuItems == old(menuItems) + PrototypeList(prefs, parsed.value).appended + trailer[..j]
      {
        var _ := AddItem(trailer[j]);
        assert trailer[..j + 1] == trailer[..j] + [trailer[j]];
        j := j + 1;
      }
      assert trailer[..j] == trailer;
      err := None;
    }
  }

  lemma {:induction false} PrototypeListSnoc(prefs: Value, items: seq<Item>, x: Item)
    requires PrototypeList(prefs, items).error.None?
    ensures var a := PrototypeList(prefs, items); var b := PrototypeItem(prefs, x);
      PrototypeList(prefs, items + [x]) == Trace(a.appended + b.appended, b.error)
    decreases items
  {
    if items == [] {
      assert items + [x] == [x];
    } else {
      assert (items + [x])[0] == items[0] && (items + [x])[1..] == items[1..] + [x];
      PrototypeListSnoc(prefs, items[1..], x);
      var h := PrototypeItem(prefs, items[0]);
      var t := PrototypeList(prefs, items[1..]);
      assert h.error.None? && t.error.None?;
      assert h.appended + t.appended + PrototypeItem(prefs, x).appended ==
             h.appended + (t.appended + PrototypeItem(prefs, x).appended);
    }
  }

  /** One round of the loop over `items`: the item's trace is appended to what came before,
      and an error in it is the error of the whole list. */
  lemma PrototypeStep(prefs: Value, items: seq<Item>, i: nat)
    requires i < |items| && PrototypeList(prefs, items[..i]).error.None?
    ensures var a := PrototypeList(prefs, items[..i]); var b := PrototypeItem(prefs, items[i]);
      PrototypeList(prefs, items[..i + 1]) == Trace(a.appended + b.appended, b.error) &&
      (b.error.Some? ==> PrototypeList(prefs, items) == Trace(a.appended + b.appended, b.error))
  {
    PrototypeListSnoc(prefs, items[..i], items[i]);
    assert items[..i + 1] == items[..i] + [items[i]];
    if PrototypeItem(prefs, items[i]).error.Some? {
      PrototypeListStops(prefs, items, i + 1);
    }
  }

  lemma {:induction false} PrototypeListStops(prefs: Value, items: seq<Item>, n: int)
    requires 0 <= n <= |items| && PrototypeList(prefs, items[..n]).error.Some?
    ensures PrototypeList(prefs, items) == PrototypeList(prefs, items[..n])
    decreases items
  {
    assert n > 0;
    assert items[..n][0] == items[0] && items[..n][1..] == items[1..][..n - 1];
    if PrototypeItem(prefs, items[0]).error.None? {
      PrototypeListStops(prefs, items[1..], n - 1);
    }
  }
}
