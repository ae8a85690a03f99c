/** The translation between the configuration document and the item forest:
    `Config.parse_items` one way, the items' `to_yaml` and the document built by `Config.save`
    the other way. */
module Codec {
  import opened Document
  import opened Items

  /** Which copy of the parser runs: SSHMenu.py; the sshmenu_indicator package (Config.py and
      App.py), whose host constructor subscripts all three parameters; or the prototype
      sshmenu_indicator/app.py, which in addition labels its separators `'sep'`. */
  datatype Dialect = Canonical | Package | Prototype

  function RuleOf(d: Dialect): HostRule {
    if d == Canonical then Lenient else Strict
  }

  /** The item a `type: separator` entry becomes. */
  function SeparatorOf(d: Dialect): (r: Item)
    ensures r.Separator? && r.showInTree
  {
    if d == Prototype then Separator(Str("sep"), true) else NewSeparator()
  }

  /** The host parameters of an entry: every key but `title` and `type`. */
  function HostParams(entry: map<string, Value>): (p: map<string, Value>)
    ensures p.Keys == entry.Keys - {"title", "type"}
    ensures forall k :: k in p ==> p[k] == entry[k]
  {
    map k | k in entry && k != "title" && k != "type" :: entry[k]
  }

  /** One entry of an `items` list. The entry must be a mapping with a `type`; `separator` and
      `menu` select those kinds (a menu needs `title` and `items`), any other type is a host. */
  function ParseItem(entry: Value, d: Dialect): (r: Result<Item>)
    ensures r.Ok? ==> entry.Map? && "type" in entry.m && !r.value.Plain? && r.value.showInTree
    ensures r.Ok? ==> (r.value.Separator? <==> entry.m["type"] == Str(SEPARATOR))
    ensures r.Ok? ==> (r.value.Menu? <==> entry.m["type"] == Str(MENU))
    ensures r.Ok? && r.value.Host? ==> !r.value.enableBcvi
    ensures !entry.Map? ==> r == Err(TypeError)
    ensures entry.Map? && "type" !in entry.m ==> r == Err(KeyError("type"))
    ensures entry.Map? && "type" in entry.m && entry.m["type"] == Str(MENU) ==>
      ("title" !in entry.m ==> r == Err(KeyError("title"))) &&
      ("title" in entry.m && "items" !in entry.m ==> r == Err(KeyError("items"))) &&
      ("title" in entry.m && "items" in entry.m ==>
         var children := ParseChildren(entry.m["items"], d);
         (r.Ok? <==> children.Ok?) &&
         (r.Ok? ==> r.value == Menu(entry.m["title"], children.value, true)) &&
         (r.Err? ==> r.error == children.error))
    ensures entry.Map? && "type" in entry.m && entry.m["type"] != Str(MENU) && entry.m["type"] != Str(SEPARATOR) ==>
      ("title" !in entry.m ==> r == Err(KeyError("title"))) &&
      ("title" in entry.m ==> r == NewHost(entry.m["title"], HostParams(entry.m), RuleOf(d)))
    decreases entry
  {
    match entry
    case Map(m) =>
      if "type" !in m then Err(KeyError("type"))
      else if m["type"] == Str(SEPARATOR) then Ok(SeparatorOf(d))
      else if m["type"] == Str(MENU) then
        if "title" !in m then Err(KeyError("title"))
        else if "items" !in m then Err(KeyError("items"))
        else (match ParseChildren(m["items"], d)
          case Err(e) => Err(e)
          case Ok(children) => Ok(Menu(m["title"], children, true)))
      else
        var params := HostParams(m);
        if "title" !in m then Err(KeyError("title"))
        else NewHost(m["title"], params, RuleOf(d))
    case _ => Err(TypeError)
  }

  /** `parse_items(item['items'])` for whatever value a menu's `items` holds: a list is parsed
      entry by entry; an empty mapping or string yields no children; the elements of a non-empty
      mapping or string are strings, which raise `TypeError` when subscripted with `'type'`; any
      other value is not iterable. */
  function ParseChildren(v: Value, d: Dialect): (r: Result<seq<Item>>)
    ensures v.List? ==> r == ParseItems(v.xs, d)
    ensures r.Ok? ==> v.List? || v == Map(map[]) || v == Str("")
    decreases v
  {
    match v
    case List(xs) => ParseItems(xs, d)
    case Map(m) => if m == map[] then Ok([]) else Err(TypeError)
    case Str(s) => if s == "" then Ok([]) else Err(TypeError)
    case _ => Err(TypeError)
  }

  /** `parse_items(items)`: every entry, in order, becomes exactly one item; the first entry that
      fails decides the error. */
  function ParseItems(entries: seq<Value>, d: Dialect): (r: Result<seq<Item>>)
    ensures r.Ok? ==> |r.value| == |entries|
    ensures r.Ok? ==> forall i :: 0 <= i < |entries| ==> ParseItem(entries[i], d) == Ok(r.value[i])
    ensures r.Err? ==> exists i :: 0 <= i < |entries| && ParseItem(entries[i], d) == Err(r.error) &&
                                   forall j :: 0 <= j < i ==> ParseItem(entries[j], d).Ok?
    decreases entries
  {
    if entries == [] then Ok([])
    else match ParseItem(entries[0], d)
      case Err(e) => Err(e)
      case Ok(first) =>
        match ParseItems(entries[1..], d)
        case Err(e) => Err(e)
        case Ok(rest) => Ok([first] + rest)
  }

  // ---- Writing back ----

  /** An item has a `to_yaml` exactly when it is a host, a menu or a separator; a bare `Item`
      (the injected "Open all" entries) has none. */
  predicate PersistableItem(item: Item)
    decreases item
  {
    match item
    case Plain(_, _) => false
    case Menu(_, children, _) => Persistable(children)
    case _ => true
  }

  predicate Persistable(items: seq<Item>)
    decreases items
  {
    forall i :: 0 <= i < |items| ==> PersistableItem(items[i])
  }

  /** `item.to_yaml()`. A host is always written with type `host`, whatever type it was read
      with; `enable_bcvi` and `show_in_tree` are not written. */
  function ToYaml(item: Item): (r: Result<Value>)
    ensures r.Ok? <==> PersistableItem(item)
    ensures r.Err? ==> r.error == AttributeError("to_yaml")
    ensures r.Ok? ==> r.value.Map? && "type" in r.value.m && r.value.m["type"] == Str(Kind(item))
    decreases item
  {
    match item
    case Host(display, profile, geometry, sshParams, _, _) =>
      Ok(Map(map["profile" := profile, "sshparams" := sshParams, "type" := Str(HOST),
                 "geometry" := geometry, "title" := display]))
    case Menu(display, children, _) =>
      (match ItemsToYaml(children)
       case Err(e) => Err(e)
       case Ok(ys) => Ok(Map(map["type" := Str(MENU), "title" := display, "items" := List(ys)])))
    case Separator(_, _) => Ok(Map(map["type" := Str(SEPARATOR)]))
    case Plain(_, _) => Err(AttributeError("to_yaml"))
  }

  /** `[item.to_yaml() for item in items]`. */
  function ItemsToYaml(items: seq<Item>): (r: Result<seq<Value>>)
    ensures r.Ok? <==> Persistable(items)
    ensures r.Err? ==> r.error == AttributeError("to_yaml")
    ensures r.Ok? ==> |r.value| == |items| &&
                      forall i :: 0 <= i < |items| ==> ToYaml(items[i]) == Ok(r.value[i])
    decreases items
  {
    if items == [] then Ok([])
    else match ToYaml(items[0])
      case Err(e) => Err(e)
      case Ok(y) =>
        match ItemsToYaml(items[1..])
        case Err(e) => Err(e)
        case Ok(ys) => Ok([y] + ys)
  }

  /** The document `Config.save` dumps: `{classes: {}, items: [...], global: globals}`. */
  function EncodeDocument(items: seq<Item>, globals: Value): (r: Result<Value>)
    ensures r.Ok? <==> Persistable(items)
    ensures r.Ok? ==> r.value.Map? && r.value.m.Keys == {"classes", "items", "global"} &&
                      r.value.m["classes"] == Map(map[]) && r.value.m["global"] == globals &&
                      r.value.m["items"] == List(ItemsToYaml(items).value)
  {
    match ItemsToYaml(items)
    case Err(e) => Err(e)
    case Ok(ys) => Ok(Map(map["classes" := Map(map[]), "items" := List(ys), "global" := globals]))
  }

  // ---- The round trip ----

  /** What survives a write and a re-read: the kind, title, profile, geometry, ssh parameters,
      nesting and order; `enable_bcvi` comes back false, every item comes back shown, and a
      separator comes back with the label the reading copy gives separators. */
  function NormalizedItem(item: Item, d: Dialect): Item
    decreases item
  {
    match item
    case Host(display, profile, geometry, sshParams, _, _) => Host(display, profile, geometry, sshParams, false, true)
    case Menu(display, children, _) => Menu(display, Normalized(children, d), true)
    case Separator(_, _) => SeparatorOf(d)
    case Plain(display, _) => Plain(display, true)
  }

  function Normalized(items: seq<Item>, d: Dialect): (r: seq<Item>)
    ensures |r| == |items|
    decreases items
  {
    if items == [] then [] else [NormalizedItem(items[0], d)] + Normalized(items[1..], d)
  }

  lemma {:induction false} ItemRoundTrip(item: Item, d: Dialect)
    requires PersistableItem(item)
    ensures ToYaml(item).Ok? && ParseItem(ToYaml(item).value, d) == Ok(NormalizedItem(item, d))
    decreases item
  {
    match item
    case Host(display, profile, geometry, sshParams, _, _) =>
      HostRoundTrip(display, profile, geometry, sshParams, d);
    case Menu(display, children, _) =>
      ItemsRoundTrip(children, d);
      MenuRoundTrip(display, children, d);
    case Separator(_, _) =>
    case Plain(_, _) =>
  }

  lemma HostRoundTrip(display: Value, profile: Value, geometry: Value, sshParams: Value, d: Dialect)
    ensures var m := map["profile" := profile, "sshparams" := sshParams, "type" := Str(HOST),
                         "geometry" := geometry, "title" := display];
      ParseItem(Map(m), d) == Ok(Host(display, profile, geometry, sshParams, false, true))
  {
    var m := map["profile" := profile, "sshparams" := sshParams, "type" := Str(HOST),
                 "geometry" := geometry, "title" := display];
    assert m["type"] != Str(SEPARATOR) && m["type"] != Str(MENU);
    assert HostParams(m) == map["profile" := profile, "sshparams" := sshParams, "geometry" := geometry];
  }

  lemma MenuRoundTrip(display: Value, children: seq<Item>, d: Dialect)
    requires ItemsToYaml(children).Ok?
    ensures var m := map["type" := Str(MENU), "title" := display, "items" := List(ItemsToYaml(children).value)];
      ParseItem(Map(m), d) == match ParseItems(ItemsToYaml(children).value, d)
                              case Err(e) => Err(e)
                              case Ok(xs) => Ok(Menu(display, xs, true))
  {
    var m := map["type" := Str(MENU), "title" := display, "items" := List(ItemsToYaml(children).value)];
    assert m["type"] != Str(SEPARATOR) && m["type"] == Str(MENU);
  }

  /** Writing a forest with `to_yaml` and parsing it back gives the forest again, up to what
      the document does not record (see `NormalizedItem`). */
  lemma {:induction false} ItemsRoundTrip(items: seq<Item>, d: Dialect)
    requires Persistable(items)
    ensures ItemsToYaml(items).Ok? && ParseItems(ItemsToYaml(items).value, d) == Ok(Normalized(items, d))
    decreases items
  {
    if items != [] {
      ItemRoundTrip(items[0], d);
      ItemsRoundTrip(items[1..], d);
      var ys := ItemsToYaml(items).value;
      assert ys == [ToYaml(items[0]).value] + ItemsToYaml(items[1..]).value;
      assert ys[1..] == ItemsToYaml(items[1..]).value;
    }
  }

  /** The same law at the level of the whole document `save` writes. */
  lemma DocumentRoundTrip(items: seq<Item>, globals: Value, d: Dialect)
    requires Persistable(items)
    ensures EncodeDocument(items, globals).Ok?
    ensures var doc := EncodeDocument(items, globals).value.m;
      ParseChildren(doc["items"], d) == Ok(Normalized(items, d)) && doc["global"] == globals
  {
    ItemsRoundTrip(items, d);
  }

  // ---- Parsed forests are fixed points of the round trip ----

  lemma {:induction false} ParsedItemIsNormal(entry: Value, d: Dialect)
    requires ParseItem(entry, d).Ok?
    ensures var x := ParseItem(entry, d).value; PersistableItem(x) && NormalizedItem(x, d) == x
    decreases entry
  {
    var m := entry.m;
    if m["type"] == Str(MENU) {
      ParsedChildrenAreNormal(m["items"], d);
    }
  }

  lemma {:induction false} ParsedChildrenAreNormal(v: Value, d: Dialect)
    requires ParseChildren(v, d).Ok?
    ensures var xs := ParseChildren(v, d).value; Persistable(xs) && Normalized(xs, d) == xs
    decreases v
  {
    if v.List? {
      ParsedItemsAreNormal(v.xs, d);
    }
  }

  lemma {:induction false} ParsedItemsAreNormal(entries: seq<Value>, d: Dialect)
    requires ParseItems(entries, d).Ok?
    ensures var xs := ParseItems(entries, d).value; Persistable(xs) && Normalized(xs, d) == xs
    decreases entries
  {
    if entries != [] {
      ParsedItemIsNormal(entries[0], d);
      ParsedItemsAreNormal(entries[1..], d);
      var xs := ParseItems(entries, d).value;
      assert xs == [ParseItem(entries[0], d).value] + ParseItems(entries[1..], d).value;
      assert xs[1..] == ParseItems(entries[1..], d).value;
    }
  }

  /** Saving what was loaded and loading it again gives back the same forest. */
  lemma ParseEncodeParse(entries: seq<Value>, d: Dialect)
    requires ParseItems(entries, d).Ok?
    ensures var f := ParseItems(entries, d).value;
      ItemsToYaml(f).Ok? && ParseItems(ItemsToYaml(f).value, d) == Ok(f)
  {
    var f := ParseItems(entries, d).value;
    ParsedItemsAreNormal(entries, d);
    ItemsRoundTrip(f, d);
  }

  // ---- The copies agree ----

  lemma {:induction false} PackageItemAgrees(entry: Value)
    requires ParseItem(entry, Package).Ok?
    ensures ParseItem(entry, Canonical) == ParseItem(entry, Package)
    decreases entry
  {
    var m := entry.m;
    if m["type"] == Str(MENU) {
      PackageChildrenAgree(m["items"]);
    } else if m["type"] != Str(SEPARATOR) {
      StrictHostAgreesWithLenient(m["title"], HostParams(m));
    }
  }

  lemma {:induction false} PackageChildrenAgree(v: Value)
    requires ParseChildren(v, Package).Ok?
    ensures ParseChildren(v, Canonical) == ParseChildren(v, Package)
    decreases v
  {
    if v.List? {
      PackageItemsAgree(v.xs);
    }
  }

  /** Whatever the package's stricter parser accepts, the canonical parser reads identically. */
  lemma {:induction false} PackageItemsAgree(entries: seq<Value>)
    requires ParseItems(entries, Package).Ok?
    ensures ParseItems(entries, Canonical) == ParseItems(entries, Package)
    decreases entries
  {
    if entries != [] {
      PackageItemAgrees(entries[0]);
      PackageItemsAgree(entries[1..]);
    }
  }
}
