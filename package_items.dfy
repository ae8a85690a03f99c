/** The item records of sshmenu_indicator/Items.py: a base `Item` with a kind tag and an optional
    data payload, a `MenuItem` whose list starts out as `None`, and a `HostItem` that reads its three
    parameters by subscript. This module has no `SeparatorItem` and no `to_yaml`. */
module PackageItems {
  import opened Document
  import Items

  datatype PackageItem =
    | BaseItem(display: Value, kind: string, data: Option<Value>)
    | PackageMenu(display: Value, items: Option<seq<PackageItem>>)
    | PackageHost(display: Value, profile: Value, geometry: Value, sshParams: Value, enableBcvi: bool)

  function KindOf(item: PackageItem): string {
    match item
    case BaseItem(_, kind, _) => kind
    case PackageMenu(_, _) => Items.MENU
    case PackageHost(_, _, _, _, _) => Items.HOST
  }

  /** `Item(display)`: the kind defaults to `'item'` and there is no data. */
  function NewItem(display: Value): (r: PackageItem)
    ensures KindOf(r) == Items.ITEM && r.display == display && r.data == None
  {
    BaseItem(display, Items.ITEM, None)
  }

  /** `MenuItem(display)`: its list of children is `None` until someone assigns one. */
  function NewMenu(display: Value): (r: PackageItem)
    ensures r.PackageMenu? && KindOf(r) == Items.MENU && r.display == display && r.items == None
  {
    PackageMenu(display, None)
  }

  /** `HostItem(display, params)`: empty params stand for three empty strings; otherwise
      `profile`, `geometry` and `sshparams` are subscripted in that order. */
  function NewHost(display: Value, params: map<string, Value>): (r: Result<PackageItem>)
    ensures r.Ok? ==> r.value.PackageHost? && KindOf(r.value) == Items.HOST && !r.value.enableBcvi
    ensures params == map[] ==> r == Ok(PackageHost(display, Str(""), Str(""), Str(""), false))
    ensures params != map[] && "profile" !in params ==> r == Err(KeyError("profile"))
    ensures var c := Items.NewHost(display, params, Items.Strict);
      (r.Ok? <==> c.Ok?) &&
      (r.Err? ==> r.error == c.error) &&
      (r.Ok? ==> r.value == PackageHost(c.value.display, c.value.profile, c.value.geometry, c.value.sshParams, c.value.enableBcvi))
  {
    var p := if params == map[] then map["profile" := Str(""), "geometry" := Str(""), "sshparams" := Str("")]
             else params;
    if "profile" !in p then Err(KeyError("profile"))
    else if "geometry" !in p then Err(KeyError("geometry"))
    else if "sshparams" !in p then Err(KeyError("sshparams"))
    else Ok(PackageHost(display, p["profile"], p["geometry"], p["sshparams"], false))
  }
}
