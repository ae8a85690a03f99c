/** The `Config` objects: loading and saving the configuration file, the global settings and
    the title search. The file system is a map from paths to what they hold; YAML text is not
    modelled, only whether the loader accepts a file and the document it yields. */
module Config {
  import opened Document
  import opened Items
  import opened Codec

  /** What a path holds: a document the YAML loader accepts, or text it rejects. */
  datatype Stored = Doc(doc: Value) | Unparsable

  /** The files the configuration code reads, writes and copies. */
  class Disk {
    var files: map<string, Stored>

    constructor(files: map<string, Stored>)
      ensures this.files == files
    {
      this.files := files;
    }
  }

  const BACKUP_SUFFIX: string := ".bak"

  /** How `load_config` ends: the document was read; the file exists but could not be read and
      an error dialog was shown; the file was missing and a new one was written; or an
      exception escaped. */
  datatype LoadOutcome = Loaded | Reported | Created | Raised(error: Error)

  /** `backup`: copy the configuration file to the same path with `.bak` appended, if it exists. */
  method Backup(disk: Disk, path: string)
    modifies disk
    ensures path in old(disk.files) ==> disk.files == old(disk.files)[path + BACKUP_SUFFIX := old(disk.files)[path]]
    ensures path !in old(disk.files) ==> disk.files == old(disk.files)
  {
    if path in disk.files {
      disk.files := disk.files[path + BACKUP_SUFFIX := disk.files[path]];
    }
  }

  /** The files after an optional `backup()`. */
  function AfterBackup(files: map<string, Stored>, path: string, backup: bool): (r: map<string, Stored>)
    ensures path in r <==> path in files
    ensures path in files ==> r[path] == files[path]
    ensures !backup || path !in files ==> r == files
    ensures backup && path in files ==> path + BACKUP_SUFFIX in r && r[path + BACKUP_SUFFIX] == files[path]
  {
    if backup && path in files then files[path + BACKUP_SUFFIX := files[path]] else files
  }

  // ---- Global settings ----

  /** `get_global(attribute)`: `False` for a key that is not there, otherwise `bool(value)`.
      A `global` entry that is not a mapping has no `has_key`. */
  function GlobalFlag(globals: Value, attribute: string): (r: Result<bool>)
    ensures globals.Map? ==> r.Ok? && (r.value <==> attribute in globals.m && Truthy(globals.m[attribute]))
    ensures globals.Map? && attribute !in globals.m ==> r == Ok(false)
    ensures !globals.Map? ==> r == Err(AttributeError("has_key"))
  {
    match globals
    case Map(m) => Ok(if attribute in m then Truthy(m[attribute]) else false)
    case _ => Err(AttributeError("has_key"))
  }

  /** `set_global(attribute, value)`: the `global` value afterwards. Only a value equal to `True`
      or `False` (so also `1` or `0`) is stored, as the integer 1 or 0; any other value, such as
      a window width, leaves the settings as they were. Assigning into a `global` entry that is
      not a mapping raises `TypeError`. */
  function StoreGlobal(globals: Value, attribute: string, value: Value): (r: Result<Value>)
    ensures !(EqualsBool(value, true) || EqualsBool(value, false)) ==> r == Ok(globals)
    ensures (EqualsBool(value, true) || EqualsBool(value, false)) && !globals.Map? ==> r == Err(TypeError)
    ensures forall b: bool :: EqualsBool(value, b) && globals.Map? ==>
      r.Ok? && r.value.Map? &&
      r.value.m.Keys == globals.m.Keys + {attribute} &&
      r.value.m[attribute] == Int(if b then 1 else 0) &&
      GlobalFlag(r.value, attribute) == Ok(b) &&
      (forall k :: k in globals.m && k != attribute ==> r.value.m[k] == globals.m[k])
  {
    if !(EqualsBool(value, true) || EqualsBool(value, false)) then Ok(globals)
    else match globals
      case Map(m) => Ok(Map(m[attribute := Int(BoolToInt(value))]))
      case _ => Err(TypeError)
  }

  /** Setting a flag never changes what any other flag reads as. */
  lemma StoreGlobalKeepsOtherFlags(globals: Value, attribute: string, value: Value, other: string)
    requires StoreGlobal(globals, attribute, value).Ok? && other != attribute
    ensures GlobalFlag(StoreGlobal(globals, attribute, value).value, other) == GlobalFlag(globals, other)
  {
  }

  // ---- The title search ----

  /** Every item of a forest, in tree order (a menu before its children). */
  function Flatten(items: seq<Item>): (r: seq<Item>)
    ensures forall i :: 0 <= i < |items| ==> items[i] in r
    ensures |items| <= |r|
    decreases items
  {
    if items == [] then []
    else [items[0]] + (if items[0].Menu? then Flatten(items[0].items) else []) + Flatten(items[1..])
  }

  lemma {:induction false} FlattenOfMenu(items: seq<Item>, i: int)
    requires 0 <= i < |items| && items[i].Menu?
    ensures forall x :: x in Flatten(items[i].items) ==> x in Flatten(items)
    decreases items
  {
    if i > 0 {
      FlattenOfMenu(items[1..], i - 1);
    }
  }

  lemma {:induction false} FlattenOfPrefix(items: seq<Item>, n: int)
    requires 0 <= n <= |items|
    ensures forall x :: x in Flatten(items[..n]) ==> x in Flatten(items)
    decreases items
  {
    if n > 0 {
      assert items[..n][0] == items[0] && items[..n][1..] == items[1..][..n - 1];
      FlattenOfPrefix(items[1..], n - 1);
    }
  }

  /** What `get_item(title, items)` returns: the entries are scanned in order and each entry that
      matches the title, or is a menu, replaces the answer (a menu with the answer of the search
      of its own children). So the last such entry decides. */
  function GetItemResult(title: Value, items: seq<Item>): (r: Option<Item>)
    ensures r.Some? ==> r.value.display == title && r.value in Flatten(items)
    decreases items
  {
    if items == [] then None
    else
      var last := items[|items| - 1];
      if last.display == title then Some(last)
      else if last.Menu? then
        var r := GetItemResult(title, last.items);
        FlattenOfMenu(items, |items| - 1);
        r
      else
        var r := GetItemResult(title, items[..|items| - 1]);
        FlattenOfPrefix(items, |items| - 1);
        r
  }

  /** `get_item(title, items)`. */
  method GetItem(title: Value, items: seq<Item>) returns (ret: Option<Item>)
    ensures ret == GetItemResult(title, items)
    ensures ret.Some? ==> ret.value.display == title && ret.value in Flatten(items)
    decreases items
  {
    ret := None;
    var i := 0;
    while i < |items|
      invariant 0 <= i <= |items|
      invariant ret == GetItemResult(title, items[..i])
    {
      var item := items[i];
      assert items[..i + 1][..i] == items[..i];
      if item.display == title {
        ret := Some(item);
      } else if item.Menu? {
        ret := GetItem(title, item.items);
      }
      i := i + 1;
    }
    assert items[..i] == items;
  }

  /** A host titled "a" followed by an empty submenu: the submenu is the last deciding entry and
      its empty search replaces the match, so `get_item("a")` finds nothing. */
  lemma GetItemLosesEarlierMatch()
    ensures var host := Host(Str("a"), Str(""), Str(""), Str("a.example"), false, true);
      var items := [host, Menu(Str("m"), [], true)];
      host in Flatten(items) && host.display == Str("a") &&
      GetItemResult(Str("a"), items) == None && FindItem(Str("a"), items) == Some(host)
  {
  }

  /** The search as intended: the first item in tree order whose title matches. */
  function FindItem(title: Value, items: seq<Item>): (r: Option<Item>)
    ensures r.Some? ==> r.value.display == title && r.value in Flatten(items)
    ensures r.None? <==> forall x :: x in Flatten(items) ==> x.display != title
    decreases items
  {
    if items == [] then None
    else if items[0].display == title then Some(items[0])
    else
      var inner := if items[0].Menu? then FindItem(title, items[0].items) else None;
      if inner.Some? then inner else FindItem(title, items[1..])
  }

  // ---- SSHMenu.py's Config ----

  /** The `Config` of SSHMenu.py: `__init__` gives every field a value before loading. */
  class Config {
    var preferences: Value
    var menuItems: seq<Item>
    var globals: Value
    var configFile: string
    /** How the load run by the constructor ended. */
    ghost var loaded: LoadOutcome

    /** `Config(config_file)`: start from an empty configuration, then `load_config()`. A missing
        file is created, holding an empty tree and no settings. An existing document is loaded
        field by field; what fails to load keeps the empty value. */
    constructor(configFile: string, disk: Disk)
      modifies disk
      ensures this.configFile == configFile
      ensures configFile !in old(disk.files) ==>
        disk.files == old(disk.files)[configFile := Doc(EncodeDocument([], Map(map[])).value)] &&
        menuItems == [] && globals == Map(map[]) && loaded == Created
      ensures configFile !in old(disk.files) ==>
        configFile in disk.files && disk.files[configFile].Doc? &&
        ParseChildren(disk.files[configFile].doc.m["items"], Canonical) == Ok([])
      ensures configFile in old(disk.files) ==> disk.files == old(disk.files)
      ensures configFile in old(disk.files) && old(disk.files)[configFile] == Unparsable ==>
        preferences == Map(map[]) && menuItems == [] && globals == Map(map[]) && loaded == Reported
      ensures configFile in old(disk.files) && old(disk.files)[configFile].Doc? ==>
        var v := old(disk.files)[configFile].doc;
        var parsed := if v.Map? && "items" in v.m then ParseChildren(v.m["items"], Canonical) else Err(TypeError);
        preferences == v &&
        menuItems == (if parsed.Ok? then parsed.value else []) &&
        globals == (if parsed.Ok? && "global" in v.m then v.m["global"] else Map(map[])) &&
        (loaded == Loaded <==> parsed.Ok? && "global" in v.m) &&
        (loaded != Loaded ==> loaded == Reported)
    {
      preferences := Map(map[]);
      menuItems := [];
      globals := Map(map[]);
      this.configFile := configFile;
      new;
      var outcome := LoadConfig(disk);
      loaded := outcome;
    }

    /** `get_global(attribute)`. */
    function GetGlobal(attribute: string): (r: Result<bool>)
      reads this
      ensures r == GlobalFlag(globals, attribute)
    {
      GlobalFlag(globals, attribute)
    }

    /** `set_global(attribute, value)`; an exception it raises is returned. */
    method SetGlobal(attribute: string, value: Value) returns (err: Option<Error>)
      modifies this
      ensures var r := StoreGlobal(old(globals), attribute, value);
        (r.Ok? ==> globals == r.value && err == None) &&
        (r.Err? ==> globals == old(globals) && err == Some(r.error))
      ensures preferences == old(preferences) && menuItems == old(menuItems) && configFile == old(configFile)
    {
      var r := StoreGlobal(globals, attribute, value);
      if r.Ok? {
        globals := r.value;
        err := None;
      } else {
        err := Some(r.error);
      }
    }

    /** `save(backup)`: back the file up when asked, then write `{classes, items, global}`. An
        item without `to_yaml` raises after the backup is made and before the file is opened. */
    method Save(disk: Disk, backup: bool) returns (err: Option<Error>)
      modifies disk
      ensures var backed := AfterBackup(old(disk.files), configFile, backup);
        (Persistable(menuItems) ==>
          err == None && disk.files == backed[configFile := Doc(EncodeDocument(menuItems, globals).value)]) &&
        (!Persistable(menuItems) ==>
          err == Some(AttributeError("to_yaml")) && disk.files == backed)
    {
      if backup {
        Backup(disk, configFile);
      }
      var doc := EncodeDocument(menuItems, globals);
      if doc.Err? {
        return Some(doc.error);
      }
      disk.files := disk.files[configFile := Doc(doc.value)];
      err := None;
    }

    /** `load_config()`. The fields are assigned one by one inside the `try`, so a document that
        fails half-way leaves the fields assigned before the failure. On any failure the file is
        created if it does not exist, and an error is reported if it does. */
    method LoadConfig(disk: Disk) returns (outcome: LoadOutcome)
      modifies this, disk
      ensures configFile == old(configFile)
      ensures var path := configFile;
        path !in old(disk.files) ==>
          preferences == old(preferences) && menuItems == old(menuItems) && globals == old(globals) &&
          (Persistable(menuItems) ==>
            outcome == Created && disk.files == old(disk.files)[path := Doc(EncodeDocument(menuItems, globals).value)]) &&
          (!Persistable(menuItems) ==>
            outcome == Raised(AttributeError("to_yaml")) && disk.files == old(disk.files))
      ensures var path := configFile;
        path in old(disk.files) ==> disk.files == old(disk.files) && (outcome == Loaded || outcome == Reported)
      ensures var path := configFile;
        path in old(disk.files) && old(disk.files)[path] == Unparsable ==>
          outcome == Reported && preferences == old(preferences) && menuItems == old(menuItems) && globals == old(globals)
      ensures var path := configFile;
        path in old(disk.files) && old(disk.files)[path].Doc? ==>
          var v := old(disk.files)[path].doc;
          var parsed := if v.Map? && "items" in v.m then ParseChildren(v.m["items"], Canonical) else Err(TypeError);
          preferences == v &&
          (parsed.Err? ==> outcome == Reported && menuItems == old(menuItems) && globals == old(globals)) &&
          (parsed.Ok? ==>
             menuItems == parsed.value &&
             ("global" in v.m ==> outcome == Loaded && globals == v.m["global"]) &&
             ("global" !in v.m ==> outcome == Reported && globals == old(globals)))
    {
      if configFile !in disk.files {
        var err := Save(disk, false);
        outcome := if err.None? then Created else Raised(err.value);
        return;
      }
      match disk.files[configFile]
      case Unparsable =>
        outcome := Reported;
      case Doc(v) =>
        preferences := v;
        if !v.Map? || "items" !in v.m {
          outcome := Reported;
          return;
        }
        var parsed := ParseChildren(v.m["items"], Canonical);
        if parsed.Err? {
          outcome := Reported;
          return;
        }
        menuItems := parsed.value;
        if "global" !in v.m {
          outcome := Reported;
          return;
        }
        globals := v.m["global"];
        outcome := Loaded;
    }
  }

  // ---- The package's Config (sshmenu_indicator/Config.py and App.py) ----

  /** The package's `Config`: `__init__` sets only `preferences` and `config_file`, so
      `menu_items` and `globals` exist only once a load has assigned them. */
  class PackageConfig {
    var preferences: Value
    var menuItems: Option<seq<Item>>
    var globals: Option<Value>
    var configFile: string
    /** How the load run by the constructor ended; `Raised` means the constructor raised. */
    ghost var loaded: LoadOutcome

    /** `Config(config_file)`. A missing file is not created: the constructor raises
        `UnboundLocalError` and the disk is left as it was. An existing document is loaded
        field by field; what fails to load stays unassigned. */
    constructor(configFile: string, disk: Disk)
      modifies disk
      ensures this.configFile == configFile
      ensures disk.files == old(disk.files)
      ensures configFile !in old(disk.files) ==>
        loaded == Raised(UnboundLocalError("fin")) && menuItems == None && globals == None
      ensures configFile in disk.files && disk.files[configFile] == Unparsable ==>
        menuItems == None && globals == None && loaded == Reported
      ensures configFile in old(disk.files) && old(disk.files)[configFile].Doc? ==>
        var v := old(disk.files)[configFile].doc;
        var parsed := if v.Map? && "items" in v.m then ParseChildren(v.m["items"], Package) else Err(TypeError);
        preferences == v &&
        menuItems == (if parsed.Ok? then Some(parsed.value) else None) &&
        globals == (if parsed.Ok? && "global" in v.m then Some(v.m["global"]) else None) &&
        (loaded == Loaded <==> parsed.Ok? && "global" in v.m) &&
        (loaded != Loaded ==> loaded == Reported)
    {
      preferences := Map(map[]);
      menuItems := None;
      globals := None;
      this.configFile := configFile;
      new;
      var outcome := LoadConfig(disk);
      loaded := outcome;
    }

    /** `get_global(attribute)`; before a load has assigned `globals` the attribute is missing. */
    function GetGlobal(attribute: string): (r: Result<bool>)
      reads this
      ensures globals.None? ==> r == Err(AttributeError("globals"))
      ensures globals.Some? ==> r == GlobalFlag(globals.value, attribute)
    {
      match globals
      case None => Err(AttributeError("globals"))
      case Some(g) => GlobalFlag(g, attribute)
    }

    /** `set_global(attribute, value)`. */
    method SetGlobal(attribute: string, value: Value) returns (err: Option<Error>)
      modifies this
      ensures !(EqualsBool(value, true) || EqualsBool(value, false)) ==> globals == old(globals) && err == None
      ensures (EqualsBool(value, true) || EqualsBool(value, false)) && old(globals).None? ==>
        globals == old(globals) && err == Some(AttributeError("globals"))
      ensures old(globals).Some? ==> var r := StoreGlobal(old(globals).value, attribute, value);
        (r.Ok? ==> globals == Some(r.value) && err == None) &&
        (r.Err? ==> globals == old(globals) && err == Some(r.error))
      ensures preferences == old(preferences) && menuItems == old(menuItems) && configFile == old(configFile)
    {
      if !(EqualsBool(value, true) || EqualsBool(value, false)) {
        return None;
      }
      if globals.None? {
        return Some(AttributeError("globals"));
      }
      var r := StoreGlobal(globals.value, attribute, value);
      if r.Ok? {
        globals := Some(r.value);
        err := None;
      } else {
        err := Some(r.error);
      }
    }

    /** `save(backup)`: as in SSHMenu.py, except that reading `menu_items` or `globals` before
        they were assigned raises `AttributeError`, after the backup and before the file is written. */
    method Save(disk: Disk, backup: bool) returns (err: Option<Error>)
      modifies disk
      ensures var backed := AfterBackup(old(disk.files), configFile, backup);
        (menuItems.None? ==> err == Some(AttributeError("menu_items")) && disk.files == backed) &&
        (menuItems.Some? && !Persistable(menuItems.value) ==>
           err == Some(AttributeError("to_yaml")) && disk.files == backed) &&
        (menuItems.Some? && Persistable(menuItems.value) && globals.None? ==>
           err == Some(AttributeError("globals")) && disk.files == backed) &&
        (menuItems.Some? && Persistable(menuItems.value) && globals.Some? ==>
           err == None && disk.files == backed[configFile := Doc(EncodeDocument(menuItems.value, globals.value).value)])
    {
      if backup {
        Backup(disk, configFile);
      }
      if menuItems.None? {
        return Some(AttributeError("menu_items"));
      }
      var ys := ItemsToYaml(menuItems.value);
      if ys.Err? {
        return Some(ys.error);
      }
      if globals.None? {
        return Some(AttributeError("globals"));
      }
      var doc := EncodeDocument(menuItems.value, globals.value);
      disk.files := disk.files[configFile := Doc(doc.value)];
      err := None;
    }

    /** `load_config()`. The `finally: fin.close()` runs on every path; when the file is missing
        `fin` was never bound, so whatever the `except` branch did, the call ends in
        `UnboundLocalError`. A file that exists but does not load is reported and leaves the
        fields assigned so far. */
    method LoadConfig(disk: Disk) returns (outcome: LoadOutcome)
      modifies this, disk
      ensures configFile == old(configFile)
      ensures var path := configFile;
        path !in old(disk.files) ==>
          outcome == Raised(UnboundLocalError("fin")) &&
          preferences == old(preferences) && menuItems == old(menuItems) && globals == old(globals) &&
          (old(menuItems).None? ==> disk.files == old(disk.files))
      ensures var path := configFile;
        path in old(disk.files) ==> disk.files == old(disk.files) && (outcome == Loaded || outcome == Reported)
      ensures var path := configFile;
        path in old(disk.files) && old(disk.files)[path] == Unparsable ==>
          outcome == Reported && preferences == old(preferences) && menuItems == old(menuItems) && globals == old(globals)
      ensures var path := configFile;
        path in old(disk.files) && old(disk.files)[path].Doc? ==>
          var v := old(disk.files)[path].doc;
          var parsed := if v.Map? && "items" in v.m then ParseChildren(v.m["items"], Package) else Err(TypeError);
          preferences == v &&
          (parsed.Err? ==> outcome == Reported && menuItems == old(menuItems) && globals == old(globals)) &&
          (parsed.Ok? ==>
             menuItems == Some(parsed.value) &&
             ("global" in v.m ==> outcome == Loaded && globals == Some(v.m["global"])) &&
             ("global" !in v.m ==> outcome == Reported && globals == old(globals)))
    {
      if configFile !in disk.files {
        var _ := Save(disk, false);
        outcome := Raised(UnboundLocalError("fin"));
        return;
      }
      match disk.files[configFile]
      case Unparsable =>
        outcome := Reported;
      case Doc(v) =>
        preferences := v;
        if !v.Map? || "items" !in v.m {
          outcome := Reported;
          return;
        }
        var parsed := ParseChildren(v.m["items"], Package);
        if parsed.Err? {
          outcome := Reported;
          return;
        }
        menuItems := Some(parsed.value);
        if "global" !in v.m {
          outcome := Reported;
          return;
        }
        globals := Some(v.m["global"]);
        outcome := Loaded;
    }
  }
}
