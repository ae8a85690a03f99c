# pySSHMenu: the menu item model, its codec, settings, rendering and editor tree

pySSHMenu is a GNOME indicator applet. It shows a menu of SSH hosts, arranged in nested
submenus, and opens a terminal for the host that is picked. The menu is read from a YAML file
holding `{classes, items, global}`. A preferences dialog edits the same forest of items in a
tree view and writes it back. The same logic exists in several copies:

- `SSHMenu.py` is the canonical single-file version.
- `sshmenu_indicator/Config.py`, `Items.py` and `Dialog.py` are a split package.
- `sshmenu_indicator/App.py` is an older monolith.
- `sshmenu_indicator/app.py` is a prototype.

This project models each copy's decision logic and proves properties of it. The modules are:

- `Document`: the loaded YAML value (mappings, lists, strings, integers, booleans, null) and the
  Python exceptions the code raises.
- `Items`: the item forest (`Host`, `Menu`, `Separator`, bare `Plain` items), the two host
  constructors (lenient `.get` defaults in SSHMenu.py, strict subscripts in the package),
  `has_items`, and the part of the forest the editor shows.
- `PackageItems`: the records of `sshmenu_indicator/Items.py`, whose `MenuItem` starts with
  `items = None`.
- `Codec`: `parse_items` for the three dialects, `to_yaml`, the document `save` writes, and the
  round-trip laws between them.
- `Config`: `load_config`, `save`, `backup`, `get_global`, `set_global` and `get_item`. These
  appear as two classes: `Config` for SSHMenu.py, and `PackageConfig` for Config.py. App.py's
  `Config` is line for line the same as Config.py's. The file system is a `Disk` class holding
  a map from paths to what the YAML loader makes of each file.
- `Render`: `initialize_menu`, `add_item` and `add_options_from_preferences`. The `App` class
  covers SSHMenu.py and App.py. The `PrototypeApp` class covers app.py, which builds a flat
  list instead.
- `Forest`: the `Gtk.TreeStore` as an ordered forest of rows, each row showing one object by
  identity. A `Gtk.TreeIter` becomes the path of indices to its row. The store's
  `swap`/`insert`/`remove`/`append` become edits of one sibling list, with "nothing else
  changes" lemmas.
- `Editor`: the `PreferencesDialog` as a class. It holds the object store (`map<nat, Obj>`,
  because the rows refer to item objects by identity, and a submenu object lists its children by
  identity in a list the dialog does not keep in step with the rows), the tree, and the button
  sensitivities. Its methods are:
  - building the tree (`add_items`) and reading it back (`get_menu_items`);
  - `initialize_buttons`, `get_position` and `add_new`;
  - every `btn_*_pressed` handler.

  A `Variant` selects SSHMenu.py's dialog, Dialog.py's, or App.py's. The answers of the host and
  submenu dialogs are parameters (`None` when cancelled).

## Model

| member | source | states |
|---|---|---|
| Items.Kind | SSHMenu.py:318-345 | every item carries exactly one of the four kind tags `menu`, `separator`, `item`, `host`, and the tag tells which constructor built it |
| Items.NewHost | SSHMenu.py:355-374 | `HostItem(display, params)`: empty params give three empty strings. The lenient rule succeeds iff `sshparams` is present and defaults `profile`/`geometry` to `''`. The strict rule needs all three keys. A failure raises `KeyError` for a key absent from params: `sshparams` under the lenient rule, the first of `profile`, `geometry`, `sshparams` missing under the strict one. A new host has `enable_bcvi` false |
| Items.NewSeparator | SSHMenu.py:453-456 | a new separator carries the fixed underscore label and is shown in the tree |
| Items.StrictHostAgreesWithLenient | sshmenu_indicator/Items.py:44-54 | whatever the package's strict host constructor accepts, the canonical one builds identically; the canonical one also accepts params without `profile`, which the package rejects with `KeyError('profile')` |
| Items.HasItems | SSHMenu.py:424-430 | `has_items()` is true iff some child is shown in the editor tree |
| Items.EditorViewOfShown | SSHMenu.py:733-748 | a forest every entry of which is shown is its own editor view |
| PackageItems.NewItem | sshmenu_indicator/Items.py:18-26 | a base `Item` has kind `item`, the given display and no data |
| PackageItems.NewMenu | sshmenu_indicator/Items.py:31-35 | a package `MenuItem` has kind `menu` and no list of children (`None`) |
| PackageItems.NewHost | sshmenu_indicator/Items.py:44-54 | the package host constructor succeeds, fails and builds exactly as the strict rule does: empty params give three empty strings, otherwise `profile`, `geometry`, `sshparams` are all required |
| Codec.HostParams | SSHMenu.py:244-246 | host parameters are exactly the entry's keys other than `title` and `type`, with their values |
| Codec.ParseItem | SSHMenu.py:232-249 | an entry must be a mapping with `type` (else `TypeError`/`KeyError('type')`); `separator` gives a separator; `menu` needs `title` then `items` (else `KeyError` for the missing one) and gives a submenu whose children are the parse of `items`, failing with that parse's error; anything else needs `title` and is `HostItem(title, params)` over every other key; every parsed item is shown |
| Codec.ParseChildren | SSHMenu.py:241-242 | a menu's `items` value parses as a list entry by entry; only a list, an empty mapping or an empty string can succeed |
| Codec.ParseItems | sshmenu_indicator/Config.py:34-49 | on success the output has one item per entry, in order, each the parse of its entry; on failure the error is that of the first failing entry |
| Codec.ToYaml | SSHMenu.py:391-400 | `to_yaml` succeeds iff the item (with every descendant) is a host, menu or separator, otherwise `AttributeError('to_yaml')`; the result is a mapping whose `type` is the item's kind, so a host is always written as `host` |
| Codec.ItemsToYaml | SSHMenu.py:432-443 | a list is written entry by entry, in order, and fails iff some entry has no `to_yaml` |
| Codec.EncodeDocument | SSHMenu.py:293-309 | `save` writes exactly `{classes: {}, items: [to_yaml of each top-level item], global: globals}` |
| Codec.ItemRoundTrip | sshmenu_indicator/App.py:301-338 | parsing what `to_yaml` wrote gives the item back, up to `enable_bcvi` (false again), `show_in_tree` (true again) and the separator label of the reading copy |
| Codec.HostRoundTrip | sshmenu_indicator/App.py:191-194 | the five-key mapping a host writes parses back to a host with the same title, profile, geometry and ssh parameters: every key but `title` and `type` becomes a parameter |
| Codec.MenuRoundTrip | sshmenu_indicator/App.py:187-190 | the mapping a submenu writes parses back to a submenu with the same title whose children are the parse of its written `items`, or fails with that parse's error |
| Codec.ItemsRoundTrip | SSHMenu.py:391-459 | the same for a whole forest: kind, title, profile, geometry, ssh parameters, nesting and order survive |
| Codec.DocumentRoundTrip | SSHMenu.py:293-309 | the `items` of the saved document parse back to the normalised forest and its `global` is the settings |
| Codec.ParsedItemIsNormal | sshmenu_indicator/app.py:88-103 | every item a parser in any dialect produces (the prototype's `'sep'` separators included) can be written and is already in normal form |
| Codec.ParsedItemsAreNormal | SSHMenu.py:232-249 | every parsed forest can be written and is already in normal form |
| Codec.ParseEncodeParse | SSHMenu.py:217-309 | saving what was loaded and loading it again gives back exactly the loaded forest |
| Codec.PackageItemAgrees | sshmenu_indicator/App.py:182-197 | an entry the monolith's parser accepts is read identically by the canonical parser |
| Codec.PackageItemsAgree | sshmenu_indicator/Config.py:34-49 | a list the package's parser accepts is read identically by the canonical parser |
| Config.Backup | SSHMenu.py:286-291 | `backup` copies the file to the path with `.bak` appended when it exists and changes nothing otherwise |
| Config.AfterBackup | sshmenu_indicator/Config.py:74-77 | an optional backup leaves the configuration file itself unchanged and, when made, puts its contents at `path + '.bak'` |
| Config.GlobalFlag | SSHMenu.py:270-276 | `get_global(k)` is `bool(globals[k])` when present and `False` when missing; a non-mapping `global` raises `AttributeError('has_key')` |
| Config.StoreGlobal | SSHMenu.py:278-284 | `set_global` stores 1 or 0 exactly for a value equal to `True`/`False`, after which `get_global` reads it back, and keeps every other key; any other value (a width of 370) leaves the settings unchanged |
| Config.StoreGlobalKeepsOtherFlags | sshmenu_indicator/Config.py:70-72 | setting one flag never changes what another flag reads as |
| Config.GetItemResult | sshmenu_indicator/Config.py:51-62 | what `get_item` returns: a found item has the searched title and lies in the forest; the last entry that matches or is a submenu decides |
| Config.GetItem | SSHMenu.py:251-268 | the loop of `get_item` returns `GetItemResult`, so any item it finds carries the title and lies in the forest |
| Config.GetItemLosesEarlierMatch | sshmenu_indicator/Config.py:58-61 | a host titled "a" followed by an empty submenu: `get_item("a")` returns `None` although the host is there, and `FindItem` finds it |
| Config.FindItem | sshmenu_indicator/Config.py:51-62 | the intended search: a result has the title and lies in the forest, and there is no result iff no item in the forest has that title |
| Config.Config.constructor | SSHMenu.py:206-215 | a configuration starts empty and loads; a missing file is created holding an empty tree, an existing file is not written; an existing document becomes `preferences`, its parsed `items` the menu items and its `global` the settings, each left empty when it fails to load |
| Config.Config.SetGlobal | SSHMenu.py:278-284 | the settings become what `StoreGlobal` says, or stay and the error is returned; nothing else changes |
| Config.Config.Save | SSHMenu.py:293-309 | after the optional backup, the file holds the encoded document; an item without `to_yaml` raises after the backup with the file unwritten |
| Config.Config.LoadConfig | SSHMenu.py:217-230 | a missing file is created by `save`; an unreadable file is reported; a document's fields are assigned one by one, so a failure part-way keeps the fields assigned before it; the disk changes only when the file was missing |
| Config.PackageConfig.constructor | sshmenu_indicator/Config.py:14-17 | loading never writes the disk; a missing file makes the constructor raise `UnboundLocalError('fin')`; an existing document becomes `preferences`, its parsed `items` the menu items and its `global` the settings, each left unassigned when it fails to load |
| Config.PackageConfig.GetGlobal | sshmenu_indicator/Config.py:64-68 | before a load assigned `globals` the attribute is missing (`AttributeError`), afterwards the flag reads as `GlobalFlag` |
| Config.PackageConfig.SetGlobal | sshmenu_indicator/Config.py:70-72 | a non-boolean value is ignored even with no `globals`; a boolean one raises when `globals` is unassigned and is otherwise stored as `StoreGlobal` says |
| Config.PackageConfig.Save | sshmenu_indicator/Config.py:79-93 | after the optional backup, a missing `menu_items`, an item without `to_yaml` or a missing `globals` raises with the file unwritten; otherwise the file holds the encoded document |
| Config.PackageConfig.LoadConfig | sshmenu_indicator/Config.py:19-32 | a missing file always ends in `UnboundLocalError` from `fin.close()` with the fields unchanged; an existing file is never written and is loaded or reported as in SSHMenu.py, with the strict parser |
| Render.Options | SSHMenu.py:113-127 | the injected entries: "Open all as tabs", then "Open all windows", each when its setting is set, then one separator when either was added; all hidden and none a submenu |
| Render.HiddenView | SSHMenu.py:125-126 | entries hidden from the editor contribute nothing to its view |
| Render.AddOptionsFromPreferences | SSHMenu.py:113-127 | the submenu keeps its title; its list is the options followed by the old children unchanged; the editor's view of it is unchanged; with both settings off it is unchanged |
| Render.OptionsFor | sshmenu_indicator/App.py:70-91 | SSHMenu.py injects nothing into an empty submenu; the monolith injects into every submenu; injected entries are hidden non-menus |
| Render.Rendered | SSHMenu.py:89-111 | rendering keeps every non-menu item as it is and every item's kind, title and visibility |
| Render.MenusOf | SSHMenu.py:105 | `self.menus` records only submenus, each after everything below it, the item's own submenu last as rendered |
| Render.RenderedView | SSHMenu.py:99-103 | rendering an item never changes what the preferences editor shows of it |
| Render.RenderedListView | SSHMenu.py:70-88 | rendering a forest never changes what the preferences editor shows of it |
| Render.RenderedParsedForest | sshmenu_indicator/App.py:56-68 | the editor opened on a rendered configured forest shows exactly the configured items |
| Render.RenderedList | SSHMenu.py:102-103 | `add_item` for each entry of a list: one rendered entry per item, in order |
| Render.Flag | SSHMenu.py:117-120 | `get_global(key) == 1` holds exactly when the setting is present and truthy |
| Render.App.constructor | SSHMenu.py:49-53 | the app holds the loaded settings and records no submenu yet |
| Render.Trailer | SSHMenu.py:83-86 | the fixed trailer is a separator and three bare items |
| Render.App.AddItem | SSHMenu.py:89-111 | `add_item` returns the entry as rendered and appends to `self.menus` exactly the submenus of that entry |
| Render.App.AddItems | SSHMenu.py:102-103 | rendering a list in order gives the rendered list and records its submenus in order |
| Render.App.InitializeMenu | SSHMenu.py:70-88 | the top-level menu is the rendered items followed by the trailer; `self.menus` ends holding exactly the submenus of this rendering |
| Render.PrototypeFlag | sshmenu_indicator/app.py:50-64 | the prototype reads `prefs['global'][key] == 1` on the raw document: a missing `global` or key raises `KeyError` |
| Render.PrototypeOptions | sshmenu_indicator/app.py:50-64 | the prototype appends the same option entries, in the same order, stopping at the first missing key |
| Render.PrototypeItem | sshmenu_indicator/app.py:28-48 | a non-menu item is appended alone; a submenu is appended after its options and children |
| Render.PrototypeRecordsPostOrder | sshmenu_indicator/app.py:28-48 | with both options off, the flat `menu_items` is the forest in post-order |
| Render.PrototypeTrailer | sshmenu_indicator/app.py:66-75 | the prototype's trailer starts with an item labelled "Seperator" and has four entries |
| Render.PrototypeApp.constructor | sshmenu_indicator/app.py:18-26 | the prototype starts from the given preferences with an empty `menu_items` list |
| Render.PrototypeApp.AddItem | sshmenu_indicator/app.py:28-48 | `add_item` appends what `PrototypeItem` says and returns its error |
| Render.PrototypeApp.AddItems | sshmenu_indicator/app.py:69-70 | rendering a list appends each item's trace in order and stops at the first error |
| Render.PrototypeApp.AddOptionsFromPreferences | sshmenu_indicator/app.py:50-64 | the method appends exactly what `PrototypeOptions` says |
| Render.PrototypeApp.InitializeMenu | sshmenu_indicator/app.py:66-75 | parse failure appends nothing; otherwise the rendered items are appended and, when no error stopped them, the trailer |
| Forest.WithChildren | SSHMenu.py:857-871 | replacing the rows below a place puts exactly the new rows there and keeps the number of top-level rows |
| Forest.WithChildrenFrame | sshmenu_indicator/Dialog.py:324-349 | an edit below one place leaves every unrelated place unchanged, and every place above it keeps its rows and their identities |
| Forest.Swap | SSHMenu.py:902-909 | `swap` exchanges two rows, keeps all others, and is a permutation |
| Forest.InsertAt | SSHMenu.py:928-943 | `insert(parent, k, row)` puts the row at `k` (last when `k` is past the end) and shifts the following rows by one |
| Forest.RemoveAt | SSHMenu.py:980-994 | `remove` drops one row and the others keep their relative order |
| Forest.InsertRemoveInverse | sshmenu_indicator/Dialog.py:411-414 | removing a row and reinserting it at its index restores the list, and vice versa |
| Editor.BuildRows | SSHMenu.py:733-748 | `add_items` appends at most one row per object, each showing an object of the store |
| Editor.BuildRow | sshmenu_indicator/Dialog.py:228-235 | a submenu always gets exactly one row; another object at most one; only a submenu without a list stops the build |
| Editor.ReadBack | SSHMenu.py:543-564 | `get_menu_items` gives one item per row, in row order, each the item its row stands for |
| Editor.ReadRow | SSHMenu.py:555-561 | a row's item is its object with the same title and visibility; a host keeps all its fields; a submenu's items are read from its child rows, one per row |
| Editor.BuildThenReadBack | SSHMenu.py:543-564 | building the tree and reading it back gives the forest the objects stand for, without the entries hidden from the editor |
| Editor.BuildRowThenReadBack | sshmenu_indicator/Dialog.py:58-68 | the same for one object's row |
| Editor.HasShownMember | SSHMenu.py:424-430 | `has_items()` on a submenu object: some listed object is shown |
| Editor.MenuDeletable | SSHMenu.py:795 | delete is offered for a submenu iff no listed child is shown (SSHMenu.py), iff its list is empty (other copies); a missing list raises `TypeError` |
| Editor.UpRefusedOnFirst | SSHMenu.py:807-815 | with distinct objects, "up" is refused exactly on the first row |
| Editor.ButtonsFor | SSHMenu.py:775-815 | a host enables edit, copy and delete; a submenu enables edit, disables copy and sets delete by `MenuDeletable`; a separator enables delete only; other items keep those three; then "down" iff a next sibling exists and "up" iff the first sibling shows another object; a raise stops the update |
| Editor.FirstIndex | SSHMenu.py:829-855 | the index of the first row showing the object, every earlier row showing another |
| Editor.UpTarget | SSHMenu.py:880-900 | where "up" swaps to is always a row of the list |
| Editor.UpTargetOfDistinct | sshmenu_indicator/Dialog.py:324-342 | with distinct objects "up" swaps with the previous row, and the first row with the last |
| Editor.FirstIndexOfDistinct | sshmenu_indicator/Dialog.py:292-310 | with distinct objects `get_position` finds the row's own index |
| Editor.DownThenUp | sshmenu_indicator/App.py:650-675 | moving a row down and then up again restores its sibling list |
| Editor.BlankIffStripEmpty | SSHMenu.py:1035-1045 | a text is all white space exactly when Python's `strip()` leaves nothing of it |
| Editor.HostInputsValidIffStripped | SSHMenu.py:1035-1045 | the host dialog accepts exactly when neither the title nor the host is empty after `strip()` |
| Editor.MenuInputsValidIffStripped | SSHMenu.py:1206-1212 | the submenu dialog accepts exactly when the title is not empty after `strip()` |
| Editor.Edited | SSHMenu.py:1047-1059 | an accepted host dialog rewrites the host's title, ssh parameters, geometry, profile and bcvi flag; the submenu dialog rewrites the title of any other item and keeps a submenu's list |
| Editor.EditAnswer | SSHMenu.py:945-963 | `btn_edit` opens the host dialog for a host and the submenu dialog for anything else; a cancelled dialog changes nothing |
| Editor.AddNewParent | SSHMenu.py:857-871 | `add_new` appends inside a selected submenu, next to another selected row, or at the top level with no selection |
| Editor.SeparatorPlace | SSHMenu.py:928-943 | a separator goes first at the top level with no selection, first inside a selected submenu, otherwise right after the selected row's first occurrence |
| Editor.RemoveFirst | SSHMenu.py:991-992 | `list.remove` takes out one occurrence of the object, or leaves a list without it unchanged |
| Editor.PreferencesDialog.constructor | SSHMenu.py:707-731 | the dialog's tree is the rows `add_items` builds for the top-level objects; every button starts insensitive |
| Editor.PreferencesDialog.AddItems | SSHMenu.py:733-748 | the loop appends below the given row exactly the rows `BuildRows` describes, stopping where it stops, and changes no other row |
| Editor.PreferencesDialog.AppendRow | SSHMenu.py:744-748 | `model.append(parent, [item])` adds one empty row for the object after the parent's last child, changing nothing else |
| Editor.PreferencesDialog.AddItem | sshmenu_indicator/App.py:554-561 | one object's rows are appended below the given row as `BuildRow` describes |
| Editor.PreferencesDialog.InitializeButtons | SSHMenu.py:775-815 | with a selection the buttons become what `ButtonsFor` says; without one nothing changes |
| Editor.PreferencesDialog.GetPosition | SSHMenu.py:829-855 | the loop returns the parent and the index of the first sibling showing the same object, never past the row's own index |
| Editor.PreferencesDialog.BtnUp | SSHMenu.py:880-900 | the row is swapped with the row the scan stops at, the buttons are re-evaluated there, no other row changes; no selection raises `TypeError` |
| Editor.PreferencesDialog.BtnDown | SSHMenu.py:902-909 | the row is swapped with the next one and the buttons re-evaluated, nothing happens on the last row, no other row changes |
| Editor.PreferencesDialog.AddNew | SSHMenu.py:857-871 | the new object's rows are appended where `AddNewParent` says; no other row changes |
| Editor.PreferencesDialog.BtnAdd | SSHMenu.py:911-918 | an accepted host dialog creates one new shown host object from the form and appends its row where `add_new` says; cancelling changes nothing |
| Editor.PreferencesDialog.BtnMenu | SSHMenu.py:920-926 | a new submenu object with the title gets a row where `add_new` says; in Dialog.py its list is `None`, so filling its row raises |
| Editor.PreferencesDialog.BtnSep | SSHMenu.py:928-943 | a new separator object gets a row inserted where `SeparatorPlace` says |
| Editor.PreferencesDialog.BtnEdit | SSHMenu.py:945-963 | after an accepted dialog the object is rewritten and its row is removed and reinserted at its first position, with child rows rebuilt from the object's own list; a cancelled dialog changes nothing |
| Editor.PreferencesDialog.Reinsert | sshmenu_indicator/Dialog.py:380-396 | the row leaves its place and a row for the same object, filled from the object's list, goes in at its first position |
| Editor.PreferencesDialog.ReplaceRow | sshmenu_indicator/App.py:706-722 | `get_position`, `remove` and `insert` put an empty row for the object at its first position among its siblings |
| Editor.PreferencesDialog.FillChildren | SSHMenu.py:961-963 | below the row just reinserted, a submenu gets the rows its own list builds, another object none; it succeeds unless a submenu has no list |
| Editor.PreferencesDialog.BtnEditKeepingRows | SSHMenu.py:945-963 | the corrected edit: the object is rewritten as the dialog answered and the tree is unchanged |
| Editor.PreferencesDialog.BtnCopy | SSHMenu.py:965-978 | copying a host inserts a new host object built from the dialog right after the original's first occurrence; a non-host raises `AttributeError('ssh_params')`; a cancel changes nothing |
| Editor.PreferencesDialog.InsertAfter | SSHMenu.py:977-978 | the copy's row goes in right after the first row among the siblings showing the original's object, and no other row moves |
| Editor.PreferencesDialog.BtnDel | SSHMenu.py:980-994 | the row is removed and the others keep their order; in SSHMenu.py the object is first taken out of its parent submenu's list, and a parent without a list raises before anything changes; the other copies leave the lists as they are |
| Editor.CopyLandsAfterOriginal | sshmenu_indicator/App.py:724-735 | with distinct objects the copy lands right after the original, and removing it restores the list |
| Editor.EditDropsAddedRows | SSHMenu.py:945-963 | a host added below an empty submenu in the session disappears from the tree when the submenu is edited |
| Editor.ReinsertedInStep | sshmenu_indicator/Dialog.py:380-396 | when the submenu's rows are in step with its list, the edit leaves the tree as it was |
| Editor.CanonicalDeletableIffNoRows | SSHMenu.py:424-430 | in SSHMenu.py a submenu is deletable iff the editor shows no row below it |
| Editor.PackageRefusesEmptyMenu | sshmenu_indicator/App.py:577-610 | a submenu holding only the injected hidden entries shows no rows yet is not deletable by the `len` test, while SSHMenu.py's test allows it |

## Left out

- GTK widgets, dialogs' layout, sizing (`get_global('width') or 370`), the About pane, error dialogs: user interface only. An error dialog is the `Reported` outcome.
- Drag-and-drop reordering and the selection-changed signal: GTK behaviour. The model takes the selection as a parameter to each handler.
- YAML text, `open`, `shutil.copy` and `os.path.exists`: the file system is a map from paths to "a document" or "text the loader rejects".
- Processes (`create_action`, open-all, ssh-agent keys), `have_bcvi`, gconf profiles and `GeoGrabber`: external effects. The host dialog's answer, bcvi flag included, is an input.
- Floating-point values in the settings (`1.0 == True`): the document has no floats.
- Mapping keys that are not strings: the document's mappings have string keys.
- SSHMenu.py's `get_global` method has no row of its own: it reads the loaded settings through `Config.GlobalFlag`.
- Aliasing between the configuration's item objects and the rendered menu: `Render` works on values. `add_options_from_preferences` reassigns the submenu's list, which the model returns as a new item.
- `get_menu_items` reassigns each submenu object's `items` when the dialog saves: the model reads the forest back (`ReadBack`) without writing it into the object store.
- The editor's object store is given, together with the top-level objects; how the loaded forest's objects are allocated is not modelled. A `MenuItem` created with the shared default list is an object with its own empty list. No list in the editor is ever appended to, so the sharing cannot be observed.
- `self.selected` and `get_position`'s branch for a missing selection: no handler reaches them with no selection.
- A non-mapping `global` while rendering: `Render.Flag` reads the settings as a mapping.
- In Dialog.py only the missing list of a new `MenuItem` is taken from `sshmenu_indicator/Items.py`. That module has no `SeparatorItem`, which Dialog.py and Config.py import, and its items have no `show_in_tree` and no `to_yaml`. So the package's dialog and `save` are modelled over the same item objects as the other copies.
- HostDialog's test button, `action` callables and the profile combo box: the dialog's answer is an input.
- `get_item` has no caller in the program; it is modelled as written and corrected.

## Findings

| source | as written | input that shows it | evidently intended | confidence | as-written member | corrected member |
|---|---|---|---|---|---|---|
| sshmenu_indicator/Config.py:51-62 | `get_item` keeps scanning after a match and lets every later submenu overwrite the answer with its own search's result | a host titled "a" followed by an empty submenu: `get_item("a")` returns `None` | the first item in tree order with that title | not executed | Config.GetItemLosesEarlierMatch | Config.FindItem |
| SSHMenu.py:945-963 | `btn_edit_pressed` rebuilds a submenu's child rows from the object's `items` list, which rows added in the session never reach | an empty submenu, then "add host" with it selected, then "edit" on the submenu: the host's row disappears | editing a row changes the object and keeps its rows | not executed | Editor.EditDropsAddedRows | Editor.PreferencesDialog.BtnEditKeepingRows |
| sshmenu_indicator/App.py:577-610 | delete sensitivity is `len(items) == 0`, which counts the hidden "open all" entries `add_item` puts into every submenu | "Open all windows" on and an empty submenu: after rendering, its list holds two hidden entries and delete stays off although the editor shows no child | deletable iff no visible child, as SSHMenu.py's `has_items` test says | not executed | Editor.PackageRefusesEmptyMenu | Editor.CanonicalDeletableIffNoRows |
