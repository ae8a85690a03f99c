/** The preferences dialog's tree of menu entries (`PreferencesDialog` in SSHMenu.py, and in
    sshmenu_indicator/Dialog.py and App.py): building the tree from the items, reading it back,
    and the handlers of the buttons beside it. The widgets are not modelled: the tree store is a
    forest of rows (module Forest), each showing one item object; a selection is the path of the
    selected row; the answers of the host and submenu dialogs are parameters. */
module Editor {
  import opened Document
  import opened Items
  import opened Forest

  /** An item object, as the rows refer to it. A submenu object refers to its children by
      identity through its `items` list, which the dialog reads but does not keep in step with
      the rows; `None` stands for a `MenuItem` created without a list. */
  datatype Obj =
    | HostObj(display: Value, profile: Value, geometry: Value, sshParams: Value, enableBcvi: bool, showInTree: bool)
    | MenuObj(display: Value, members: Option<seq<nat>>, showInTree: bool)
    | SeparatorObj(display: Value, showInTree: bool)
    | PlainObj(display: Value, showInTree: bool)

  /** Whose dialog: SSHMenu.py's; sshmenu_indicator/Dialog.py's, whose new submenus come from
      Items.py without a list; or sshmenu_indicator/App.py's, whose new submenus start with an
      empty list. */
  datatype Variant = Canonical | Package | Monolith

  datatype Buttons = Buttons(up: bool, down: bool, edit: bool, copy: bool, del: bool)

  /** The object store is well formed below `bound`, the next identity to hand out: the
      children a submenu object lists are objects created after it. */
  predicate Ordered(objs: map<nat, Obj>, bound: nat) {
    (forall o :: o in objs ==> o < bound) &&
    (forall o, i :: o in objs && objs[o].MenuObj? && objs[o].members.Some? && 0 <= i < |objs[o].members.value| ==>
       o < objs[o].members.value[i] && objs[o].members.value[i] in objs)
  }

  /** A list of objects, each created at or after `floor`. */
  predicate Members(objs: map<nat, Obj>, ids: seq<nat>, floor: nat) {
    forall i :: 0 <= i < |ids| ==> ids[i] in objs && floor <= ids[i]
  }

  /** Every row shows an object of the store. */
  predicate RowsIn(rows: seq<Node>, objs: map<nat, Obj>)
    decreases rows
  {
    forall i :: 0 <= i < |rows| ==> rows[i].obj in objs && RowsIn(rows[i].children, objs)
  }

  // ---- The item forest an object stands for ----

  function Denote(objs: map<nat, Obj>, bound: nat, ids: seq<nat>, floor: nat): (r: seq<Item>)
    requires Ordered(objs, bound) && Members(objs, ids, floor)
    ensures |r| == |ids|
    decreases bound - floor, |ids|
  {
    if ids == [] then [] else [DenoteObj(objs, bound, ids[0])] + Denote(objs, bound, ids[1..], floor)
  }

  function DenoteObj(objs: map<nat, Obj>, bound: nat, id: nat): Item
    requires Ordered(objs, bound) && id in objs
    decreases bound - id, 0
  {
    match objs[id]
    case HostObj(d, p, g, s, b, t) => Host(d, p, g, s, b, t)
    case MenuObj(d, members, t) => Menu(d, if members.None? then [] else Denote(objs, bound, members.value, id + 1), t)
    case SeparatorObj(d, t) => Separator(d, t)
    case PlainObj(d, t) => Plain(d, t)
  }

  // ---- Building the tree: add_items ----

  /** The rows `add_items` appends for a list of objects, and whether it finished: a submenu
      always gets a row and then its children's rows; another object gets a row only when it is
      shown in the tree. Iterating the missing list of a `MenuItem` raises `TypeError` right after
      the submenu's row was appended. */
  datatype Built = Built(rows: seq<Node>, ok: bool)

  function BuildRows(objs: map<nat, Obj>, bound: nat, ids: seq<nat>, floor: nat): (r: Built)
    requires Ordered(objs, bound) && Members(objs, ids, floor)
    ensures RowsIn(r.rows, objs)
    ensures |r.rows| <= |ids|
    decreases bound - floor, |ids|
  {
    if ids == [] then Built([], true)
    else
      var h := BuildRow(objs, bound, ids[0]);
      if !h.ok then h
      else
        var t := BuildRows(objs, bound, ids[1..], floor);
        RowsInConcat(h.rows, t.rows, objs);
        Built(h.rows + t.rows, t.ok)
  }

  function BuildRow(objs: map<nat, Obj>, bound: nat, id: nat): (r: Built)
    requires Ordered(objs, bound) && id in objs
    ensures RowsIn(r.rows, objs)
    ensures |r.rows| <= 1 && (r.rows != [] ==> r.rows[0].obj == id)
    ensures objs[id].MenuObj? ==> |r.rows| == 1
    ensures !r.ok ==> objs[id].MenuObj?
    decreases bound - id, 0
  {
    match objs[id]
    case MenuObj(_, members, _) =>
      if members.None? then Built([Node(id, [])], false)
      else
        var c := BuildRows(objs, bound, members.value, id + 1);
        Built([Node(id, c.rows)], c.ok)
    case _ =>
      if objs[id].showInTree then Built([Node(id, [])], true) else Built([], true)
  }

  lemma RowsInConcat(a: seq<Node>, b: seq<Node>, objs: map<nat, Obj>)
    requires RowsIn(a, objs) && RowsIn(b, objs)
    ensures RowsIn(a + b, objs)
  {
    assert forall i :: 0 <= i < |a + b| ==> (a + b)[i] == if i < |a| then a[i] else b[i - |a|];
  }

  lemma {:induction false} BuildRowsSnoc(objs: map<nat, Obj>, bound: nat, ids: seq<nat>, floor: nat, n: nat)
    requires Ordered(objs, bound) && Members(objs, ids, floor) && n < |ids|
    requires BuildRows(objs, bound, ids[..n], floor).ok
    ensures var a := BuildRows(objs, bound, ids[..n], floor); var b := BuildRow(objs, bound, ids[n]);
      BuildRows(objs, bound, ids[..n + 1], floor) == Built(a.rows + b.rows, b.ok)
    decreases n
  {
    if n == 0 {
      assert ids[..1] == [ids[0]];
      assert ids[..1][1..] == [];
    } else {
      assert ids[..n + 1][0] == ids[0] && ids[..n][0] == ids[0];
      assert ids[..n + 1][1..] == ids[1..][..n] && ids[..n][1..] == ids[1..][..n - 1];
      assert ids[1..][n - 1] == ids[n];
      BuildRowsSnoc(objs, bound, ids[1..], floor, n - 1);
      var h := BuildRow(objs, bound, ids[0]);
      assert h.ok;
      Associative(h.rows, BuildRows(objs, bound, ids[1..][..n - 1], floor).rows, BuildRow(objs, bound, ids[n]).rows);
    }
  }

  lemma {:induction false} BuildRowsStops(objs: map<nat, Obj>, bound: nat, ids: seq<nat>, floor: nat, n: nat)
    requires Ordered(objs, bound) && Members(objs, ids, floor) && n <= |ids|
    requires !BuildRows(objs, bound, ids[..n], floor).ok
    ensures BuildRows(objs, bound, ids, floor) == BuildRows(objs, bound, ids[..n], floor)
    decreases n
  {
    assert n > 0;
    assert ids[..n][0] == ids[0] && ids[..n][1..] == ids[1..][..n - 1];
    if BuildRow(objs, bound, ids[0]).ok {
      BuildRowsStops(objs, bound, ids[1..], floor, n - 1);
    }
  }

  // ---- Reading the tree back: get_menu_items ----

  /** `get_menu_items(first, [])`: the items of the rows in tree order, each submenu's children
      being the items of its child rows. */
  function ReadBack(objs: map<nat, Obj>, rows: seq<Node>): (r: seq<Item>)
    requires RowsIn(rows, objs)
    ensures |r| == |rows|
    ensures forall i :: 0 <= i < |rows| ==> r[i] == ReadRow(objs, rows[i])
    decreases rows
  {
    if rows == [] then [] else [ReadRow(objs, rows[0])] + ReadBack(objs, rows[1..])
  }

  /** The item a row stands for: the row's object, a submenu with the items of its child rows. */
  function ReadRow(objs: map<nat, Obj>, n: Node): (r: Item)
    requires n.obj in objs && RowsIn(n.children, objs)
    ensures r.display == objs[n.obj].display && r.showInTree == objs[n.obj].showInTree
    ensures r.Menu? <==> objs[n.obj].MenuObj?
    ensures r.Menu? ==> |r.items| == |n.children|
    ensures objs[n.obj].HostObj? ==> var o := objs[n.obj];
      r == Host(o.display, o.profile, o.geometry, o.sshParams, o.enableBcvi, o.showInTree)
    ensures r.Separator? <==> objs[n.obj].SeparatorObj?
    decreases n
  {
    match objs[n.obj]
    case HostObj(d, p, g, s, b, t) => Host(d, p, g, s, b, t)
    case MenuObj(d, _, t) => Menu(d, ReadBack(objs, n.children), t)
    case SeparatorObj(d, t) => Separator(d, t)
    case PlainObj(d, t) => Plain(d, t)
  }

  lemma ReadBackConcat(objs: map<nat, Obj>, a: seq<Node>, b: seq<Node>)
    requires RowsIn(a, objs) && RowsIn(b, objs)
    ensures RowsIn(a + b, objs) && ReadBack(objs, a + b) == ReadBack(objs, a) + ReadBack(objs, b)
    decreases a
  {
    RowsInConcat(a, b, objs);
    if a != [] {
      assert (a + b)[0] == a[0] && (a + b)[1..] == a[1..] + b;
      ReadBackConcat(objs, a[1..], b);
      assert ReadBack(objs, a + b) == [ReadRow(objs, a[0])] + ReadBack(objs, a[1..] + b);
    } else {
      assert a + b == b;
    }
  }

  /** Building the tree and reading it back gives the forest the objects stand for, without
      the entries hidden from the editor. */
  lemma {:induction false} BuildThenReadBack(objs: map<nat, Obj>, bound: nat, ids: seq<nat>, floor: nat)
    requires Ordered(objs, bound) && Members(objs, ids, floor)
    requires BuildRows(objs, bound, ids, floor).ok
    ensures ReadBack(objs, BuildRows(objs, bound, ids, floor).rows) == EditorView(Denote(objs, bound, ids, floor))
    decreases bound - floor, |ids|
  {
    if ids != [] {
      var h := BuildRow(objs, bound, ids[0]);
      var t := BuildRows(objs, bound, ids[1..], floor);
      BuildRowThenReadBack(objs, bound, ids[0]);
      BuildThenReadBack(objs, bound, ids[1..], floor);
      ReadBackConcat(objs, h.rows, t.rows);
      assert Denote(objs, bound, ids, floor)[0] == DenoteObj(objs, bound, ids[0]);
      assert Denote(objs, bound, ids, floor)[1..] == Denote(objs, bound, ids[1..], floor);
    }
  }

  lemma {:induction false} BuildRowThenReadBack(objs: map<nat, Obj>, bound: nat, id: nat)
    requires Ordered(objs, bound) && id in objs
    requires BuildRow(objs, bound, id).ok
    ensures ReadBack(objs, BuildRow(objs, bound, id).rows) == EntryView(DenoteObj(objs, bound, id))
    decreases bound - id, 0
  {
    var r := BuildRow(objs, bound, id).rows;
    match objs[id]
    case MenuObj(d, members, t) =>
      BuildThenReadBack(objs, bound, members.value, id + 1);
      assert ReadBack(objs, r) == [ReadRow(objs, r[0])];
    case _ =>
      if objs[id].showInTree {
        assert ReadBack(objs, r) == [ReadRow(objs, r[0])];
      }
  }

  // ---- Button sensitivity: initialize_buttons ----

  /** `MenuItem.has_items()` on the objects a submenu lists: whether one of them is shown. */
  function HasShownMember(objs: map<nat, Obj>, ms: seq<nat>): (r: bool)
    ensures r <==> exists i :: 0 <= i < |ms| && ms[i] in objs && objs[ms[i]].showInTree
    decreases ms
  {
    if ms == [] then false
    else (ms[0] in objs && objs[ms[0]].showInTree) || HasShownMember(objs, ms[1..])
  }

  /** Whether "delete" is offered for a submenu: SSHMenu.py asks `not has_items()`, the other
      dialogs ask `len(items) == 0`; both raise `TypeError` on a missing list. */
  function MenuDeletable(variant: Variant, objs: map<nat, Obj>, members: Option<seq<nat>>): (r: Result<bool>)
    ensures members.None? <==> r.Err?
    ensures members.Some? && variant == Canonical ==>
      (r.value <==> forall i :: 0 <= i < |members.value| && members.value[i] in objs ==> !objs[members.value[i]].showInTree)
    ensures members.Some? && variant != Canonical ==> (r.value <==> members.value == [])
  {
    match members
    case None => Err(TypeError)
    case Some(ms) => Ok(if variant == Canonical then !HasShownMember(objs, ms) else ms == [])
  }

  /** "down" is offered when the row has a next sibling. */
  predicate DownAllowed(sib: seq<Node>, k: nat) {
    k + 1 < |sib|
  }

  /** "up" is offered unless the first sibling shows the same object as the row. */
  predicate UpAllowed(sib: seq<Node>, k: nat)
    requires k < |sib|
  {
    sib[0].obj != sib[k].obj
  }

  /** Every row of a sibling list shows a different object. */
  predicate DistinctIds(sib: seq<Node>) {
    forall i, j :: 0 <= i < j < |sib| ==> sib[i].obj != sib[j].obj
  }

  /** With distinct objects, "up" is refused exactly on the first row. */
  lemma UpRefusedOnFirst(sib: seq<Node>, k: nat)
    requires k < |sib| && DistinctIds(sib)
    ensures UpAllowed(sib, k) <==> k != 0
  {
  }

  /** `initialize_buttons(model, row)`: the new sensitivities, and the exception that stopped
      the update, if any. A host enables edit, copy and delete; a submenu enables edit, not
      copy, and delete as `MenuDeletable` says; a separator enables delete only; any other item
      leaves those three as they were. Then "down" and "up" are set. */
  function ButtonsFor(variant: Variant, objs: map<nat, Obj>, f: seq<Node>, p: Path, b: Buttons): (r: (Buttons, Option<Error>))
    requires IsRow(f, p) && NodeAt(f, p).obj in objs
    ensures r.1.None? ==> r.0.down == DownAllowed(Siblings(f, p), Index(p)) &&
                          r.0.up == UpAllowed(Siblings(f, p), Index(p))
    ensures objs[NodeAt(f, p).obj].HostObj? ==> r.1 == None && r.0.edit && r.0.copy && r.0.del
    ensures objs[NodeAt(f, p).obj].SeparatorObj? ==> r.1 == None && !r.0.edit && !r.0.copy && r.0.del
    ensures objs[NodeAt(f, p).obj].MenuObj? ==>
      var d := MenuDeletable(variant, objs, objs[NodeAt(f, p).obj].members);
      r.0.edit && !r.0.copy && (d.Ok? ==> r.1 == None && r.0.del == d.value) &&
      (d.Err? ==> r.1 == Some(d.error) && r.0.del == b.del && r.0.up == b.up && r.0.down == b.down)
    ensures objs[NodeAt(f, p).obj].PlainObj? ==> r.1 == None && r.0.edit == b.edit && r.0.copy == b.copy && r.0.del == b.del
  {
    var sib := Siblings(f, p);
    var k := Index(p);
    var kindPart: (Buttons, Option<Error>) :=
      match objs[NodeAt(f, p).obj]
      case HostObj(_, _, _, _, _, _) => (b.(edit := true, copy := true, del := true), None)
      case MenuObj(_, members, _) =>
        var b1 := b.(edit := true, copy := false);
        var d := MenuDeletable(variant, objs, members);
        if d.Err? then (b1, Some(d.error)) else (b1.(del := d.value), None)
      case SeparatorObj(_, _) => (b.(edit := false, copy := false, del := true), None)
      case PlainObj(_, _) => (b, None);
    if kindPart.1.Some? then kindPart
    else (kindPart.0.(down := DownAllowed(sib, k), up := UpAllowed(sib, k)), None)
  }

  /** The rows `add_items` puts below a submenu's own row for the objects the submenu lists;
      none for another object. */
  function ChildRows(objs: map<nat, Obj>, bound: nat, id: nat): (r: Built)
    requires Ordered(objs, bound) && id in objs
    ensures RowsIn(r.rows, objs)
    ensures objs[id].MenuObj? ==> BuildRow(objs, bound, id) == Built([Node(id, r.rows)], r.ok)
    ensures !objs[id].MenuObj? ==> r == Built([], true)
  {
    match objs[id]
    case MenuObj(_, members, _) =>
      if members.None? then Built([], false) else BuildRows(objs, bound, members.value, id + 1)
    case _ => Built([], true)
  }

  /** The tree after `btn_edit_pressed` put row `p` back: the row leaves its place, and a row
      for the same object, filled from the object's own list, goes in at the index
      `get_position` finds. */
  function Reinserted(objs: map<nat, Obj>, bound: nat, f: seq<Node>, p: Path): seq<Node>
    requires Ordered(objs, bound) && IsRow(f, p) && NodeAt(f, p).obj in objs
  {
    var sib := Siblings(f, p);
    var id := NodeAt(f, p).obj;
    WithChildren(f, Parent(p), InsertAt(RemoveAt(sib, Index(p)), FirstIndex(sib, id), Node(id, ChildRows(objs, bound, id).rows)))
  }

  // ---- Positions ----

  /** The index of the first row of `s` showing object `id`; `|s|` when there is none. */
  function FirstIndex(s: seq<Node>, id: nat): (r: nat)
    ensures r <= |s| && (r < |s| ==> s[r].obj == id)
    ensures forall j :: 0 <= j < r ==> s[j].obj != id
    decreases s
  {
    if s == [] then 0 else if s[0].obj == id then 0 else 1 + FirstIndex(s[1..], id)
  }

  /** Where "up" swaps row `k` to: `btn_up_pressed` scans from the second row and stops at
      the first row showing the selected object, remembering the row before it. */
  function UpTarget(sib: seq<Node>, k: nat): (r: nat)
    requires k < |sib|
    ensures r < |sib|
  {
    FirstIndex(sib[1..], sib[k].obj)
  }

  /** With distinct objects, "up" swaps a row with the one before it, and the first row with
      the last one. */
  lemma UpTargetOfDistinct(sib: seq<Node>, k: nat)
    requires k < |sib| && DistinctIds(sib)
    ensures k > 0 ==> UpTarget(sib, k) == k - 1
    ensures k == 0 ==> UpTarget(sib, k) == |sib| - 1
  {
    var t := UpTarget(sib, k);
    if k > 0 {
      assert sib[1..][k - 1] == sib[k];
    }
  }

  /** With distinct objects, `get_position` finds the row's own index. */
  lemma FirstIndexOfDistinct(sib: seq<Node>, k: nat)
    requires k < |sib| && DistinctIds(sib)
    ensures FirstIndex(sib, sib[k].obj) == k
  {
  }

  /** Moving a row down and then up again restores the sibling list. */
  lemma DownThenUp(sib: seq<Node>, k: nat)
    requires k + 1 < |sib| && DistinctIds(sib)
    ensures var s1 := Swap(sib, k, k + 1);
      DistinctIds(s1) && UpTarget(s1, k + 1) == k && Swap(s1, k + 1, UpTarget(s1, k + 1)) == sib
  {
    var s1 := Swap(sib, k, k + 1);
    assert DistinctIds(s1) by {
      forall i, j | 0 <= i < j < |s1|
        ensures s1[i].obj != s1[j].obj
      {
        var i' := if i == k then k + 1 else if i == k + 1 then k else i;
        var j' := if j == k then k + 1 else if j == k + 1 then k else j;
        assert s1[i] == sib[i'] && s1[j] == sib[j'] && i' != j';
      }
    }
    UpTargetOfDistinct(s1, k + 1);
  }

  // ---- The dialogs' answers ----

  /** The characters Python 2's `str.strip()` removes. */
  predicate IsSpace(c: char) {
    c in {' ', '\t', '\n', '\r', '\U{000B}', '\U{000C}'}
  }

  /** Every character is white space: `strip()` leaves nothing. */
  predicate Blank(s: string) {
    forall i :: 0 <= i < |s| ==> IsSpace(s[i])
  }

  /** `s.lstrip()`: the leading white space is dropped. */
  function StripLeft(s: string): (r: string)
    ensures |r| <= |s| && r == s[|s| - |r|..] && Blank(s[..|s| - |r|])
    ensures r != [] ==> !IsSpace(r[0])
    decreases |s|
  {
    if s != [] && IsSpace(s[0]) then StripLeft(s[1..]) else s
  }

  /** `s.rstrip()`: the trailing white space is dropped. */
  function StripRight(s: string): (r: string)
    ensures |r| <= |s| && r == s[..|r|] && Blank(s[|r|..])
    ensures r != [] ==> !IsSpace(r[|r| - 1])
    decreases |s|
  {
    if s != [] && IsSpace(s[|s| - 1]) then StripRight(s[..|s| - 1]) else s
  }

  /** `s.strip()`. */
  function Strip(s: string): string {
    StripRight(StripLeft(s))
  }

  /** Two texts together are all white space exactly when each of them is. */
  lemma BlankConcat(a: string, b: string)
    ensures Blank(a + b) <==> Blank(a) && Blank(b)
  {
    if Blank(a + b) {
      assert forall i :: 0 <= i < |a| ==> a[i] == (a + b)[i];
      assert forall i :: 0 <= i < |b| ==> b[i] == (a + b)[|a| + i];
    }
  }

  /** White space in front changes nothing about being all white space. */
  lemma BlankAfterPrefix(s: string, l: string)
    requires |l| <= |s| && l == s[|s| - |l|..] && Blank(s[..|s| - |l|])
    ensures Blank(s) <==> Blank(l)
  {
    assert s == s[..|s| - |l|] + l;
    BlankConcat(s[..|s| - |l|], l);
  }

  /** A text whose white space was stripped from the end is all white space exactly when
      nothing is left. */
  lemma BlankIffNothingLeft(l: string, r: string)
    requires |r| <= |l| && r == l[..|r|] && Blank(l[|r|..])
    requires r != [] ==> !IsSpace(r[|r| - 1])
    ensures Blank(l) <==> r == []
  {
    assert l == r + l[|r|..];
    BlankConcat(r, l[|r|..]);
  }

  /** `len(s.strip()) == 0` exactly when the text is all white space. */
  lemma BlankIffStripEmpty(s: string)
    ensures Blank(s) <==> |Strip(s)| == 0
  {
    var l := StripLeft(s);
    BlankAfterPrefix(s, l);
    BlankIffNothingLeft(l, StripRight(l));
  }


  /** What the host dialog writes into a host object when accepted (`dialog_to_host`): the
      title, the ssh parameters and the geometry as typed, the chosen profile, and whether
      `bcvi` was found. */
  datatype HostForm = HostForm(title: string, sshParams: string, geometry: string, profile: Value, enableBcvi: bool)

  /** `HostDialog.inputs_valid`: a title and a host are required. */
  predicate HostInputsValid(form: HostForm) {
    !Blank(form.title) && !Blank(form.sshParams)
  }

  /** The host dialog accepts exactly when neither the title nor the host strips to nothing. */
  lemma HostInputsValidIffStripped(form: HostForm)
    ensures HostInputsValid(form) <==> |Strip(form.title)| != 0 && |Strip(form.sshParams)| != 0
  {
    BlankIffStripEmpty(form.title);
    BlankIffStripEmpty(form.sshParams);
  }

  /** `SubmenuDialog.inputs_valid`: a title is required. */
  predicate MenuInputsValid(title: string) {
    !Blank(title)
  }

  /** The submenu dialog accepts exactly when the title does not strip to nothing. */
  lemma MenuInputsValidIffStripped(title: string)
    ensures MenuInputsValid(title) <==> |Strip(title)| != 0
  {
    BlankIffStripEmpty(title);
  }

  /** An object after an accepted edit: the host dialog rewrites a host's fields; the submenu
      dialog, used for every other kind, rewrites the title. */
  function Edited(o: Obj, hostForm: HostForm, title: string): (r: Obj)
    ensures r.showInTree == o.showInTree
    ensures o.HostObj? ==> r == HostObj(Str(hostForm.title), hostForm.profile, Str(hostForm.geometry),
                                         Str(hostForm.sshParams), hostForm.enableBcvi, o.showInTree)
    ensures !o.HostObj? ==> r.display == Str(title) && r.MenuObj? == o.MenuObj? && r.SeparatorObj? == o.SeparatorObj?
    ensures o.MenuObj? ==> r.members == o.members
  {
    match o
    case HostObj(_, _, _, _, _, t) =>
      HostObj(Str(hostForm.title), hostForm.profile, Str(hostForm.geometry), Str(hostForm.sshParams), hostForm.enableBcvi, t)
    case MenuObj(_, members, t) => MenuObj(Str(title), members, t)
    case SeparatorObj(_, t) => SeparatorObj(Str(title), t)
    case PlainObj(_, t) => PlainObj(Str(title), t)
  }

  /** The object after the dialog `btn_edit_pressed` opens for it, the host dialog for a host
      and the submenu dialog for any other item; `None` when the dialog was cancelled. */
  function EditAnswer(o: Obj, hostAnswer: Option<HostForm>, titleAnswer: Option<string>): (r: Option<Obj>)
    ensures r.None? <==> (if o.HostObj? then hostAnswer.None? else titleAnswer.None?)
    ensures r.Some? && o.HostObj? ==> r.value == Edited(o, hostAnswer.value, "")
    ensures r.Some? && !o.HostObj? ==> r.value.display == Str(titleAnswer.value)
    ensures r.Some? ==> r.value.MenuObj? == o.MenuObj? && (o.MenuObj? ==> r.value.members == o.members)
  {
    if o.HostObj? then
      (if hostAnswer.None? then None else Some(Edited(o, hostAnswer.value, "")))
    else
      (if titleAnswer.None? then None else Some(Edited(o, HostForm("", "", "", Null, false), titleAnswer.value)))
  }

  /** Where `add_new` appends: inside a selected submenu, next to another selected row, or at
      the top level when nothing is selected. */
  function AddNewParent(objs: map<nat, Obj>, f: seq<Node>, sel: Option<Path>): (r: Path)
    requires sel.Some? ==> IsRow(f, sel.value) && NodeAt(f, sel.value).obj in objs
    ensures Addresses(f, r)
    ensures sel.None? ==> r == []
    ensures sel.Some? && objs[NodeAt(f, sel.value).obj].MenuObj? ==> r == sel.value
    ensures sel.Some? && !objs[NodeAt(f, sel.value).obj].MenuObj? ==> r == Parent(sel.value)
  {
    match sel
    case None => []
    case Some(p) => if objs[NodeAt(f, p).obj].MenuObj? then p else Parent(p)
  }

  /** Where `btn_sep_pressed` inserts: first at the top level with nothing selected, first
      inside a selected submenu, otherwise right after the selected row. */
  function SeparatorPlace(objs: map<nat, Obj>, f: seq<Node>, sel: Option<Path>): (r: (Path, nat))
    requires sel.Some? ==> IsRow(f, sel.value) && NodeAt(f, sel.value).obj in objs
    ensures Addresses(f, r.0)
    ensures sel.None? ==> r == ([], 0)
    ensures sel.Some? && objs[NodeAt(f, sel.value).obj].MenuObj? ==> r == (sel.value, 0)
    ensures sel.Some? && !objs[NodeAt(f, sel.value).obj].MenuObj? ==>
      r.0 == Parent(sel.value) &&
      r.1 == FirstIndex(Siblings(f, sel.value), NodeAt(f, sel.value).obj) + 1
  {
    match sel
    case None => ([], 0)
    case Some(p) =>
      if objs[NodeAt(f, p).obj].MenuObj? then (p, 0)
      else (Parent(p), FirstIndex(Siblings(f, p), NodeAt(f, p).obj) + 1)
  }

  /** The identities of the rows in tree order. */
  function RowIds(rows: seq<Node>): seq<nat>
    decreases rows
  {
    if rows == [] then [] else [rows[0].obj] + RowIds(rows[0].children) + RowIds(rows[1..])
  }

  /** The first occurrence of `id` taken out of a list (`list.remove`); the list is unchanged
      when `id` is not in it. */
  function RemoveFirst(ms: seq<nat>, id: nat): (r: seq<nat>)
    ensures id in ms ==> |r| == |ms| - 1 && multiset(r) == multiset(ms) - multiset{id}
    ensures id !in ms ==> r == ms
    decreases ms
  {
    if ms == [] then []
    else if ms[0] == id then (assert ms == [ms[0]] + ms[1..]; ms[1..])
    else (assert ms == [ms[0]] + ms[1..]; [ms[0]] + RemoveFirst(ms[1..], id))
  }

  lemma RowsInChildren(f: seq<Node>, p: Path, objs: map<nat, Obj>)
    requires Addresses(f, p) && RowsIn(f, objs)
    ensures RowsIn(ChildrenAt(f, p), objs)
    decreases p
  {
    if p != [] {
      RowsInChildren(f[p[0]].children, p[1..], objs);
    }
  }

  lemma RowsInWith(f: seq<Node>, p: Path, s: seq<Node>, objs: map<nat, Obj>)
    requires Addresses(f, p) && RowsIn(f, objs) && RowsIn(s, objs)
    ensures RowsIn(WithChildren(f, p, s), objs)
    decreases p
  {
    if p != [] {
      RowsInWith(f[p[0]].children, p[1..], s, objs);
    }
  }

  lemma RowsInWider(rows: seq<Node>, objs: map<nat, Obj>, id: nat, o: Obj)
    requires RowsIn(rows, objs)
    ensures RowsIn(rows, objs[id := o])
    decreases rows
  {
    forall i | 0 <= i < |rows| {
      RowsInWider(rows[i].children, objs, id, o);
    }
  }

  lemma OrderedUpdate(objs: map<nat, Obj>, bound: nat, id: nat, o: Obj)
    requires Ordered(objs, bound) && id in objs
    requires o.MenuObj? && o.members.Some? ==>
      objs[id].MenuObj? && objs[id].members.Some? &&
      forall i :: 0 <= i < |o.members.value| ==> o.members.value[i] in objs[id].members.value
    ensures Ordered(objs[id := o], bound)
  {
    var objs' := objs[id := o];
    forall q, i | q in objs' && objs'[q].MenuObj? && objs'[q].members.Some? && 0 <= i < |objs'[q].members.value|
      ensures q < objs'[q].members.value[i] && objs'[q].members.value[i] in objs'
    {
      if q == id {
        var m := o.members.value[i];
        var j :| 0 <= j < |objs[id].members.value| && objs[id].members.value[j] == m;
      }
    }
  }

  /** The dialog's tree and the objects its rows show. */
  class PreferencesDialog {
    const variant: Variant
    var objs: map<nat, Obj>
    var bound: nat
    var model: seq<Node>
    var buttons: Buttons

    ghost predicate Valid()
      reads this
    {
      Ordered(objs, bound) && RowsIn(model, objs)
    }

    /** The dialog with the tree built from the configuration's objects (`add_items` on the
        top-level list); all buttons start disabled. */
    constructor(variant: Variant, objs: map<nat, Obj>, bound: nat, top: seq<nat>)
      requires Ordered(objs, bound) && Members(objs, top, 0)
      ensures Valid() && this.variant == variant && this.objs == objs && this.bound == bound
      ensures model == BuildRows(objs, bound, top, 0).rows
      ensures buttons == Buttons(false, false, false, false, false)
    {
      this.variant := variant;
      this.objs := objs;
      this.bound := bound;
      model := [];
      buttons := Buttons(false, false, false, false, false);
      new;
      var _ := AddItems([], top, 0);
    }

    /** `add_items(parent, items)`: appends the rows for `ids` below `p`, depth first. */
    method AddItems(p: Path, ids: seq<nat>, ghost floor: nat) returns (ok: bool)
      requires Valid() && Addresses(model, p) && Members(objs, ids, floor) && floor <= bound
      modifies this`model
      ensures Valid() && Addresses(model, p)
      ensures var b := BuildRows(objs, bound, ids, floor);
        ok == b.ok && model == WithChildren(old(model), p, ChildrenAt(old(model), p) + b.rows)
      decreases bound - floor, |ids|
    {
      ghost var start := ChildrenAt(model, p);
      WithSameChildren(model, p);
      var i := 0;
      assert ids[..0] == [] && start + [] == start;
      while i < |ids|
        invariant 0 <= i <= |ids| && Valid() && Addresses(model, p)
        invariant BuildRows(objs, bound, ids[..i], floor).ok
        invariant model == WithChildren(old(model), p, start + BuildRows(objs, bound, ids[..i], floor).rows)
      {
        ghost var pre := BuildRows(objs, bound, ids[..i], floor).rows;
        BuildRowsSnoc(objs, bound, ids, floor, i);
        var rowOk := AddItem(p, ids[i]);
        ghost var b := BuildRow(objs, bound, ids[i]);
        AppendTwice(old(model), p, start + pre, b.rows);
        Associative(start, pre, b.rows);
        if !rowOk {
          BuildRowsStops(objs, bound, ids, floor, i + 1);
          return false;
        }
        i := i + 1;
      }
      assert ids[..i] == ids;
      ok := true;
    }

    /** One pass of the loop in `add_items`: a submenu gets a row, then its children's rows
        below it; another object gets a row when it is shown in the tree. */
    method AddItem(p: Path, id: nat) returns (ok: bool)
      requires Valid() && Addresses(model, p) && id in objs
      modifies this`model
      ensures Valid() && Addresses(model, p)
      ensures var b := BuildRow(objs, bound, id);
        ok == b.ok && model == WithChildren(old(model), p, ChildrenAt(old(model), p) + b.rows)
      decreases bound - id, 0
    {
      var o := objs[id];
      if o.MenuObj? {
        ghost var s := ChildrenAt(model, p);
        var n := |ChildrenAt(model, p)|;
        AppendRow(p, id);
        if o.members.None? {
          return false;
        }
        ghost var c := BuildRows(objs, bound, o.members.value, id + 1).rows;
        FillRow(old(model), p, s + [Node(id, [])], n, c);
        ok := AddItems(p + [n], o.members.value, id + 1);
        assert [] + c == c;
        assert (s + [Node(id, [])])[n := Node(id, c)] == s + [Node(id, c)];
      } else if o.showInTree {
        AppendRow(p, id);
        ok := true;
      } else {
        WithSameChildren(model, p);
        assert ChildrenAt(model, p) + [] == ChildrenAt(model, p);
        ok := true;
      }
    }

    /** The rows below `q` replaced by `s`. */
    method SetChildren(q: Path, s: seq<Node>)
      requires Valid() && Addresses(model, q) && RowsIn(s, objs)
      modifies this`model
      ensures Valid() && model == WithChildren(old(model), q, s)
    {
      RowsInWith(model, q, s, objs);
      model := WithChildren(model, q, s);
    }

    /** `model.append(parent, [item])`. */
    method AppendRow(p: Path, id: nat)
      requires Valid() && Addresses(model, p) && id in objs
      modifies this`model
      ensures Valid() && Addresses(model, p)
      ensures model == WithChildren(old(model), p, ChildrenAt(old(model), p) + [Node(id, [])])
    {
      RowsInChildren(model, p, objs);
      RowsInConcat(ChildrenAt(model, p), [Node(id, [])], objs);
      RowsInWith(model, p, ChildrenAt(model, p) + [Node(id, [])], objs);
      model := WithChildren(model, p, ChildrenAt(model, p) + [Node(id, [])]);
    }

    /** `initialize_buttons(model, selected)`. */
    method InitializeButtons(sel: Option<Path>) returns (err: Option<Error>)
      requires Valid() && (sel.Some? ==> IsRow(model, sel.value))
      modifies this`buttons
      ensures sel.None? ==> buttons == old(buttons) && err == None
      ensures sel.Some? ==> NodeAt(model, sel.value).obj in objs && (buttons, err) == ButtonsFor(variant, objs, model, sel.value, old(buttons))
    {
      if sel.None? {
        return None;
      }
      var p := sel.value;
      RowsInNode(model, p, objs);
      var pp := Parent(p);
      var sib := Siblings(model, p);
      var k := Index(p);
      var selected := objs[sib[k].obj];
      match selected {
      case HostObj(_, _, _, _, _, _) =>
        buttons := buttons.(edit := true, copy := true, del := true);
      case MenuObj(_, members, _) =>
        buttons := buttons.(edit := true, copy := false);
        var d := MenuDeletable(variant, objs, members);
        if d.Err? {
          return Some(d.error);
        }
        buttons := buttons.(del := d.value);
      case SeparatorObj(_, _) =>
        buttons := buttons.(edit := false, copy := false, del := true);
      case PlainObj(_, _) =>
      }
      buttons := buttons.(down := k + 1 < |sib|);
      buttons := buttons.(up := sib[0].obj != sib[k].obj);
      err := None;
    }

    /** `get_position(row)`: the parent and the index of the first sibling showing the same
        object as the row. */
    method GetPosition(p: Path) returns (pp: Path, position: nat)
      requires IsRow(model, p)
      ensures pp == Parent(p) && Addresses(model, pp)
      ensures position == FirstIndex(Siblings(model, p), NodeAt(model, p).obj) && position <= Index(p)
    {
      pp := Parent(p);
      var sib := Siblings(model, p);
      var current := sib[Index(p)].obj;
      position := 0;
      while sib[position].obj != current
        invariant position <= Index(p)
        decreases Index(p) - position
        invariant forall j :: 0 <= j < position ==> sib[j].obj != current
      {
        position := position + 1;
      }
    }

    /** `btn_up_pressed`: swaps the selected row with the row `UpTarget` names, then updates
        the buttons for the moved row. Without a selection the handler raises first. */
    method BtnUp(sel: Option<Path>) returns (err: Option<Error>)
      requires Valid() && (sel.Some? ==> IsRow(model, sel.value))
      modifies this`model, this`buttons
      ensures Valid()
      ensures sel.None? ==> model == old(model) && buttons == old(buttons) && err == Some(TypeError)
      ensures sel.Some? ==> var p := sel.value; var sib := Siblings(old(model), p);
        var t := UpTarget(sib, Index(p));
        model == WithChildren(old(model), Parent(p), Swap(sib, Index(p), t)) &&
        IsRow(model, Parent(p) + [t]) && NodeAt(model, Parent(p) + [t]).obj in objs &&
        (buttons, err) == ButtonsFor(variant, objs, model, Parent(p) + [t], old(buttons))
    {
      if sel.None? {
        return Some(TypeError);
      }
      var p := sel.value;
      var pp := Parent(p);
      var sib := Siblings(model, p);
      var k := Index(p);
      var current := sib[k].obj;
      var last := 0;
      var j := 1;
      while j < |sib|
        invariant 1 <= j <= |sib| && last == j - 1
        invariant forall i :: 1 <= i < j ==> sib[i].obj != current
      {
        if sib[j].obj == current {
          break;
        }
        last := j;
        j := j + 1;
      }
      assert forall i :: 0 <= i < last ==> sib[1..][i].obj != current;
      assert last < |sib| - 1 ==> sib[1..][last].obj == current;
      assert last == UpTarget(sib, k);
      RowsInChildren(model, pp, objs);
      model := WithChildren(model, pp, Swap(sib, k, last));
      RowsInWith(old(model), pp, Swap(sib, k, last), objs);
      ChildIsRow(model, pp, last);
      err := InitializeButtons(Some(pp + [last]));
    }

    /** `btn_down_pressed`: swaps the selected row with the next one, if there is one. */
    method BtnDown(sel: Option<Path>) returns (err: Option<Error>)
      requires Valid() && (sel.Some? ==> IsRow(model, sel.value))
      modifies this`model, this`buttons
      ensures Valid()
      ensures sel.None? ==> model == old(model) && buttons == old(buttons) && err == Some(TypeError)
      ensures sel.Some? ==> var p := sel.value; var sib := Siblings(old(model), p); var k := Index(p);
        (k + 1 == |sib| ==> model == old(model) && buttons == old(buttons) && err == None) &&
        (k + 1 < |sib| ==>
          model == WithChildren(old(model), Parent(p), Swap(sib, k, k + 1)) &&
          IsRow(model, Parent(p) + [k + 1]) && NodeAt(model, Parent(p) + [k + 1]).obj in objs &&
          (buttons, err) == ButtonsFor(variant, objs, model, Parent(p) + [k + 1], old(buttons)))
    {
      if sel.None? {
        return Some(TypeError);
      }
      var p := sel.value;
      var pp := Parent(p);
      var sib := Siblings(model, p);
      var k := Index(p);
      if k + 1 < |sib| {
        RowsInChildren(model, pp, objs);
        model := WithChildren(model, pp, Swap(sib, k, k + 1));
        RowsInWith(old(model), pp, Swap(sib, k, k + 1), objs);
        ChildIsRow(model, pp, k + 1);
        err := InitializeButtons(Some(pp + [k + 1]));
      } else {
        err := None;
      }
    }

    /** A new item object with the next identity. */
    method NewObject(o: Obj) returns (id: nat)
      requires Valid() && !(o.MenuObj? && o.members.Some? && o.members.value != [])
      modifies this`objs, this`bound
      ensures Valid() && id == old(bound) && bound == old(bound) + 1 && objs == old(objs)[id := o]
    {
      id := bound;
      RowsInWider(model, objs, id, o);
      objs := objs[id := o];
      bound := bound + 1;
    }

    /** `add_new(model, selected, item)`: appends the rows for the object at the end of the
        place `AddNewParent` chooses. */
    method AddNew(sel: Option<Path>, id: nat) returns (ok: bool)
      requires Valid() && id in objs && (sel.Some? ==> IsRow(model, sel.value))
      modifies this`model
      ensures Valid()
      ensures sel.Some? ==> NodeAt(old(model), sel.value).obj in objs
      ensures var q := AddNewParent(objs, old(model), sel); var b := BuildRow(objs, bound, id);
        ok == b.ok && model == WithChildren(old(model), q, ChildrenAt(old(model), q) + b.rows)
    {
      if sel.Some? {
        RowsInNode(model, sel.value, objs);
      }
      var q := AddNewParent(objs, model, sel);
      var h := BuildRow(objs, bound, id);
      assert [id][1..] == [] && h.rows + [] == h.rows;
      assert BuildRows(objs, bound, [id], 0) == h;
      ok := AddItems(q, [id], 0);
    }

    /** `btn_add_pressed`: the host dialog's answer, if accepted, becomes a new host appended
        where `add_new` chooses. */
    method BtnAdd(sel: Option<Path>, answer: Option<HostForm>)
      requires Valid() && (sel.Some? ==> IsRow(model, sel.value))
      requires answer.Some? ==> HostInputsValid(answer.value)
      modifies this`model, this`objs, this`bound
      ensures Valid()
      ensures answer.None? ==> model == old(model) && objs == old(objs) && bound == old(bound)
      ensures answer.Some? ==> var f := answer.value; var id := old(bound);
        var host := HostObj(Str(f.title), f.profile, Str(f.geometry), Str(f.sshParams), f.enableBcvi, true);
        objs == old(objs)[id := host] && bound == id + 1 &&
        (sel.Some? ==> NodeAt(old(model), sel.value).obj in old(objs)) &&
        var q := AddNewParent(old(objs), old(model), sel);
        model == WithChildren(old(model), q, ChildrenAt(old(model), q) + [Node(id, [])])
    {
      if answer.None? {
        return;
      }
      var f := answer.value;
      if sel.Some? {
        RowsInNode(model, sel.value, objs);
      }
      var id := NewObject(HostObj(Str(f.title), f.profile, Str(f.geometry), Str(f.sshParams), f.enableBcvi, true));
      RowsInNodeWider(old(model), sel, old(objs), id, objs[id]);
      var _ := AddNew(sel, id);
    }

    /** `btn_menu_pressed`: the submenu dialog's answer, if accepted, becomes a new submenu
        appended where `add_new` chooses. SSHMenu.py's and sshmenu_indicator/App.py's `MenuItem`
        start with an empty list; the package's with none, so appending its row ends in
        `TypeError`. */
    method BtnMenu(sel: Option<Path>, title: Option<string>) returns (ok: bool)
      requires Valid() && (sel.Some? ==> IsRow(model, sel.value))
      requires title.Some? ==> MenuInputsValid(title.value)
      modifies this`model, this`objs, this`bound
      ensures Valid()
      ensures title.None? ==> model == old(model) && objs == old(objs) && bound == old(bound) && ok
      ensures title.Some? ==> var id := old(bound);
        var menu := MenuObj(Str(title.value), if variant == Package then None else Some([]), true);
        objs == old(objs)[id := menu] && bound == id + 1 && (ok <==> variant != Package) &&
        (sel.Some? ==> NodeAt(old(model), sel.value).obj in old(objs)) &&
        var q := AddNewParent(old(objs), old(model), sel);
        model == WithChildren(old(model), q, ChildrenAt(old(model), q) + [Node(id, [])])
    {
      if title.None? {
        return true;
      }
      if sel.Some? {
        RowsInNode(model, sel.value, objs);
      }
      var members: Option<seq<nat>> := if variant == Package then None else Some([]);
      var id := NewObject(MenuObj(Str(title.value), members, true));
      RowsInNodeWider(old(model), sel, old(objs), id, objs[id]);
      assert BuildRows(objs, bound, [], id + 1) == Built([], true);
      ok := AddNew(sel, id);
    }

    /** `btn_sep_pressed`: a new separator inserted where `SeparatorPlace` says. */
    method BtnSep(sel: Option<Path>)
      requires Valid() && (sel.Some? ==> IsRow(model, sel.value))
      modifies this`model, this`objs, this`bound
      ensures Valid()
      ensures var id := old(bound);
        objs == old(objs)[id := SeparatorObj(Str(SEPARATOR_LABEL), true)] && bound == id + 1 &&
        (sel.Some? ==> NodeAt(old(model), sel.value).obj in old(objs)) &&
        var (q, k) := SeparatorPlace(old(objs), old(model), sel);
        model == WithChildren(old(model), q, InsertAt(ChildrenAt(old(model), q), k, Node(id, [])))
    {
      if sel.Some? {
        RowsInNode(model, sel.value, objs);
      }
      ghost var place := SeparatorPlace(objs, model, sel);
      var id := NewObject(SeparatorObj(Str(SEPARATOR_LABEL), true));
      RowsInNodeWider(old(model), sel, old(objs), id, objs[id]);
      var parent: Path := [];
      var position := 0;
      if sel.Some? {
        var p := sel.value;
        parent := p;
        if !objs[NodeAt(model, p).obj].MenuObj? {
          parent, position := GetPosition(p);
          position := position + 1;
        }
      }
      assert (parent, position) == place;
      InsertRowsIn(model, parent, position, Node(id, []), objs);
      model := WithChildren(model, parent, InsertAt(ChildrenAt(model, parent), position, Node(id, [])));
    }

    /** `btn_edit_pressed`: when the dialog is accepted the object is rewritten in place, its
        row is removed and a row for it is inserted at the index `get_position` found; for a
        submenu, rows for the objects its own list names are then added below it. */
    method BtnEdit(sel: Option<Path>, hostAnswer: Option<HostForm>, titleAnswer: Option<string>) returns (ok: bool)
      requires Valid() && (sel.Some? ==> IsRow(model, sel.value))
      requires hostAnswer.Some? ==> HostInputsValid(hostAnswer.value)
      requires titleAnswer.Some? ==> MenuInputsValid(titleAnswer.value)
      modifies this`model, this`objs
      ensures Valid()
      ensures sel.None? ==> model == old(model) && objs == old(objs) && ok
      ensures sel.Some? ==> NodeAt(old(model), sel.value).obj in old(objs)
      ensures sel.Some? ==>
        var p := sel.value; var id := NodeAt(old(model), p).obj; var o := old(objs)[id];
        var e := EditAnswer(o, hostAnswer, titleAnswer);
        (e.None? ==> model == old(model) && objs == old(objs) && ok) &&
        (e.Some? ==>
          objs == old(objs)[id := e.value] && ok == ChildRows(objs, bound, id).ok &&
          model == Reinserted(objs, bound, old(model), p))
    {
      if sel.None? {
        return true;
      }
      var p := sel.value;
      RowsInNode(model, p, objs);
      var id := NodeAt(model, p).obj;
      var o := objs[id];
      var e := EditAnswer(o, hostAnswer, titleAnswer);
      if e.None? {
        return true;
      }
      Rewrite(id, e.value);
      ok := Reinsert(p);
    }

    /** An object rewritten in place by a dialog: same identity, same list of children. */
    method Rewrite(id: nat, o: Obj)
      requires Valid() && id in objs
      requires o.MenuObj? == objs[id].MenuObj? && (o.MenuObj? ==> o.members == objs[id].members)
      modifies this`objs
      ensures Valid() && objs == old(objs)[id := o]
    {
      OrderedUpdate(objs, bound, id, o);
      RowsInWider(model, objs, id, o);
      objs := objs[id := o];
    }

    /** The end of `btn_edit_pressed`: the row is removed, a row for the same object is
        inserted at the index `get_position` found, and for a submenu `add_items` fills it from
        the submenu's own list. */
    method Reinsert(p: Path) returns (ok: bool)
      requires Valid() && IsRow(model, p)
      modifies this`model
      ensures Valid()
      ensures NodeAt(old(model), p).obj in objs
      ensures ok == ChildRows(objs, bound, NodeAt(old(model), p).obj).ok
      ensures model == Reinserted(objs, bound, old(model), p)
    {
      RowsInNode(model, p, objs);
      var id := NodeAt(model, p).obj;
      FilledIsReinserted(objs, bound, model, p);
      var pp, position := ReplaceRow(p);
      ok := FillChildren(pp + [position], id);
    }

    /** `add_items` below the empty row `q` just inserted for object `id`: for a submenu the
        rows of the objects it lists; nothing for another object. */
    method FillChildren(q: Path, id: nat) returns (ok: bool)
      requires Valid() && Addresses(model, q) && ChildrenAt(model, q) == [] && id in objs
      modifies this`model
      ensures Valid()
      ensures ok == ChildRows(objs, bound, id).ok
      ensures model == WithChildren(old(model), q, ChildRows(objs, bound, id).rows)
    {
      var o := objs[id];
      if !o.MenuObj? || o.members.None? {
        WithSameChildren(model, q);
        return !o.MenuObj?;
      }
      ok := AddItems(q, o.members.value, id + 1);
      assert [] + ChildRows(objs, bound, id).rows == ChildRows(objs, bound, id).rows;
    }

    /** `get_position`, `remove` and `insert` in `btn_edit_pressed`: the row leaves its place
        and an empty row for the same object goes where `get_position` found it. */
    method ReplaceRow(p: Path) returns (pp: Path, position: nat)
      requires Valid() && IsRow(model, p)
      modifies this`model
      ensures Valid() && pp == Parent(p) && NodeAt(old(model), p).obj in objs
      ensures var sib := Siblings(old(model), p); var id := NodeAt(old(model), p).obj;
        position == FirstIndex(sib, id) && position <= Index(p) &&
        model == WithChildren(old(model), pp, InsertAt(RemoveAt(sib, Index(p)), position, Node(id, [])))
    {
      RowsInNode(model, p, objs);
      var id := NodeAt(model, p).obj;
      pp, position := GetPosition(p);
      var sib := Siblings(model, p);
      var k := Index(p);
      RowsInChildren(model, pp, objs);
      RemoveRowsIn(sib, k, objs);
      InsertRowsInList(RemoveAt(sib, k), position, Node(id, []), objs);
      SetChildren(pp, InsertAt(RemoveAt(sib, k), position, Node(id, [])));
    }

    /** `btn_edit_pressed` as evidently intended: the object is rewritten in place and every
        row stays, including the rows added below a submenu since the dialog opened. */
    method BtnEditKeepingRows(sel: Option<Path>, hostAnswer: Option<HostForm>, titleAnswer: Option<string>)
      requires Valid() && (sel.Some? ==> IsRow(model, sel.value))
      requires hostAnswer.Some? ==> HostInputsValid(hostAnswer.value)
      requires titleAnswer.Some? ==> MenuInputsValid(titleAnswer.value)
      modifies this`objs
      ensures Valid() && model == old(model)
      ensures sel.None? ==> objs == old(objs)
      ensures sel.Some? ==> NodeAt(model, sel.value).obj in old(objs)
      ensures sel.Some? ==>
        var id := NodeAt(model, sel.value).obj;
        var e := EditAnswer(old(objs)[id], hostAnswer, titleAnswer);
        objs == if e.None? then old(objs) else old(objs)[id := e.value]
    {
      if sel.None? {
        return;
      }
      RowsInNode(model, sel.value, objs);
      var id := NodeAt(model, sel.value).obj;
      var e := EditAnswer(objs[id], hostAnswer, titleAnswer);
      if e.Some? {
        Rewrite(id, e.value);
      }
    }

    /** `btn_copy_pressed`: a copy of the selected host, filled in by the host dialog, is
        inserted right after the first row showing the original. The host dialog cannot show
        another kind of item: it fails reading `ssh_params`. */
    method BtnCopy(sel: Option<Path>, answer: Option<HostForm>) returns (err: Option<Error>)
      requires Valid() && (sel.Some? ==> IsRow(model, sel.value))
      requires answer.Some? ==> HostInputsValid(answer.value)
      modifies this`model, this`objs, this`bound
      ensures Valid()
      ensures sel.None? ==> model == old(model) && objs == old(objs) && bound == old(bound) && err == None
      ensures sel.Some? ==> NodeAt(old(model), sel.value).obj in old(objs)
      ensures sel.Some? ==>
        var p := sel.value; var o := old(objs)[NodeAt(old(model), p).obj];
        (!o.HostObj? ==> model == old(model) && objs == old(objs) && bound == old(bound) && err == Some(AttributeError("ssh_params"))) &&
        (o.HostObj? && answer.None? ==> model == old(model) && objs == old(objs) && bound == old(bound) && err == None) &&
        (o.HostObj? && answer.Some? ==>
          var f := answer.value; var id := old(bound);
          var sib := Siblings(old(model), p);
          err == None && bound == id + 1 &&
          objs == old(objs)[id := HostObj(Str(f.title), f.profile, Str(f.geometry), Str(f.sshParams), f.enableBcvi, o.showInTree)] &&
          model == WithChildren(old(model), Parent(p), InsertAt(sib, FirstIndex(sib, NodeAt(old(model), p).obj) + 1, Node(id, []))))
    {
      if sel.None? {
        return None;
      }
      var p := sel.value;
      RowsInNode(model, p, objs);
      var o := objs[NodeAt(model, p).obj];
      if !o.HostObj? {
        return Some(AttributeError("ssh_params"));
      }
      if answer.None? {
        return None;
      }
      var f := answer.value;
      var id := NewObject(HostObj(Str(f.title), f.profile, Str(f.geometry), Str(f.sshParams), f.enableBcvi, o.showInTree));
      InsertAfter(p, id);
      err := None;
    }

    /** The copy's row goes in right after the first row showing the same object as row `p`. */
    method InsertAfter(p: Path, id: nat)
      requires Valid() && IsRow(model, p) && id in objs
      modifies this`model
      ensures Valid()
      ensures var sib := Siblings(old(model), p);
        model == WithChildren(old(model), Parent(p), InsertAt(sib, FirstIndex(sib, NodeAt(old(model), p).obj) + 1, Node(id, [])))
    {
      var pp, position := GetPosition(p);
      InsertRowsIn(model, pp, position + 1, Node(id, []), objs);
      model := WithChildren(model, pp, InsertAt(ChildrenAt(model, pp), position + 1, Node(id, [])));
    }

    /** `btn_del_pressed`: removes the selected row with everything below it. SSHMenu.py first
        takes the object out of its parent submenu's list; the other dialogs leave that list as
        it is. */
    method BtnDel(sel: Option<Path>) returns (err: Option<Error>)
      requires Valid() && (sel.Some? ==> IsRow(model, sel.value))
      modifies this`model, this`objs
      ensures Valid()
      ensures sel.None? ==> model == old(model) && objs == old(objs) && err == None
      ensures sel.Some? ==> var p := sel.value; var id := NodeAt(old(model), p).obj;
        var sib := Siblings(old(model), p);
        var removed := WithChildren(old(model), Parent(p), RemoveAt(sib, Index(p)));
        (variant != Canonical || |p| == 1 ==> model == removed && objs == old(objs) && err == None) &&
        (variant == Canonical && |p| > 1 ==>
          IsRow(old(model), Parent(p)) && NodeAt(old(model), Parent(p)).obj in old(objs) &&
          var parentObj := old(objs)[NodeAt(old(model), Parent(p)).obj];
          (!parentObj.MenuObj? ==> model == removed && objs == old(objs) && err == None) &&
          (parentObj.MenuObj? && parentObj.members.None? ==> model == old(model) && objs == old(objs) && err == Some(TypeError)) &&
          (parentObj.MenuObj? && parentObj.members.Some? ==>
             model == removed && err == None &&
             objs == old(objs)[NodeAt(old(model), Parent(p)).obj := parentObj.(members := Some(RemoveFirst(parentObj.members.value, id)))]))
    {
      if sel.None? {
        return None;
      }
      var p := sel.value;
      var pp := Parent(p);
      var k := Index(p);
      var sib := Siblings(model, p);
      var id := sib[k].obj;
      if variant == Canonical && |p| > 1 {
        ParentIsRow(model, p);
        RowsInNode(model, pp, objs);
        var parentId := NodeAt(model, pp).obj;
        var parentObj := objs[parentId];
        if parentObj.MenuObj? {
          if parentObj.members.None? {
            return Some(TypeError);
          }
          var o' := parentObj.(members := Some(RemoveFirst(parentObj.members.value, id)));
          RemoveFirstSubset(parentObj.members.value, id);
          OrderedUpdate(objs, bound, parentId, o');
          RowsInWider(model, objs, parentId, o');
          objs := objs[parentId := o'];
        }
      }
      RowsInChildren(model, pp, objs);
      RemoveRowsIn(sib, k, objs);
      RowsInWith(model, pp, RemoveAt(sib, k), objs);
      model := WithChildren(model, pp, RemoveAt(sib, k));
      err := None;
    }
  }

  // ---- Findings ----

  /** `btn_edit_pressed` rebuilds a submenu's rows from the submenu's own list, which the
      dialog never extends: a host added below a submenu with "add" disappears from the tree
      when the submenu is then edited, and is not saved. The tree is the one the constructor
      builds for one empty submenu, after `add_new` put a host below it. */
  lemma EditDropsAddedRows()
    ensures Ordered(map[0 := EmptyMenu()], 1) && Ordered(WithHost(), 2)
    ensures BuildRows(map[0 := EmptyMenu()], 1, [0], 0).rows == [Node(0, [])]
    ensures var built := [Node(0, [])];
      WithChildren(built, AddNewParent(WithHost(), built, Some([0])), ChildrenAt(built, [0]) + BuildRow(WithHost(), 2, 1).rows)
        == [Node(0, [Node(1, [])])]
    ensures RowIds([Node(0, [Node(1, [])])]) == [0, 1]
    ensures Reinserted(WithHost(), 2, [Node(0, [Node(1, [])])], [0]) == [Node(0, [])]
  {
    EmptyMenuBuilt();
    HostAddedBelow();
    var added := [Node(0, [Node(1, [])])];
    assert RowIds([Node(1, [])]) == [1];
    assert RowIds(added) == [0] + [1] + [];
    EditRebuildsEmpty();
  }

  /** Re-inserting the submenu's row rebuilds it from the submenu's empty list. */
  lemma EditRebuildsEmpty()
    ensures Ordered(WithHost(), 2)
    ensures Reinserted(WithHost(), 2, [Node(0, [Node(1, [])])], [0]) == [Node(0, [])]
  {
    HostAddedBelow();
    var objs := WithHost();
    assert objs[0] == EmptyMenu();
    ReinsertSingleRow(objs, 2, 0, [Node(1, [])]);
    assert ChildRows(objs, 2, 0) == BuildRows(objs, 2, [], 1) == Built([], true);
  }

  /** In a tree of one row, re-inserting that row replaces its children by what its list builds. */
  lemma ReinsertSingleRow(objs: map<nat, Obj>, bound: nat, id: nat, c: seq<Node>)
    requires Ordered(objs, bound) && id in objs
    ensures IsRow([Node(id, c)], [0])
    ensures Reinserted(objs, bound, [Node(id, c)], [0]) == [Node(id, ChildRows(objs, bound, id).rows)]
  {
    var f := [Node(id, c)];
    assert IsRow(f, [0]) && Parent([0]) == [] && Index([0]) == 0;
    assert Siblings(f, [0]) == f && NodeAt(f, [0]).obj == id;
    assert FirstIndex(f, id) == 0;
    assert RemoveAt(f, 0) == [];
  }

  function EmptyMenu(): Obj {
    MenuObj(Str("m"), Some([]), true)
  }

  function WithHost(): map<nat, Obj> {
    map[0 := EmptyMenu(), 1 := HostObj(Str("h"), Null, Null, Str("h"), false, true)]
  }

  lemma EmptyMenuBuilt()
    ensures Ordered(map[0 := EmptyMenu()], 1)
    ensures BuildRows(map[0 := EmptyMenu()], 1, [0], 0).rows == [Node(0, [])]
  {
    var before := map[0 := EmptyMenu()];
    assert BuildRows(before, 1, [], 1) == Built([], true);
    assert BuildRow(before, 1, 0) == Built([Node(0, [])], true);
    assert [0][1..] == [];
  }

  lemma HostAddedBelow()
    ensures Ordered(WithHost(), 2)
    ensures var built := [Node(0, [])];
      WithChildren(built, AddNewParent(WithHost(), built, Some([0])), ChildrenAt(built, [0]) + BuildRow(WithHost(), 2, 1).rows)
        == [Node(0, [Node(1, [])])]
  {
    var objs := WithHost();
    var built := [Node(0, [])];
    assert NodeAt(built, [0]) == Node(0, []);
    assert AddNewParent(objs, built, Some([0])) == [0];
    assert BuildRow(objs, 2, 1) == Built([Node(1, [])], true);
    assert [0][1..] == [];
    assert WithChildren([], [], [Node(1, [])]) == [Node(1, [])];
    assert [] + [Node(1, [])] == [Node(1, [])];
    assert built[0 := Node(0, [Node(1, [])])] == [Node(0, [Node(1, [])])];
  }

  /** When the rows below a submenu are what its list builds and the objects beside it are
      distinct, re-inserting its row after an edit gives back the same tree. */
  lemma ReinsertedInStep(objs: map<nat, Obj>, bound: nat, f: seq<Node>, p: Path)
    requires Ordered(objs, bound) && IsRow(f, p) && NodeAt(f, p).obj in objs
    requires DistinctIds(Siblings(f, p))
    requires NodeAt(f, p).children == ChildRows(objs, bound, NodeAt(f, p).obj).rows
    ensures Reinserted(objs, bound, f, p) == f
  {
    var sib := Siblings(f, p);
    var k := Index(p);
    FirstIndexOfDistinct(sib, k);
    RemoveThenInsert(sib, k, sib[k]);
    assert sib[k := sib[k]] == sib;
    WithSameChildren(f, Parent(p));
  }

  /** Whether `add_items` puts any row below a submenu: none exactly when every listed object
      is neither a submenu nor shown. */
  lemma {:induction false} NoRowsIff(objs: map<nat, Obj>, bound: nat, ms: seq<nat>, floor: nat)
    requires Ordered(objs, bound) && Members(objs, ms, floor)
    ensures BuildRows(objs, bound, ms, floor).rows == [] <==>
      forall i :: 0 <= i < |ms| ==> !objs[ms[i]].MenuObj? && !objs[ms[i]].showInTree
    decreases |ms|
  {
    if ms != [] {
      NoRowsIff(objs, bound, ms[1..], floor);
      assert forall i :: 1 <= i < |ms| ==> ms[1..][i - 1] == ms[i];
      var h := BuildRow(objs, bound, ms[0]);
      if h.ok {
        assert BuildRows(objs, bound, ms, floor).rows == h.rows + BuildRows(objs, bound, ms[1..], floor).rows;
      }
    }
  }

  /** SSHMenu.py's test, the evidently intended one: when every submenu a submenu lists is
      shown, as every parsed submenu is, "delete" is offered for it exactly when no row would
      be shown below it. */
  lemma CanonicalDeletableIffNoRows(objs: map<nat, Obj>, bound: nat, id: nat)
    requires Ordered(objs, bound) && id in objs && objs[id].MenuObj? && objs[id].members.Some?
    requires forall i :: 0 <= i < |objs[id].members.value| ==>
      objs[objs[id].members.value[i]].MenuObj? ==> objs[objs[id].members.value[i]].showInTree
    ensures MenuDeletable(Canonical, objs, objs[id].members) == Ok(ChildRows(objs, bound, id).rows == [])
  {
    NoRowsIff(objs, bound, objs[id].members.value, id + 1);
  }

  /** The sshmenu_indicator test counts entries that are not shown: `add_item` there puts the hidden
      "open all" entries and their separator into every submenu, empty ones included, so an
      empty submenu can no longer be deleted once the menu was built with that option on. */
  lemma PackageRefusesEmptyMenu()
    ensures var objs := map[0 := MenuObj(Str("m"), Some([1, 2]), true),
                            1 := PlainObj(Str("Open all windows"), false),
                            2 := SeparatorObj(Str(SEPARATOR_LABEL), false)];
      Ordered(objs, 3) && ChildRows(objs, 3, 0).rows == [] &&
      MenuDeletable(Package, objs, objs[0].members) == Ok(false) &&
      MenuDeletable(Monolith, objs, objs[0].members) == Ok(false) &&
      MenuDeletable(Canonical, objs, objs[0].members) == Ok(true)
  {
    var objs := map[0 := MenuObj(Str("m"), Some([1, 2]), true),
                    1 := PlainObj(Str("Open all windows"), false),
                    2 := SeparatorObj(Str(SEPARATOR_LABEL), false)];
    NoRowsIff(objs, 3, [1, 2], 1);
  }

  /** A copied host lands right after its original, which keeps its index; taking the new
      row out again gives back the list. */
  lemma CopyLandsAfterOriginal(sib: seq<Node>, k: nat, n: Node)
    requires k < |sib| && DistinctIds(sib)
    ensures var s := InsertAt(sib, FirstIndex(sib, sib[k].obj) + 1, n);
      s[k] == sib[k] && s[k + 1] == n && RemoveAt(s, k + 1) == sib
  {
    FirstIndexOfDistinct(sib, k);
    assert InsertIndex(|sib|, k + 1) == k + 1;
    InsertRemoveInverse(sib, k + 1, n);
  }

  // ---- Helper facts about rows and objects ----

  /** The tree `Reinsert` ends with: an empty row for the object goes in at its first
      position, and then the object's child rows are put below that row. */
  lemma FilledIsReinserted(objs: map<nat, Obj>, bound: nat, f: seq<Node>, p: Path)
    requires Ordered(objs, bound) && IsRow(f, p) && NodeAt(f, p).obj in objs
    ensures var sib := Siblings(f, p); var id := NodeAt(f, p).obj; var k := FirstIndex(sib, id);
      var m := WithChildren(f, Parent(p), InsertAt(RemoveAt(sib, Index(p)), k, Node(id, [])));
      var c := ChildRows(objs, bound, id).rows;
      Addresses(m, Parent(p) + [k]) && ChildrenAt(m, Parent(p) + [k]) == [] &&
      WithChildren(m, Parent(p) + [k], c) == Reinserted(objs, bound, f, p) &&
      (c == [] ==> m == Reinserted(objs, bound, f, p))
  {
    var sib := Siblings(f, p);
    var id := NodeAt(f, p).obj;
    var k := FirstIndex(sib, id);
    var r := RemoveAt(sib, Index(p));
    var s := InsertAt(r, k, Node(id, []));
    var c := ChildRows(objs, bound, id).rows;
    assert k <= Index(p) && Index(p) < |sib|;
    assert k < |s| && s[k] == Node(id, []);
    FillRow(f, Parent(p), s, k, c);
    InsertThenReplace(r, k, Node(id, []), Node(id, c));
  }

  lemma AppendTwice(f: seq<Node>, p: Path, s: seq<Node>, extra: seq<Node>)
    requires Addresses(f, p)
    ensures var m := WithChildren(f, p, s);
      WithChildren(m, p, ChildrenAt(m, p) + extra) == WithChildren(f, p, s + extra)
  {
    WithChildrenTwice(f, p, s, s + extra);
  }

  /** Filling the empty row `k` below `p` after the list there was set to `s`. */
  lemma FillRow(f: seq<Node>, p: Path, s: seq<Node>, k: nat, c: seq<Node>)
    requires Addresses(f, p) && k < |s| && s[k].children == []
    ensures var m := WithChildren(f, p, s);
      Addresses(m, p + [k]) && ChildrenAt(m, p + [k]) == [] &&
      WithChildren(m, p + [k], c) == WithChildren(f, p, s[k := Node(s[k].obj, c)])
  {
    var m := WithChildren(f, p, s);
    ChildIsRow(m, p, k);
    WithChildrenOfChild(m, p, k, c);
    WithChildrenTwice(f, p, s, s[k := Node(s[k].obj, c)]);
  }

  lemma RowsInNode(f: seq<Node>, p: Path, objs: map<nat, Obj>)
    requires IsRow(f, p) && RowsIn(f, objs)
    ensures NodeAt(f, p).obj in objs && RowsIn(NodeAt(f, p).children, objs)
  {
    RowInParent(f, p);
    RowsInChildren(f, Parent(p), objs);
  }

  lemma RowsInNodeWider(f: seq<Node>, sel: Option<Path>, objs: map<nat, Obj>, id: nat, o: Obj)
    requires sel.Some? ==> IsRow(f, sel.value) && NodeAt(f, sel.value).obj in objs && id !in objs
    ensures sel.Some? ==>
      NodeAt(f, sel.value).obj in objs[id := o] &&
      objs[id := o][NodeAt(f, sel.value).obj] == objs[NodeAt(f, sel.value).obj]
  {
  }

  lemma ParentIsRow(f: seq<Node>, p: Path)
    requires IsRow(f, p) && |p| > 1
    ensures IsRow(f, Parent(p))
  {
    RowInParent(f, p);
  }

  lemma RemoveRowsIn(s: seq<Node>, k: nat, objs: map<nat, Obj>)
    requires k < |s| && RowsIn(s, objs)
    ensures RowsIn(RemoveAt(s, k), objs)
  {
  }

  lemma InsertRowsInList(s: seq<Node>, k: nat, n: Node, objs: map<nat, Obj>)
    requires RowsIn(s, objs) && n.obj in objs && RowsIn(n.children, objs)
    ensures RowsIn(InsertAt(s, k, n), objs)
  {
  }

  lemma InsertRowsIn(f: seq<Node>, p: Path, k: nat, n: Node, objs: map<nat, Obj>)
    requires Addresses(f, p) && RowsIn(f, objs) && n.obj in objs && RowsIn(n.children, objs)
    ensures RowsIn(InsertAt(ChildrenAt(f, p), k, n), objs)
    ensures RowsIn(WithChildren(f, p, InsertAt(ChildrenAt(f, p), k, n)), objs)
  {
    RowsInChildren(f, p, objs);
    var s := InsertAt(ChildrenAt(f, p), k, n);
    assert RowsIn(s, objs);
    RowsInWith(f, p, s, objs);
  }

  lemma RemoveFirstSubset(ms: seq<nat>, id: nat)
    ensures forall i :: 0 <= i < |RemoveFirst(ms, id)| ==> RemoveFirst(ms, id)[i] in ms
  {
    var r := RemoveFirst(ms, id);
    forall i | 0 <= i < |r|
      ensures r[i] in ms
    {
      assert r[i] in multiset(r);
    }
  }
}
