/** The rows of a `Gtk.TreeStore` as an ordered forest, and the store's primitive edits
    (`insert`, `remove`, `swap`, `append`) as edits of one list of sibling rows. A `Gtk.TreeIter`
    is modelled by the path of indices leading to its row. */
module Forest {

  /** A row: the identity of the item object it displays and its child rows, in order. */
  datatype Node = Node(obj: nat, children: seq<Node>)

  /** The index of each row on the way down; the empty path stands for the invisible root,
      whose children are the top-level rows. */
  type Path = seq<nat>

  /** `p` leads to a row of `f`, or is the root. */
  predicate Addresses(f: seq<Node>, p: Path)
    decreases p
  {
    p == [] || (p[0] < |f| && Addresses(f[p[0]].children, p[1..]))
  }

  predicate IsRow(f: seq<Node>, p: Path) {
    p != [] && Addresses(f, p)
  }

  /** The rows below `p`: the top-level rows for the root. */
  function ChildrenAt(f: seq<Node>, p: Path): seq<Node>
    requires Addresses(f, p)
    decreases p
  {
    if p == [] then f else ChildrenAt(f[p[0]].children, p[1..])
  }

  function Parent(p: Path): Path
    requires p != []
  {
    p[..|p| - 1]
  }

  function Index(p: Path): nat
    requires p != []
  {
    p[|p| - 1]
  }

  lemma {:induction false} RowInParent(f: seq<Node>, p: Path)
    requires IsRow(f, p)
    ensures Addresses(f, Parent(p)) && Index(p) < |ChildrenAt(f, Parent(p))|
    decreases p
  {
    if |p| > 1 {
      RowInParent(f[p[0]].children, p[1..]);
      assert p[1..][..|p| - 2] == Parent(p)[1..];
    }
  }

  lemma {:induction false} ChildIsRow(f: seq<Node>, p: Path, n: nat)
    requires Addresses(f, p) && n < |ChildrenAt(f, p)|
    ensures IsRow(f, p + [n]) && Parent(p + [n]) == p && Index(p + [n]) == n
    ensures ChildrenAt(f, p + [n]) == ChildrenAt(f, p)[n].children
    decreases p
  {
    if p == [] {
    } else {
      assert (p + [n])[1..] == p[1..] + [n];
      ChildIsRow(f[p[0]].children, p[1..], n);
    }
    assert (p + [n])[..|p + [n]| - 1] == p;
  }

  /** The row a path leads to. */
  function NodeAt(f: seq<Node>, p: Path): (r: Node)
    requires IsRow(f, p)
    ensures Addresses(f, Parent(p)) && Index(p) < |ChildrenAt(f, Parent(p))|
    ensures r == ChildrenAt(f, Parent(p))[Index(p)]
  {
    RowInParent(f, p);
    ChildrenAt(f, Parent(p))[Index(p)]
  }

  /** The row's siblings, itself included: the rows below its parent. */
  function Siblings(f: seq<Node>, p: Path): (r: seq<Node>)
    requires IsRow(f, p)
    ensures Addresses(f, Parent(p)) && Index(p) < |r|
    ensures r == ChildrenAt(f, Parent(p)) && r[Index(p)] == NodeAt(f, p)
  {
    RowInParent(f, p);
    ChildrenAt(f, Parent(p))
  }

  /** The forest with the rows below `p` replaced by `s`; every other row is kept. */
  function WithChildren(f: seq<Node>, p: Path, s: seq<Node>): (r: seq<Node>)
    requires Addresses(f, p)
    ensures Addresses(r, p) && ChildrenAt(r, p) == s
    ensures p != [] ==> |r| == |f|
    decreases p
  {
    if p == [] then s
    else f[p[0] := Node(f[p[0]].obj, WithChildren(f[p[0]].children, p[1..], s))]
  }

  /** Replacing the rows below `p` by what is there changes nothing. */
  lemma {:induction false} WithSameChildren(f: seq<Node>, p: Path)
    requires Addresses(f, p)
    ensures WithChildren(f, p, ChildrenAt(f, p)) == f
    decreases p
  {
    if p != [] {
      WithSameChildren(f[p[0]].children, p[1..]);
    }
  }

  /** A second replacement at the same place undoes the first. */
  lemma {:induction false} WithChildrenTwice(f: seq<Node>, p: Path, s1: seq<Node>, s2: seq<Node>)
    requires Addresses(f, p)
    ensures WithChildren(WithChildren(f, p, s1), p, s2) == WithChildren(f, p, s2)
    decreases p
  {
    if p != [] {
      WithChildrenTwice(f[p[0]].children, p[1..], s1, s2);
    }
  }

  /** Replacing the children of row `p + [n]` is replacing row `n` of the list below `p`. */
  lemma {:induction false} WithChildrenOfChild(f: seq<Node>, p: Path, n: nat, c: seq<Node>)
    requires Addresses(f, p) && n < |ChildrenAt(f, p)|
    ensures Addresses(f, p + [n])
    ensures WithChildren(f, p + [n], c) ==
            WithChildren(f, p, ChildrenAt(f, p)[n := Node(ChildrenAt(f, p)[n].obj, c)])
    decreases p
  {
    ChildIsRow(f, p, n);
    if p != [] {
      assert (p + [n])[0] == p[0] && (p + [n])[1..] == p[1..] + [n];
      WithChildrenOfChild(f[p[0]].children, p[1..], n, c);
    }
  }

  predicate IsPrefix(q: Path, p: Path) {
    |q| <= |p| && p[..|q|] == q
  }

  /** Nothing else changes: the rows below any place that neither contains nor lies inside
      `p` are the same after the replacement; the places above `p` keep their rows in order,
      each with the same identity, and every one of them but the one leading to `p` unchanged. */
  lemma {:induction false} WithChildrenFrame(f: seq<Node>, p: Path, s: seq<Node>, q: Path)
    requires Addresses(f, p) && Addresses(f, q)
    ensures var r := WithChildren(f, p, s);
      (!IsPrefix(p, q) || q == p ==> Addresses(r, q)) &&
      (!IsPrefix(q, p) && !IsPrefix(p, q) ==> ChildrenAt(r, q) == ChildrenAt(f, q)) &&
      (IsPrefix(q, p) && q != p ==>
         |ChildrenAt(r, q)| == |ChildrenAt(f, q)| &&
         (forall i :: 0 <= i < |ChildrenAt(f, q)| ==> ChildrenAt(r, q)[i].obj == ChildrenAt(f, q)[i].obj) &&
         (forall i :: 0 <= i < |ChildrenAt(f, q)| && i != p[|q|] ==> ChildrenAt(r, q)[i] == ChildrenAt(f, q)[i]))
    decreases p
  {
    if p != [] && q != [] {
      if p[0] != q[0] {
        assert p[..1] != q[..1];
        assert !IsPrefix(q, p) && !IsPrefix(p, q);
      } else {
        assert IsPrefix(q, p) ==> IsPrefix(q[1..], p[1..]);
        assert IsPrefix(p, q) ==> IsPrefix(p[1..], q[1..]);
        assert IsPrefix(q[1..], p[1..]) ==> IsPrefix(q, p);
        assert IsPrefix(p[1..], q[1..]) ==> IsPrefix(p, q);
        WithChildrenFrame(f[p[0]].children, p[1..], s, q[1..]);
      }
    }
  }

  // ---- The store's edits of one sibling list ----

  /** `swap(a, b)` of two rows with the same parent. */
  function Swap<T>(s: seq<T>, i: nat, j: nat): (r: seq<T>)
    requires i < |s| && j < |s|
    ensures |r| == |s| && r[i] == s[j] && r[j] == s[i]
    ensures forall k :: 0 <= k < |s| && k != i && k != j ==> r[k] == s[k]
    ensures multiset(r) == multiset(s)
  {
    var r := s[i := s[j]][j := s[i]];
    assert r == s || i != j;
    if i == j then r
    else
      SwapMultiset(s, i, j);
      r
  }

  lemma SwapMultiset<T>(s: seq<T>, i: nat, j: nat)
    requires i < j < |s| || j < i < |s|
    ensures multiset(s[i := s[j]][j := s[i]]) == multiset(s)
  {
    var t := s[i := s[j]];
    assert multiset(t) == multiset(s) - multiset{s[i]} + multiset{s[j]};
    assert t[j] == s[j];
    assert multiset(t[j := s[i]]) == multiset(t) - multiset{s[j]} + multiset{s[i]};
  }

  /** Swapping twice restores the list. */
  lemma SwapTwice<T>(s: seq<T>, i: nat, j: nat)
    requires i < |s| && j < |s|
    ensures Swap(Swap(s, i, j), j, i) == s
  {
  }

  /** Where `insert(parent, k, row)` puts the row: at `k`, or last when `k` is past the end. */
  function InsertIndex(n: nat, k: nat): (r: nat)
    ensures r <= n && (k <= n ==> r == k) && (k > n ==> r == n)
  {
    if k <= n then k else n
  }

  /** `insert(parent, k, row)`. */
  function InsertAt<T>(s: seq<T>, k: nat, x: T): (r: seq<T>)
    ensures |r| == |s| + 1 && r[InsertIndex(|s|, k)] == x
    ensures forall i :: 0 <= i < InsertIndex(|s|, k) ==> r[i] == s[i]
    ensures forall i :: InsertIndex(|s|, k) < i < |r| ==> r[i] == s[i - 1]
    ensures multiset(r) == multiset(s) + multiset{x}
  {
    var m := InsertIndex(|s|, k);
    assert s == s[..m] + s[m..];
    s[..m] + [x] + s[m..]
  }

  /** `remove(row)`: the other rows keep their order. */
  function RemoveAt<T>(s: seq<T>, i: nat): (r: seq<T>)
    requires i < |s|
    ensures |r| == |s| - 1
    ensures forall k :: 0 <= k < i ==> r[k] == s[k]
    ensures forall k :: i <= k < |r| ==> r[k] == s[k + 1]
    ensures multiset(r) == multiset(s) - multiset{s[i]}
  {
    assert s == s[..i] + [s[i]] + s[i + 1..];
    s[..i] + s[i + 1..]
  }

  /** Removing a row and inserting it again at the same index restores the list, and inserting
      a row and removing it again restores the list. */
  lemma InsertRemoveInverse<T>(s: seq<T>, i: nat, x: T)
    ensures i < |s| ==> InsertAt(RemoveAt(s, i), i, s[i]) == s
    ensures RemoveAt(InsertAt(s, i, x), InsertIndex(|s|, i)) == s
  {
  }

  /** Replacing the row just inserted is inserting the replacement. */
  lemma InsertThenReplace<T>(s: seq<T>, k: nat, x: T, y: T)
    ensures InsertAt(s, k, x)[InsertIndex(|s|, k) := y] == InsertAt(s, k, y)
  {
    var m := InsertIndex(|s|, k);
    assert (s[..m] + [x] + s[m..])[m := y] == s[..m] + [y] + s[m..];
  }

  /** Appending in two steps is appending the two parts at once. */
  lemma Associative<T>(a: seq<T>, b: seq<T>, c: seq<T>)
    ensures a + b + c == a + (b + c)
  {
  }

  /** Removing the row at `i` and inserting `x` at `i` replaces row `i` by `x`. */
  lemma RemoveThenInsert<T>(s: seq<T>, i: nat, x: T)
    requires i < |s|
    ensures InsertAt(RemoveAt(s, i), i, x) == s[i := x]
  {
  }
}
