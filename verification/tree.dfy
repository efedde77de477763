/** The instance tree the commands edit.

    The tree belongs to the rbxfile library, which is not part of this
    model. Its instances are pointers in Go; here every instance has an
    `Id`, the document maps ids to instance records, and an id absent from
    that map plays the part of a nil pointer: dereferencing it is a panic.
    `Root.Instances` is the separate top-level list `instances`.

    `SetParent` and `AddChildAt` are the library's reparenting primitives,
    stated as assumptions about its behaviour: refuse to make an instance
    its own parent or an ancestor of itself, otherwise detach from the old
    parent and then append to the new one (`SetParent`) or insert at a
    clamped index (`AddChildAt`). `Copy` of a value is the identity on
    contents, since values here are immutable data.
 */
module Tree {
  import opened Wrappers
  import opened Seqs

  type Id = nat
  type Byte = b: int | 0 <= b < 256

  /** A property value: a type tag and its encoded contents. */
  datatype Value = Value(typeName: string, contents: seq<Byte>)

  datatype Instance = Instance(
    className: string,
    reference: seq<Byte>,
    isService: bool,
    properties: map<string, Value>,
    parent: Option<Id>,
    children: seq<Id>)

  /** `instances` is `Root.Instances`; `nodes` holds every instance reachable by pointer. */
  datatype Doc = Doc(instances: seq<Id>, nodes: map<Id, Instance>)

  /** A deep copy of a value. */
  function Copy(v: Value): Value { v }

  /** Whether `target` is reached by following parent links upward from `x`
      at most `fuel` times, that is, whether `x` is a descendant of `target`. */
  function Reaches(nodes: map<Id, Instance>, x: Id, target: Id, fuel: nat): bool
    decreases fuel
  {
    if fuel == 0 || x !in nodes then false
    else match nodes[x].parent
      case None => false
      case Some(p) => p == target || Reaches(nodes, p, target, fuel - 1)
  }

  /** `x.IsDescendantOf(a)`; a walk longer than the number of instances
      would revisit one, so that many steps suffice in a tree. */
  function IsDescendantOf(d: Doc, x: Id, a: Id): bool
  {
    Reaches(d.nodes, x, a, |d.nodes|)
  }

  /** The tree shape the library maintains: parent links and children lists
      agree, and no instance is its own parent or ancestor. */
  ghost predicate WellFormed(d: Doc)
  {
    && (forall x :: x in d.nodes && d.nodes[x].parent.Some? ==>
          var p := d.nodes[x].parent.value;
          && p in d.nodes && p != x
          && x in d.nodes[p].children
          && !Reaches(d.nodes, p, x, |d.nodes|))
    && (forall p, i :: p in d.nodes && 0 <= i < |d.nodes[p].children| ==>
          var c := d.nodes[p].children[i];
          c in d.nodes && d.nodes[c].parent == Some(p))
  }

  /** Removes `x` from its parent's children; the parent link itself is left to the caller. */
  function Detach(d: Doc, x: Id): (r: Doc)
    requires x in d.nodes
    ensures r.instances == d.instances && r.nodes.Keys == d.nodes.Keys
  {
    match d.nodes[x].parent
    case None => d
    case Some(o) =>
      if o in d.nodes then d.(nodes := d.nodes[o := d.nodes[o].(children := RemoveFirst(d.nodes[o].children, x))])
      else d
  }

  /** `x.SetParent(p)`: a no-op when `p` already is the parent; an error for
      a parent that is `x` itself or one of its descendants; otherwise `x`
      leaves its old parent's children and becomes the last child of `p`. */
  function SetParent(d: Doc, x: Id, p: Option<Id>): (r: Result<Doc>)
    ensures r.Ok? ==> x in d.nodes && r.value.instances == d.instances
    ensures r.Ok? ==> x in r.value.nodes && r.value.nodes[x].parent == p
    ensures r.Ok? && p.Some? && d.nodes[x].parent != p ==>
              && p.value in r.value.nodes
              && var cs := r.value.nodes[p.value].children; |cs| > 0 && cs[|cs| - 1] == x
  {
    if x !in d.nodes then Fail(Panic("nil instance"))
    else if d.nodes[x].parent == p then Ok(d)
    else if p == Some(x) then Fail(Error("attempt to set instance as its own parent"))
    else if p.Some? && p.value !in d.nodes then Fail(Panic("nil parent"))
    else if p.Some? && IsDescendantOf(d, p.value, x) then
      Fail(Error("attempt to set parent would result in circular reference"))
    else
      var d1 := Detach(d, x);
      var nodes := d1.nodes[x := d1.nodes[x].(parent := p)];
      match p
      case None => Ok(d1.(nodes := nodes))
      case Some(q) => Ok(d1.(nodes := nodes[q := nodes[q].(children := nodes[q].children + [x])]))
  }

  /** `p.AddChildAt(i, x)`: the same refusals as `SetParent`; otherwise `x`
      is detached and inserted into `p`'s children at `i`, clamped to the
      list's bounds. */
  function AddChildAt(d: Doc, p: Id, i: int, x: Id): (r: Result<Doc>)
    ensures r.Ok? ==> r.value.instances == d.instances
    ensures r.Ok? ==> x in r.value.nodes && r.value.nodes[x].parent == Some(p)
    ensures r.Ok? ==> r.value.nodes.Keys == d.nodes.Keys && p in r.value.nodes
    ensures r.Ok? ==>
              var cs := r.value.nodes[p].children;
              && |cs| > 0
              && cs[if i < 0 then 0 else if i >= |cs| then |cs| - 1 else i] == x
    ensures r.Fail? <==> p !in d.nodes || x !in d.nodes || x == p || IsDescendantOf(d, p, x)
    ensures r.Fail? && r.fault.Error? ==> p in d.nodes && x in d.nodes
  {
    if p !in d.nodes || x !in d.nodes then Fail(Panic("nil instance"))
    else if x == p then Fail(Error("attempt to set instance as its own parent"))
    else if IsDescendantOf(d, p, x) then Fail(Error("attempt to set parent would result in circular reference"))
    else
      var d1 := Detach(d, x);
      var cs := d1.nodes[p].children;
      var j := if i < 0 then 0 else if i > |cs| then |cs| else i;
      var nodes := d1.nodes[p := d1.nodes[p].(children := InsertAt(cs, j, x))];
      Ok(d1.(nodes := nodes[x := nodes[x].(parent := Some(p))]))
  }

  /** Walking upward from an instance other than `t` gives the same answer in
      two trees whose parent links differ at most at `t`: the walk stops on
      reaching `t`, before it would follow `t`'s link. */
  lemma {:induction false} ReachesFrame(n0: map<Id, Instance>, n1: map<Id, Instance>, s: Id, t: Id, fuel: nat)
    requires forall x :: x != t ==> (x in n0 <==> x in n1)
    requires forall x :: x != t && x in n0 ==> n1[x].parent == n0[x].parent
    requires s != t
    ensures Reaches(n1, s, t, fuel) == Reaches(n0, s, t, fuel)
    decreases fuel
  {
    if fuel > 0 && s in n0 && n0[s].parent.Some? {
      var p := n0[s].parent.value;
      if p != t {
        ReachesFrame(n0, n1, p, t, fuel - 1);
      }
    }
  }
  // ---------------------------------------------------------------------
  // Reversing a reparenting

  /** An instance without a parent that was given one loses it again, and
      the new parent's children lose the appended entry. */
  lemma {:induction false} ReturnToNoParent(d: Doc, x: Id, np: Option<Id>)
    requires x in d.nodes && d.nodes[x].parent == None
    requires np.Some? ==> np.value in d.nodes && x !in d.nodes[np.value].children
    requires SetParent(d, x, np).Ok?
    ensures SetParent(SetParent(d, x, np).value, x, None) == Ok(d)
  {
    if np.Some? {
      var n, q := d.nodes, np.value;
      var w, u := n[x].(parent := np), n[q].(children := n[q].children + [x]);
      var d1 := d.(nodes := n[x := w][q := u]);
      assert SetParent(d, x, np) == Ok(d1);
      assert Detach(d1, x) == d1.(nodes := d1.nodes[q := n[q]]) by {
        RemoveFirstOfAppended(n[q].children, x);
      }
      RestoreSwapped(n, x, q, w, u);
    }
  }

  /** Re-inserting an instance at the index it had under the parent it
      still has gives the same tree back. */
  lemma {:induction false} ReinsertInPlace(d: Doc, x: Id, p: Id, i: nat)
    requires x in d.nodes && p in d.nodes && x != p && d.nodes[x].parent == Some(p)
    requires i < |d.nodes[p].children| && IndexOf(d.nodes[p].children, x) == i
    requires !IsDescendantOf(d, p, x)
    ensures AddChildAt(d, p, i, x) == Ok(d)
  {
    var n := d.nodes;
    assert Detach(d, x) == d.(nodes := n[p := n[p].(children := RemoveAt(n[p].children, i))]);
    ReinsertMaps(n, p, x, i);
  }

  /** The node maps of `ReinsertInPlace`: take `x` out of `p`'s children at
      `i`, put it back at `i`, and set its parent to `p` again. */
  lemma ReinsertMaps(n: map<Id, Instance>, p: Id, x: Id, i: nat)
    requires p in n && x in n && x != p && n[x].parent == Some(p)
    requires i < |n[p].children| && n[p].children[i] == x
    ensures var n1 := n[p := n[p].(children := RemoveAt(n[p].children, i))];
            var n2 := n1[p := n1[p].(children := InsertAt(n1[p].children, i, x))];
            n2[x := n2[x].(parent := Some(p))] == n
  {
    var v := n[p].(children := RemoveAt(n[p].children, i));
    assert n[p := v][p := v.(children := InsertAt(v.children, i, x))] == n[p := v][p := n[p]] by {
      InsertRemovedRestores(n[p].children, i);
    }
    RestoreTwo(n, p, x, v);
  }

  /** Overwriting the entry at `p` and then writing back the old entries at
      `p` and `x` gives the map back. */
  lemma RestoreTwo<K, V>(n: map<K, V>, p: K, x: K, v: V)
    requires p in n && x in n
    ensures n[p := v][p := n[p]][x := n[x]] == n
  {
  }

  /** The tree after moving `x` from under `p` (where it sits at index `i`)
      to no parent, or to the end of another parent's children. */
  function Moved(d: Doc, x: Id, p: Id, i: nat, np: Option<Id>): Doc
    requires x in d.nodes && p in d.nodes && i < |d.nodes[p].children|
    requires np.Some? ==> np.value in d.nodes
  {
    var n := d.nodes;
    var n1 := n[p := n[p].(children := RemoveAt(n[p].children, i))][x := n[x].(parent := np)];
    match np
    case None => d.(nodes := n1)
    case Some(q) => d.(nodes := n1[q := n1[q].(children := n[q].children + [x])])
  }

  lemma {:induction false} MovedShape(d: Doc, x: Id, p: Id, i: nat, np: Option<Id>)
    requires x in d.nodes && p in d.nodes && x != p && d.nodes[x].parent == Some(p)
    requires i < |d.nodes[p].children| && IndexOf(d.nodes[p].children, x) == i
    requires np != Some(p) && np != Some(x)
    requires np.Some? ==> np.value in d.nodes
    requires SetParent(d, x, np).Ok?
    ensures SetParent(d, x, np).value == Moved(d, x, p, i, np)
  {
  }

  /** An instance moved away from parent `p` (to no parent, or to the end of
      another parent's children) and then added back to `p` at its old
      index gives the original tree. */
  lemma {:induction false} ReturnToOldParent(d: Doc, x: Id, p: Id, i: nat, np: Option<Id>)
    requires x in d.nodes && p in d.nodes && x != p && d.nodes[x].parent == Some(p)
    requires i < |d.nodes[p].children| && IndexOf(d.nodes[p].children, x) == i
    requires !IsDescendantOf(d, p, x)
    requires np != Some(p)
    requires np.Some? ==> np.value in d.nodes && x !in d.nodes[np.value].children
    requires SetParent(d, x, np).Ok?
    ensures AddChildAt(SetParent(d, x, np).value, p, i, x) == Ok(d)
  {
    MovedShape(d, x, p, i, np);
    ReturnFromMoved(d, x, p, i, np);
  }

  /** Moving `x` changes no parent link but its own, so `p` is still not a
      descendant of `x`. */
  lemma {:induction false} MovedKeepsAncestry(d: Doc, x: Id, p: Id, i: nat, np: Option<Id>)
    requires x in d.nodes && p in d.nodes && x != p
    requires i < |d.nodes[p].children|
    requires !IsDescendantOf(d, p, x)
    requires np.Some? ==> np.value in d.nodes
    ensures var d1 := Moved(d, x, p, i, np);
            d1.nodes.Keys == d.nodes.Keys && !IsDescendantOf(d1, p, x)
  {
    var d1 := Moved(d, x, p, i, np);
    assert d1.nodes.Keys == d.nodes.Keys;
    assert |d1.nodes| == |d.nodes|;
    ReachesFrame(d.nodes, d1.nodes, p, x, |d.nodes|);
  }

  lemma {:induction false} ReturnFromMoved(d: Doc, x: Id, p: Id, i: nat, np: Option<Id>)
    requires x in d.nodes && p in d.nodes && x != p && d.nodes[x].parent == Some(p)
    requires i < |d.nodes[p].children| && IndexOf(d.nodes[p].children, x) == i
    requires !IsDescendantOf(d, p, x)
    requires np != Some(p) && np != Some(x)
    requires np.Some? ==> np.value in d.nodes && x !in d.nodes[np.value].children
    ensures AddChildAt(Moved(d, x, p, i, np), p, i, x) == Ok(d)
  {
    MovedKeepsAncestry(d, x, p, i, np);
    InsertRemovedRestores(d.nodes[p].children, i);
    if np.Some? {
      RemoveFirstOfAppended(d.nodes[np.value].children, x);
      ReturnFromMovedUnder(d, x, p, i, np.value);
    } else {
      ReturnFromMovedToNone(d, x, p, i);
    }
  }

  lemma {:induction false} ReturnFromMovedToNone(d: Doc, x: Id, p: Id, i: nat)
    requires x in d.nodes && p in d.nodes && x != p
    requires d.nodes[x].parent == Some(p) && i < |d.nodes[p].children|
    requires var d1 := Moved(d, x, p, i, None); !IsDescendantOf(d1, p, x)
    requires InsertAt(RemoveAt(d.nodes[p].children, i), i, x) == d.nodes[p].children
    ensures AddChildAt(Moved(d, x, p, i, None), p, i, x) == Ok(d)
  {
    var n := d.nodes;
    var v, w := n[p].(children := RemoveAt(n[p].children, i)), n[x].(parent := None);
    var d1 := Moved(d, x, p, i, None);
    assert d1.nodes == n[p := v][x := w];
    assert Detach(d1, x) == d1;
    var n2 := d1.nodes[p := n[p]];
    assert n2 == d1.nodes[p := d1.nodes[p].(children := InsertAt(v.children, i, x))];
    assert AddChildAt(d1, p, i, x) == Ok(d1.(nodes := n2[x := n2[x].(parent := Some(p))]));
    assert n2[x].(parent := Some(p)) == n[x];
    RestoreOverwritten(n, p, x, v, w);
  }

  lemma {:induction false} ReturnFromMovedUnder(d: Doc, x: Id, p: Id, i: nat, q: Id)
    requires x in d.nodes && p in d.nodes && q in d.nodes && x != p && q != p && q != x
    requires d.nodes[x].parent == Some(p) && i < |d.nodes[p].children|
    requires var d1 := Moved(d, x, p, i, Some(q)); !IsDescendantOf(d1, p, x)
    requires InsertAt(RemoveAt(d.nodes[p].children, i), i, x) == d.nodes[p].children
    requires RemoveFirst(d.nodes[q].children + [x], x) == d.nodes[q].children
    ensures AddChildAt(Moved(d, x, p, i, Some(q)), p, i, x) == Ok(d)
  {
    var n := d.nodes;
    var v, w := n[p].(children := RemoveAt(n[p].children, i)), n[x].(parent := Some(q));
    var u := n[q].(children := n[q].children + [x]);
    var d1 := Moved(d, x, p, i, Some(q));
    assert d1.nodes == n[p := v][x := w][q := u];
    var d2 := d1.(nodes := d1.nodes[q := n[q]]);
    assert Detach(d1, x) == d2;
    var n2 := d2.nodes[p := n[p]];
    assert n2 == d2.nodes[p := d2.nodes[p].(children := InsertAt(v.children, i, x))];
    assert AddChildAt(d1, p, i, x) == Ok(d2.(nodes := n2[x := n2[x].(parent := Some(p))]));
    assert n2[x].(parent := Some(p)) == n[x];
    RestoreThree(n, p, x, q, v, w, u);
  }

  /** Overwriting the entries at `p` and `x` and then writing back the old
      ones gives the map back. */
  lemma RestoreOverwritten<K, V>(n: map<K, V>, p: K, x: K, v: V, w: V)
    requires p in n && x in n
    ensures n[p := v][x := w][p := n[p]][x := n[x]] == n
  {
  }

  /** Overwriting the entries at `x` and `q` and then writing back the old
      ones, `q` first, gives the map back. */
  lemma RestoreSwapped<K, V>(n: map<K, V>, x: K, q: K, w: V, u: V)
    requires x in n && q in n
    ensures n[x := w][q := u][q := n[q]][x := n[x]] == n
  {
  }

  /** The same with a third entry `q`, written back first. */
  lemma RestoreThree<K, V>(n: map<K, V>, p: K, x: K, q: K, v: V, w: V, u: V)
    requires p in n && x in n && q in n
    ensures n[p := v][x := w][q := u][q := n[q]][p := n[p]][x := n[x]] == n
  {
  }
}
