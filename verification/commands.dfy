/** The reversible edits of cmd/cmd.go.

    Each Go command struct becomes one constructor of `Cmd`, holding what
    the struct holds: the instance it edits, the new state, and the fields
    `Setup` fills in. `Setup` returns the command with those fields
    captured; `Forward` and `Backward` return the edited document. A Go
    error becomes `Fail(Error(..))` and a Go panic `Fail(Panic(..))`.
 */
module Commands {
  import opened Wrappers
  import opened Seqs
  import Tree

  type Id = Tree.Id
  type Doc = Tree.Doc

  datatype Cmd =
    | AddRoot(instance: Id)
    | RemoveRoot(index: int, removed: Option<Id>)
    | SetClassName(instance: Id, newClassName: string, oldClassName: string)
    | SetReference(instance: Id, newRef: seq<Tree.Byte>, oldRef: seq<Tree.Byte>)
    | SetParent(instance: Id, newParent: Option<Id>, oldParent: Option<Id>, oldIndex: int)
    | SetIsService(instance: Id, newIsService: bool, oldIsService: bool)
    | SetProperty(instance: Id, prop: string, newValue: Tree.Value, oldValue: Option<Tree.Value>)

  // The exported constructors; captured fields start at Go's zero values.

  function AddRootInstance(inst: Id): Cmd { AddRoot(inst) }
  function RemoveRootInstance(i: int): Cmd { RemoveRoot(i, None) }
  function NewSetClassName(inst: Id, className: string): Cmd { SetClassName(inst, className, "") }
  /** The caller's bytes are copied; a value sequence cannot be mutated afterwards. */
  function NewSetReference(inst: Id, ref: seq<Tree.Byte>): Cmd { SetReference(inst, ref, []) }
  function NewSetParent(inst: Id, parent: Option<Id>): Cmd { SetParent(inst, parent, None, 0) }
  function NewSetIsService(inst: Id, isService: bool): Cmd { SetIsService(inst, isService, false) }
  function NewSetProperty(inst: Id, prop: string, value: Tree.Value): Cmd { SetProperty(inst, prop, value, None) }

  /** The instance a command edits, for the commands that edit one. */
  function Target(c: Cmd): Option<Id>
  {
    match c
    case AddRoot(_) => None
    case RemoveRoot(_, _) => None
    case SetClassName(x, _, _) => Some(x)
    case SetReference(x, _, _) => Some(x)
    case SetParent(x, _, _, _) => Some(x)
    case SetIsService(x, _, _) => Some(x)
    case SetProperty(x, _, _, _) => Some(x)
  }

  /** `Setup`: capture what `Backward` needs. Only `RemoveRoot` (index out
      of range) and `SetParent` (not found among its parent's children) can
      refuse; dereferencing a nil instance panics. */
  function Setup(c: Cmd, d: Doc): (r: Result<Cmd>)
    ensures r.Ok? ==> r.value.AddRoot? == c.AddRoot? && r.value.RemoveRoot? == c.RemoveRoot?
    ensures r.Ok? ==> r.value.SetParent? == c.SetParent? && r.value.SetProperty? == c.SetProperty?
    ensures r.Ok? ==> Target(r.value) == Target(c)
    ensures r.Fail? && r.fault.Error? ==> c.RemoveRoot? || c.SetParent?
    ensures Target(c).Some? && Target(c).value !in d.nodes ==> r == Fail(Panic("nil instance"))
    ensures r.Ok? && c.RemoveRoot? ==>
              0 <= c.index < |d.instances| && r.value == RemoveRoot(c.index, Some(d.instances[c.index]))
    ensures r.Ok? && c.SetClassName? ==>
              c.instance in d.nodes && r.value == SetClassName(c.instance, c.newClassName, d.nodes[c.instance].className)
    ensures r.Ok? && c.SetReference? ==>
              c.instance in d.nodes && r.value == SetReference(c.instance, c.newRef, d.nodes[c.instance].reference)
    ensures r.Ok? && c.SetIsService? ==>
              c.instance in d.nodes && r.value == SetIsService(c.instance, c.newIsService, d.nodes[c.instance].isService)
    ensures r.Ok? && c.SetParent? ==>
              && c.instance in d.nodes && r.value.newParent == c.newParent
              && r.value.oldParent == d.nodes[c.instance].parent
              && (r.value.oldParent.Some? ==>
                    && r.value.oldParent.value in d.nodes
                    && var cs := d.nodes[r.value.oldParent.value].children;
                    && 0 <= r.value.oldIndex < |cs| && cs[r.value.oldIndex] == c.instance)
    ensures r.Ok? && c.SetProperty? ==>
              && c.instance in d.nodes && r.value.prop == c.prop && r.value.newValue == c.newValue
              && (c.prop in d.nodes[c.instance].properties ==>
                    r.value.oldValue == Some(d.nodes[c.instance].properties[c.prop]))
              && (c.prop !in d.nodes[c.instance].properties ==> r.value == c)
  {
    match c
    case AddRoot(_) => Ok(c)
    case RemoveRoot(i, _) =>
      if i < 0 || i >= |d.instances| then Fail(Error("index out of range"))
      else Ok(RemoveRoot(i, Some(d.instances[i])))
    case SetClassName(x, _, _) =>
      if x !in d.nodes then Fail(Panic("nil instance")) else Ok(c.(oldClassName := d.nodes[x].className))
    case SetReference(x, _, _) =>
      if x !in d.nodes then Fail(Panic("nil instance")) else Ok(c.(oldRef := d.nodes[x].reference))
    case SetParent(x, _, _, _) =>
      if x !in d.nodes then Fail(Panic("nil instance"))
      else
        match d.nodes[x].parent {
          case None => Ok(c.(oldParent := None))
          case Some(p) =>
            if p !in d.nodes then Fail(Panic("nil parent"))
            else
              var i := IndexOf(d.nodes[p].children, x);
              if i == -1 then Fail(Error("instance is not a child of parent"))
              else Ok(c.(oldParent := Some(p), oldIndex := i))
        }
    case SetIsService(x, _, _) =>
      if x !in d.nodes then Fail(Panic("nil instance")) else Ok(c.(oldIsService := d.nodes[x].isService))
    case SetProperty(x, name, _, _) =>
      if x !in d.nodes then Fail(Panic("nil instance"))
      else if name in d.nodes[x].properties then Ok(c.(oldValue := Some(Tree.Copy(d.nodes[x].properties[name]))))
      else Ok(c)
  }

  /** Replaces the record of instance `x`. */
  function Put(d: Doc, x: Id, n: Tree.Instance): Doc
  {
    d.(nodes := d.nodes[x := n])
  }

  /** `Forward`: perform the edit. */
  function Forward(c: Cmd, d: Doc): (r: Result<Doc>)
    ensures r.Ok? && !c.AddRoot? && !c.RemoveRoot? ==> r.value.instances == d.instances
    ensures r.Ok? && !c.SetParent? ==> r.value.nodes.Keys == d.nodes.Keys
  {
    match c
    case AddRoot(x) => Ok(d.(instances := d.instances + [x]))
    case RemoveRoot(i, _) =>
      if 0 <= i < |d.instances| then Ok(d.(instances := RemoveAt(d.instances, i)))
      else Fail(Panic("slice bounds out of range"))
    case SetClassName(x, v, _) =>
      if x !in d.nodes then Fail(Panic("nil instance")) else Ok(Put(d, x, d.nodes[x].(className := v)))
    case SetReference(x, v, _) =>
      if x !in d.nodes then Fail(Panic("nil instance")) else Ok(Put(d, x, d.nodes[x].(reference := v)))
    case SetParent(x, p, _, _) => Tree.SetParent(d, x, p)
    case SetIsService(x, v, _) =>
      if x !in d.nodes then Fail(Panic("nil instance")) else Ok(Put(d, x, d.nodes[x].(isService := v)))
    case SetProperty(x, name, v, _) =>
      if x !in d.nodes then Fail(Panic("nil instance"))
      else Ok(Put(d, x, d.nodes[x].(properties := d.nodes[x].properties[name := v])))
  }

  /** `Backward`: undo the edit with the state `Setup` captured.
      `AddRoot` drops whatever is last in the root list, which is the added
      instance only if nothing has been appended since. A `RemoveRoot`
      whose `Setup` never ran would re-insert a nil pointer; the model
      reports that as a panic (the controller never records such a command). */
  function Backward(c: Cmd, d: Doc): (r: Result<Doc>)
    ensures r.Ok? && !c.AddRoot? && !c.RemoveRoot? ==> r.value.instances == d.instances
  {
    match c
    case AddRoot(_) =>
      if |d.instances| == 0 then Fail(Panic("index out of range"))
      else Ok(d.(instances := d.instances[..|d.instances| - 1]))
    case RemoveRoot(i, removed) =>
      if i < 0 || i > |d.instances| then Fail(Panic("slice bounds out of range"))
      else if removed.None? then Fail(Panic("nil instance"))
      else Ok(d.(instances := InsertAt(d.instances, i, removed.value)))
    case SetClassName(x, _, v) =>
      if x !in d.nodes then Fail(Panic("nil instance")) else Ok(Put(d, x, d.nodes[x].(className := v)))
    case SetReference(x, _, v) =>
      if x !in d.nodes then Fail(Panic("nil instance")) else Ok(Put(d, x, d.nodes[x].(reference := v)))
    case SetParent(x, _, op, i) =>
      match op {
        case None => Tree.SetParent(d, x, None)
        case Some(p) => Tree.AddChildAt(d, p, i, x)
      }
    case SetIsService(x, _, v) =>
      if x !in d.nodes then Fail(Panic("nil instance")) else Ok(Put(d, x, d.nodes[x].(isService := v)))
    case SetProperty(x, name, _, saved) =>
      if x !in d.nodes then Fail(Panic("nil instance"))
      else
        match saved
        case None => Ok(Put(d, x, d.nodes[x].(properties := d.nodes[x].properties - {name})))
        case Some(v) => Ok(Put(d, x, d.nodes[x].(properties := d.nodes[x].properties[name := v])))
  }
  // ---------------------------------------------------------------------
  // Properties of the individual commands

  /** `AddRoot` appends the instance; `Backward` drops the last element, so
      Forward then Backward gives the original document back. */
  lemma AddRootRoundTrip(x: Id, d: Doc)
    ensures Setup(AddRoot(x), d) == Ok(AddRoot(x))
    ensures Forward(AddRoot(x), d).Ok?
    ensures var d1 := Forward(AddRoot(x), d).value;
            && d1.instances[..|d.instances|] == d.instances
            && d1.instances[|d.instances|] == x && |d1.instances| == |d.instances| + 1
            && Backward(AddRoot(x), d1) == Ok(d)
  {
    assert (d.instances + [x])[..|d.instances|] == d.instances;
  }

  /** `AddRoot.Backward` removes whatever is last, not the instance it added:
      with a second instance appended after it, undoing the first removes
      the second. */
  lemma AddRootBackwardDropsLast(x: Id, y: Id, d: Doc)
    requires x != y
    ensures var d2 := Forward(AddRoot(y), Forward(AddRoot(x), d).value).value;
            && Backward(AddRoot(x), d2).Ok?
            && Backward(AddRoot(x), d2).value.instances == d.instances + [x]
  {
    assert (d.instances + [x] + [y])[..|d.instances| + 1] == d.instances + [x];
  }

  /** `RemoveRoot.Setup` refuses exactly the indices outside the root list,
      capturing nothing; otherwise it captures the instance at the index. */
  lemma RemoveRootSetupChecksRange(i: int, removed: Option<Id>, d: Doc)
    ensures var r := Setup(RemoveRoot(i, removed), d);
            && (r.Fail? <==> i < 0 || i >= |d.instances|)
            && (r.Fail? ==> r.fault == Error("index out of range"))
            && (r.Ok? ==> r.value == RemoveRoot(i, Some(d.instances[i])))
  {
  }

  /** `RemoveRoot.Forward` deletes the element at the index, keeping the
      others in order; `Backward` puts the captured instance back at the
      same index, so the round trip restores the root list. */
  lemma {:induction false} RemoveRootRoundTrip(i: int, d: Doc)
    requires 0 <= i < |d.instances|
    ensures var c := Setup(RemoveRoot(i, None), d).value;
            && Forward(c, d).Ok?
            && var d1 := Forward(c, d).value;
            && |d1.instances| == |d.instances| - 1
            && (forall j :: 0 <= j < i ==> d1.instances[j] == d.instances[j])
            && (forall j :: i <= j < |d1.instances| ==> d1.instances[j] == d.instances[j + 1])
            && Backward(c, d1) == Ok(d)
  {
    var c := Setup(RemoveRoot(i, None), d).value;
    var d1 := Forward(c, d).value;
    InsertRemovedRestores(d.instances, i);
    assert Backward(c, d1).value.instances == d.instances;
  }

  /** Forward of the three field edits writes the new value into that one
      field; Backward, applied to the edited document, writes the captured
      old value back into the same field. Neither changes another field,
      another instance or the root list. */
  lemma {:induction false} FieldEditsTouchOneField(c: Cmd, d: Doc)
    requires c.SetClassName? || c.SetReference? || c.SetIsService?
    requires Setup(c, d).Ok?
    ensures var c1 := Setup(c, d).value;
            var x := Target(c).value;
            && x in d.nodes
            && Forward(c1, d).Ok?
            && var d1 := Forward(c1, d).value;
            && Backward(c1, d1).Ok?
            && var f := d1.nodes;
            && var b := Backward(c1, d1).value.nodes;
            && d1.instances == d.instances && Backward(c1, d1).value.instances == d.instances
            && f.Keys == d.nodes.Keys && b.Keys == f.Keys
            && (forall y :: y in f && y != x ==> f[y] == d.nodes[y] && b[y] == f[y])
            && f[x].parent == d.nodes[x].parent && f[x].children == d.nodes[x].children
            && f[x].properties == d.nodes[x].properties
            && b[x].parent == f[x].parent && b[x].children == f[x].children
            && b[x].properties == f[x].properties
            && (c.SetClassName? ==>
                  && f[x].className == c.newClassName && b[x].className == d.nodes[x].className
                  && f[x].reference == d.nodes[x].reference && f[x].isService == d.nodes[x].isService
                  && b[x].reference == f[x].reference && b[x].isService == f[x].isService)
            && (c.SetReference? ==>
                  && f[x].reference == c.newRef && b[x].reference == d.nodes[x].reference
                  && f[x].className == d.nodes[x].className && f[x].isService == d.nodes[x].isService
                  && b[x].className == f[x].className && b[x].isService == f[x].isService)
            && (c.SetIsService? ==>
                  && f[x].isService == c.newIsService && b[x].isService == d.nodes[x].isService
                  && f[x].className == d.nodes[x].className && f[x].reference == d.nodes[x].reference
                  && b[x].className == f[x].className && b[x].reference == f[x].reference)
  {
  }

  /** For the three field edits, Backward after Forward restores the document. */
  lemma {:induction false} FieldEditRoundTrip(c: Cmd, d: Doc)
    requires c.SetClassName? || c.SetReference? || c.SetIsService?
    requires Setup(c, d).Ok?
    ensures var c1 := Setup(c, d).value;
            Forward(c1, d).Ok? && Backward(c1, Forward(c1, d).value) == Ok(d)
  {
    var c1 := Setup(c, d).value;
    var x := Target(c).value;
    var d1 := Forward(c1, d).value;
    var d2 := Backward(c1, d1).value;
    assert d2.nodes[x] == d.nodes[x];
    assert d2.nodes == d.nodes;
  }

  /** `SetParent.Setup` records the current parent; under a parent it also
      records the first position of the instance among that parent's
      children, and fails when the instance is not there. Without a parent
      there is nothing to search. */
  lemma SetParentSetupRecords(x: Id, np: Option<Id>, d: Doc)
    requires x in d.nodes
    requires d.nodes[x].parent.Some? ==> d.nodes[x].parent.value in d.nodes
    ensures var r := Setup(NewSetParent(x, np), d);
            var op := d.nodes[x].parent;
            && (r.Fail? <==> op.Some? && x !in d.nodes[op.value].children)
            && (r.Fail? ==> r.fault == Error("instance is not a child of parent"))
            && (r.Ok? ==> r.value.oldParent == op && r.value.newParent == np)
            && (r.Ok? && op.Some? ==>
                  var cs := d.nodes[op.value].children;
                  && 0 <= r.value.oldIndex < |cs| && cs[r.value.oldIndex] == x
                  && forall j :: 0 <= j < r.value.oldIndex ==> cs[j] != x)
  {
  }

  /** In a well-formed tree, an instance is listed only by its own parent. */
  lemma ListedOnlyByParent(d: Doc, x: Id, q: Id)
    requires Tree.WellFormed(d) && q in d.nodes && x in d.nodes[q].children
    ensures d.nodes[x].parent == Some(q)
  {
    var k :| 0 <= k < |d.nodes[q].children| && d.nodes[q].children[k] == x;
  }

  /** In a well-formed tree, a successful `SetParent` is undone exactly:
      the instance returns to its old parent at its old index (or to having
      no parent), and the new parent's children lose the appended entry. */
  lemma {:induction false} SetParentRoundTrip(x: Id, np: Option<Id>, d: Doc)
    requires Tree.WellFormed(d) && x in d.nodes
    requires Forward(Setup(NewSetParent(x, np), d).value, d).Ok?
    ensures Setup(NewSetParent(x, np), d).Ok?
    ensures var c1 := Setup(NewSetParent(x, np), d).value;
            Backward(c1, Forward(c1, d).value) == Ok(d)
  {
    var n := d.nodes;
    var op := n[x].parent;
    if op.Some? {
      assert op.value in n && x in n[op.value].children;
    }
    var c1 := Setup(NewSetParent(x, np), d).value;
    if np.Some? && np.value in n && np != op && x in n[np.value].children {
      ListedOnlyByParent(d, x, np.value);
    }
    match op {
      case None =>
        Tree.ReturnToNoParent(d, x, np);
      case Some(p) =>
        if np == op {
          Tree.ReinsertInPlace(d, x, p, c1.oldIndex);
        } else {
          Tree.ReturnToOldParent(d, x, p, c1.oldIndex, np);
        }
    }
  }

  /** `SetProperty.Setup` saves a copy of the old value exactly when the
      property exists; `Backward` then deletes a property that was absent
      (rather than leaving a placeholder) and restores one that was present. */
  lemma {:induction false} SetPropertyRoundTrip(x: Id, name: string, v: Tree.Value, d: Doc)
    requires x in d.nodes
    ensures Setup(NewSetProperty(x, name, v), d).Ok?
    ensures var c1 := Setup(NewSetProperty(x, name, v), d).value;
            var props := d.nodes[x].properties;
            && (c1.oldValue.Some? <==> name in props)
            && (name in props ==> c1.oldValue == Some(props[name]))
            && Forward(c1, d).Ok?
            && var f := Forward(c1, d).value;
            && name in f.nodes[x].properties && f.nodes[x].properties[name] == v
            && Backward(c1, f).Ok?
            && var b := Backward(c1, f).value;
            && (name !in props ==> name !in b.nodes[x].properties)
            && b == d
  {
    var c1 := Setup(NewSetProperty(x, name, v), d).value;
    var f := Forward(c1, d).value;
    var b := Backward(c1, f).value;
    var props := d.nodes[x].properties;
    assert b.nodes[x].properties == props;
    assert b.nodes[x] == d.nodes[x];
    assert b.nodes == d.nodes;
  }

  /** A command as its exported constructor builds it: the fields `Setup`
      fills in still hold Go's zero values. */
  predicate AsConstructed(c: Cmd)
  {
    match c
    case AddRoot(_) => true
    case RemoveRoot(_, removed) => removed == None
    case SetClassName(_, _, was) => was == ""
    case SetReference(_, _, was) => was == []
    case SetParent(_, _, op, i) => op == None && i == 0
    case SetIsService(_, _, was) => !was
    case SetProperty(_, _, _, saved) => saved == None
  }

  /** Every command: in a well-formed tree, once `Setup` and `Forward`
      succeed, `Backward` succeeds and restores the document exactly. */
  lemma ForwardBackwardRestores(c: Cmd, d: Doc)
    requires Tree.WellFormed(d) && AsConstructed(c)
    requires Setup(c, d).Ok? && Forward(Setup(c, d).value, d).Ok?
    ensures var c1 := Setup(c, d).value;
            Backward(c1, Forward(c1, d).value) == Ok(d)
  {
    match c {
      case AddRoot(x) => AddRootRoundTrip(x, d);
      case RemoveRoot(i, _) =>
        RemoveRootRoundTrip(i, d);
        assert Setup(c, d) == Setup(RemoveRoot(i, None), d);
      case SetClassName(_, _, _) => FieldEditRoundTrip(c, d);
      case SetReference(_, _, _) => FieldEditRoundTrip(c, d);
      case SetIsService(_, _, _) => FieldEditRoundTrip(c, d);
      case SetParent(x, np, _, _) =>
        assert Setup(c, d) == Setup(NewSetParent(x, np), d);
        SetParentRoundTrip(x, np, d);
      case SetProperty(x, name, v, _) =>
        SetPropertyRoundTrip(x, name, v, d);
    }
  }
}
