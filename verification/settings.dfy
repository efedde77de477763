/** The typed settings store of settings/settings.go.

    A setting value is a Go `interface{}`; the store only ever asks for its
    dynamic kind, so `Any` keeps the kinds the store distinguishes (string,
    float64, bool), nil, and every other kind under one tag. Float payloads
    are kept as reals and no arithmetic is done on them. The key set is
    fixed by `Create`; `Set` and the merge done by `load` only replace a
    value by one of the same kind.
 */
module Settings {
  import opened Wrappers

  datatype Any =
    | Nil
    | Str(s: string)
    | Float64(f: real)
    | Bool(b: bool)
    | Other(typeName: string)  // a value of any other Go type

  datatype Store = Store(values: map<string, Any>)

  /** The kinds `Create` admits. */
  predicate Settable(v: Any)
  {
    v.Str? || v.Float64? || v.Bool?
  }

  /** `typesMatch(a, b)`: both strings, both float64, or both bools. */
  function TypesMatch(a: Any, b: Any): (r: bool)
    ensures r <==> (a.Str? && b.Str?) || (a.Float64? && b.Float64?) || (a.Bool? && b.Bool?)
    ensures r ==> Settable(a) && Settable(b)
  {
    match a
    case Str(_) => b.Str?
    case Float64(_) => b.Float64?
    case Bool(_) => b.Bool?
    case _ => false
  }

  /** Every stored value is of an admitted kind. */
  predicate WellTyped(s: Store)
  {
    forall n :: n in s.values ==> Settable(s.values[n])
  }

  /** `Create`: every initial value must be a string, float64 or bool;
      anything else panics. */
  function Create(initial: map<string, Any>): (r: Result<Store>)
    ensures r.Ok? <==> forall n :: n in initial ==> Settable(initial[n])
    ensures r.Ok? ==> WellTyped(r.value) && r.value.values == initial
    ensures r.Fail? ==> r.fault.Panic?
  {
    if forall n :: n in initial ==> Settable(initial[n]) then Ok(Store(initial))
    else Fail(Panic("invalid setting type"))
  }

  /** `Get`: the stored value, or nil for an unknown name. */
  function Get(s: Store, name: string): (r: Any)
    ensures name in s.values ==> r == s.values[name]
    ensures name !in s.values ==> r == Nil
  {
    if name in s.values then s.values[name] else Nil
  }

  /** `Gets`: a new map with every current setting; being a separate value,
      editing it cannot reach the store. */
  function Gets(s: Store): (r: map<string, Any>)
    ensures r.Keys == s.values.Keys
    ensures forall n :: n in r ==> r[n] == Get(s, n)
  {
    map n | n in s.values :: s.values[n]
  }

  /** `Set`: refuses an unknown name and a value of another kind, changing
      nothing; otherwise replaces that one value. */
  function Set(s: Store, name: string, v: Any): (r: (Store, bool))
    ensures r.1 <==> name in s.values && TypesMatch(s.values[name], v)
    ensures !r.1 ==> r.0 == s
    ensures r.0.values.Keys == s.values.Keys
    ensures r.1 ==> Get(r.0, name) == v
    ensures forall n :: n != name ==> Get(r.0, n) == Get(s, n)
  {
    if name !in s.values then (s, false)
    else if !TypesMatch(s.values[name], v) then (s, false)
    else (s.(values := s.values[name := v]), true)
  }

  /** The merge loop of `load`, over an already decoded map: a name the
      store does not have is skipped, and a value of another kind keeps the
      current one. */
  function Merge(s: Store, loaded: map<string, Any>): (r: Store)
    ensures r.values.Keys == s.values.Keys
    ensures forall n :: n in r.values ==>
              || r.values[n] == s.values[n]
              || (n in loaded && TypesMatch(s.values[n], loaded[n]) && r.values[n] == loaded[n])
  {
    Store(map n | n in s.values ::
      if n in loaded && TypesMatch(s.values[n], loaded[n]) then loaded[n] else s.values[n])
  }

  /** The merge keeps the key set; each value is replaced exactly when the
      decoded map has a value of the same kind for it. */
  lemma MergeReplacesMatchingKinds(s: Store, loaded: map<string, Any>)
    ensures Merge(s, loaded).values.Keys == s.values.Keys
    ensures forall n :: n in s.values && n in loaded && TypesMatch(s.values[n], loaded[n]) ==>
              Get(Merge(s, loaded), n) == loaded[n]
    ensures forall n :: n in s.values && !(n in loaded && TypesMatch(s.values[n], loaded[n])) ==>
              Get(Merge(s, loaded), n) == Get(s, n)
  {
  }

  /** The merge loop as the Go code runs it, one decoded entry at a time in
      some order; the result does not depend on the order. */
  method MergeLoop(s: Store, loaded: map<string, Any>) returns (r: Store)
    ensures r == Merge(s, loaded)
  {
    r := s;
    var todo := loaded.Keys;
    while todo != {}
      invariant todo <= loaded.Keys
      invariant r.values.Keys == s.values.Keys
      invariant forall n :: n in s.values && n in loaded && n !in todo ==>
                  r.values[n] == Merge(s, loaded).values[n]
      invariant forall n :: n in s.values && (n !in loaded || n in todo) ==> r.values[n] == s.values[n]
      decreases todo
    {
      var name :| name in todo;
      var current := if name in r.values then Some(r.values[name]) else None;
      if current.Some? && TypesMatch(current.value, loaded[name]) {
        r := r.(values := r.values[name := loaded[name]]);
      }
      todo := todo - {name};
    }
  }

  /** `Set` and the merge both keep every stored value's kind, so the store
      stays well typed for its whole life. */
  lemma SetAndMergeKeepKinds(s: Store, name: string, v: Any, loaded: map<string, Any>)
    requires WellTyped(s)
    ensures WellTyped(Set(s, name, v).0) && WellTyped(Merge(s, loaded))
    ensures forall n :: n in s.values ==>
              TypesMatch(s.values[n], Set(s, name, v).0.values[n]) &&
              TypesMatch(s.values[n], Merge(s, loaded).values[n])
  {
  }
}
