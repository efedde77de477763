/** The listener bookkeeping of event/event.go.

    A synchronous event keeps its listeners in connection order, each with
    an id taken from `nextid`; connecting appends, unlistening removes the
    listener with the given id, and firing calls every listener in list
    order. A listener function is an opaque value of type `F`; firing is
    modelled by the sequence of functions called. The asynchronous event
    keeps the same list (its goroutines and channels are left out) and in
    addition closes the removed listener's channel, which is modelled by
    returning that listener.
 */
module Events {
  import opened Wrappers
  import opened Seqs

  datatype Listener<F> = Listener(id: int, fn: F)

  datatype Event<F> = Event(nextid: int, listeners: seq<Listener<F>>)

  /** A `connection`: its event reference (nil once disconnected) and the listener id. */
  datatype Connection = Connection(attached: bool, id: int)

  /** Ids strictly increase along the list and stay below `nextid`. */
  ghost predicate Ordered<F>(e: Event<F>)
  {
    && (forall i, j :: 0 <= i < j < |e.listeners| ==> e.listeners[i].id < e.listeners[j].id)
    && (forall i :: 0 <= i < |e.listeners| ==> e.listeners[i].id < e.nextid)
  }

  /** The functions `Fire` calls, in the order it calls them. */
  function Calls<F>(ls: seq<Listener<F>>): (r: seq<F>)
    ensures |r| == |ls| && forall i :: 0 <= i < |ls| ==> r[i] == ls[i].fn
  {
    seq(|ls|, i requires 0 <= i < |ls| => ls[i].fn)
  }

  /** `syncEvent.Fire`: every listener, in list order. */
  function Fire<F>(e: Event<F>): (r: seq<F>)
    ensures |r| == |e.listeners| && forall i :: 0 <= i < |r| ==> r[i] == e.listeners[i].fn
  {
    Calls(e.listeners)
  }

  function NewEvent<F>(): (e: Event<F>)
    ensures Ordered(e) && Fire(e) == []
  {
    Event(0, [])
  }

  /** `syncEvent.Connect` with a non-nil function (a nil one panics, so the
      parameter type has no nil): the listener gets id `nextid` and goes to
      the end of the list. */
  function Connect<F>(e: Event<F>, fn: F): (r: (Event<F>, Connection))
    ensures r.1 == Connection(true, e.nextid) && r.0.nextid == e.nextid + 1
    ensures |r.0.listeners| == |e.listeners| + 1 && r.0.listeners[|e.listeners|] == Listener(e.nextid, fn)
    ensures Fire(r.0) == Fire(e) + [fn]
    ensures r.0.listeners[..|e.listeners|] == e.listeners
    ensures Ordered(e) ==> Ordered(r.0)
  {
    var l := Listener(e.nextid, fn);
    var r := (Event(e.nextid + 1, e.listeners + [l]), Connection(true, e.nextid));
    assert r.0.listeners[..|e.listeners|] == e.listeners;
    r
  }

  /** The ids of the listeners, in list order. */
  function Ids<F>(ls: seq<Listener<F>>): (r: seq<int>)
    ensures |r| == |ls| && forall i :: 0 <= i < |ls| ==> r[i] == ls[i].id
  {
    seq(|ls|, i requires 0 <= i < |ls| => ls[i].id)
  }

  /** Position of the first listener with the given id, or -1. */
  function Find<F>(ls: seq<Listener<F>>, id: int): (r: int)
    ensures -1 <= r < |ls|
    ensures r >= 0 ==> ls[r].id == id
    ensures forall j :: 0 <= j < |ls| && (r == -1 || j < r) ==> ls[j].id != id
  {
    IndexOf(Ids(ls), id)
  }

  /** The loop of `unlisten` on either kind of event: remove the first
      listener with the id, keeping the others in order. */
  function Remove<F>(ls: seq<Listener<F>>, id: int): (r: seq<Listener<F>>)
  {
    var i := Find(ls, id);
    if i == -1 then ls else RemoveAt(ls, i)
  }

  /** `syncEvent.unlisten`. */
  function Unlisten<F>(e: Event<F>, id: int): (r: Event<F>)
    ensures r.nextid == e.nextid
    ensures Find(e.listeners, id) == -1 ==> r == e
    ensures Find(e.listeners, id) >= 0 ==> |r.listeners| == |e.listeners| - 1
  {
    e.(listeners := Remove(e.listeners, id))
  }

  /** `asyncEvent.unlisten`: the same removal, also naming the listener
      whose channel is closed. */
  function AsyncUnlisten<F>(e: Event<F>, id: int): (r: (Event<F>, Option<Listener<F>>))
    ensures r.0 == Unlisten(e, id)
    ensures r.1.Some? <==> Find(e.listeners, id) >= 0
    ensures r.1.Some? ==> r.1.value.id == id && r.1.value in e.listeners
  {
    var i := Find(e.listeners, id);
    (Unlisten(e, id), if i == -1 then None else Some(e.listeners[i]))
  }

  /** `connection.Disconnect`: unlisten once, then forget the event. */
  function Disconnect<F>(e: Event<F>, c: Connection): (r: (Event<F>, Connection))
    ensures !r.1.attached && r.1.id == c.id && r.0.nextid == e.nextid
    ensures c.attached ==> r.0 == Unlisten(e, c.id)
    ensures !c.attached ==> r.0 == e
  {
    if c.attached then (Unlisten(e, c.id), c.(attached := false)) else (e, c)
  }

  // ---------------------------------------------------------------------
  // Properties

  /** Removing position `i` keeps the ids increasing and below `nextid`. */
  lemma CutKeepsOrder<F>(e: Event<F>, i: int)
    requires Ordered(e) && 0 <= i < |e.listeners|
    ensures Ordered(e.(listeners := RemoveAt(e.listeners, i)))
  {
    var ls := e.listeners;
    var r := RemoveAt(ls, i);
    forall a, b | 0 <= a < b < |r| ensures r[a].id < r[b].id {
      var a' := if a < i then a else a + 1;
      var b' := if b < i then b else b + 1;
      assert r[a] == ls[a'] && r[b] == ls[b'];
    }
    forall a | 0 <= a < |r| ensures r[a].id < e.nextid {
      assert r[a] == ls[if a < i then a else a + 1];
    }
  }

  /** Removing position `i` leaves exactly the other listeners. */
  lemma CutMembers<F>(ls: seq<Listener<F>>, i: int)
    requires 0 <= i < |ls|
    requires forall a, b :: 0 <= a < b < |ls| ==> ls[a].id < ls[b].id
    ensures forall l :: l in RemoveAt(ls, i) ==> l.id != ls[i].id
    ensures forall l :: l in ls && l.id != ls[i].id ==> l in RemoveAt(ls, i)
  {
    var r := RemoveAt(ls, i);
    forall l | l in r ensures l.id != ls[i].id {
      var k :| 0 <= k < |r| && r[k] == l;
      if k < i { assert r[k] == ls[k]; } else { assert r[k] == ls[k + 1]; }
    }
    forall l | l in ls && l.id != ls[i].id ensures l in r {
      var k :| 0 <= k < |ls| && ls[k] == l;
      if k < i { assert r[k] == l; } else { assert k != i; assert r[k - 1] == l; }
    }
  }

  /** Removing position `i` removes the `i`-th call from `Fire`. */
  lemma CutCalls<F>(ls: seq<Listener<F>>, i: int)
    requires 0 <= i < |ls|
    ensures Calls(RemoveAt(ls, i)) == Calls(ls)[..i] + Calls(ls)[i + 1..]
  {
  }

  /** An id no listener has is not found. */
  lemma NotFoundAbsent<F>(ls: seq<Listener<F>>, id: int)
    requires Find(ls, id) == -1
    ensures forall l :: l in ls ==> l.id != id
  {
    forall l | l in ls ensures l.id != id {
      var k :| 0 <= k < |ls| && ls[k] == l;
    }
  }

  /** Unlistening a connected id removes exactly that listener: the others
      keep their order, nothing with that id remains, and the ordering of
      ids is kept. An unknown id changes nothing. */
  lemma UnlistenRemovesOne<F>(e: Event<F>, id: int)
    requires Ordered(e)
    ensures var e1 := Unlisten(e, id);
            && Ordered(e1)
            && (forall l :: l in e1.listeners ==> l.id != id)
            && (forall l :: l in e.listeners && l.id != id ==> l in e1.listeners)
            && (Find(e.listeners, id) == -1 ==> e1 == e)
            && (Find(e.listeners, id) >= 0 ==>
                  var i := Find(e.listeners, id);
                  Fire(e1) == Fire(e)[..i] + Fire(e)[i + 1..])
  {
    if Find(e.listeners, id) >= 0 {
      UnlistenFound(e, id);
    } else {
      NotFoundAbsent(e.listeners, id);
    }
  }

  /** The case of `UnlistenRemovesOne` where a listener has the id. */
  lemma UnlistenFound<F>(e: Event<F>, id: int)
    requires Ordered(e) && Find(e.listeners, id) >= 0
    ensures var e1 := Unlisten(e, id);
            var i := Find(e.listeners, id);
            && Ordered(e1)
            && (forall l :: l in e1.listeners ==> l.id != id)
            && (forall l :: l in e.listeners && l.id != id ==> l in e1.listeners)
            && Fire(e1) == Fire(e)[..i] + Fire(e)[i + 1..]
  {
    var ls := e.listeners;
    var i := Find(ls, id);
    var e1 := Unlisten(e, id);
    assert e1.listeners == RemoveAt(ls, i);
    assert Ordered(e1) by { CutKeepsOrder(e, i); }
    assert ls[i].id == id;
    CutMembers(ls, i);
    assert Fire(e1) == Fire(e)[..i] + Fire(e)[i + 1..] by { CutCalls(ls, i); }
  }

  /** Disconnecting twice is the same as disconnecting once. */
  lemma DisconnectIdempotent<F>(e: Event<F>, c: Connection)
    ensures var (e1, c1) := Disconnect(e, c);
            !c1.attached && Disconnect(e1, c1) == (e1, c1)
  {
  }

  /** Disconnecting the connection `Connect` returned removes exactly the
      listener it appended: the list is the one before the call. */
  lemma ConnectThenDisconnect<F>(e: Event<F>, fn: F)
    requires Ordered(e)
    ensures var (e1, c) := Connect(e, fn);
            var (e2, c2) := Disconnect(e1, c);
            e2 == e.(nextid := e.nextid + 1) && !c2.attached
  {
    var l := Listener(e.nextid, fn);
    FindAppended(e.listeners, l);
    assert RemoveAt(e.listeners + [l], |e.listeners|) == e.listeners;
  }

  /** A listener appended with an id no earlier listener has is found last. */
  lemma {:induction false} FindAppended<F>(ls: seq<Listener<F>>, l: Listener<F>)
    requires forall i :: 0 <= i < |ls| ==> ls[i].id != l.id
    ensures Find(ls + [l], l.id) == |ls|
    decreases |ls|
  {
    if |ls| > 0 {
      assert (ls + [l])[1..] == ls[1..] + [l];
      FindAppended(ls[1..], l);
    }
  }

  /** Connects each function in turn. */
  function ConnectAll<F>(e: Event<F>, fns: seq<F>): (r: Event<F>)
    decreases |fns|
  {
    if fns == [] then e else ConnectAll(Connect(e, fns[0]).0, fns[1..])
  }

  /** Firing calls the listeners in the order they were connected, and the
      ids handed out keep increasing. */
  lemma {:induction false} FireInConnectionOrder<F>(e: Event<F>, fns: seq<F>)
    requires Ordered(e)
    ensures Fire(ConnectAll(e, fns)) == Fire(e) + fns
    ensures Ordered(ConnectAll(e, fns))
    ensures ConnectAll(e, fns).nextid == e.nextid + |fns|
    decreases |fns|
  {
    if fns != [] {
      var e1 := Connect(e, fns[0]).0;
      FireInConnectionOrder(e1, fns[1..]);
      assert Fire(e) + [fns[0]] + fns[1..] == Fire(e) + fns;
    }
  }
}
