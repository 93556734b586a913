/**
 * The event emitter (src/engine/events.ts): for each event name, a listener
 * set, created on the first subscription and dropped when it empties. A
 * listener set is an object with identity, which the unsubscribe closure
 * returned by `on` captures; here the sets live in a table under numeric
 * identities and the closure is the `Unsub` token that names one of them.
 */
module Events {
  import opened Wrappers
  import opened Collections

  /** The listeners map's entry: an event name and the identity of its set. */
  datatype Binding = Binding(event: string, setId: nat)

  function BindingEvent(b: Binding): string { b.event }

  /** A listener set object, remembering the event it was created for. */
  datatype ListenerSet<L> = ListenerSet(event: string, fns: seq<L>)

  datatype Emitter<L> = Emitter(bindings: seq<Binding>, sets: map<nat, ListenerSet<L>>, nextSet: nat)

  /** The closure returned by `on`: the captured event, set and listener. */
  datatype Unsub<L> = Unsub(event: string, setId: nat, fn: L)

  function EmptyEmitter<L>(): Emitter<L> { Emitter([], map[], 0) }

  /**
   * The emitter's invariant: one set per event name, no name mapped to an
   * empty set, and every set duplicate-free (a JavaScript `Set`).
   */
  predicate Valid<L(==,!new)>(e: Emitter<L>) {
    KeysDistinct(e.bindings, BindingEvent) &&
    (forall i :: 0 <= i < |e.bindings| ==>
       e.bindings[i].setId in e.sets && e.sets[e.bindings[i].setId].event == e.bindings[i].event &&
       |e.sets[e.bindings[i].setId].fns| > 0) &&
    (forall id :: id in e.sets ==> id < e.nextSet && NoDups(e.sets[id].fns))
  }

  /** A closure handed out by this emitter: its set exists and belongs to its event. */
  predicate Issued<L>(e: Emitter<L>, t: Unsub<L>) {
    t.setId in e.sets && e.sets[t.setId].event == t.event
  }

  /** The listeners currently registered for an event, in subscription order. */
  function Listeners<L>(e: Emitter<L>, ev: string): seq<L>
  {
    match Lookup(e.bindings, BindingEvent, ev)
    case None => []
    case Some(b) => if b.setId in e.sets then e.sets[b.setId].fns else []
  }

  /** Whether `ev` is mapped to the set `id`. */
  predicate BoundTo<L>(e: Emitter<L>, ev: string, id: nat) {
    Lookup(e.bindings, BindingEvent, ev) == Some(Binding(ev, id))
  }

  lemma ValidLookup<L(!new)>(e: Emitter<L>, ev: string)
    requires Valid(e)
    ensures Lookup(e.bindings, BindingEvent, ev).Some? ==>
              var b := Lookup(e.bindings, BindingEvent, ev).value;
              b.event == ev && b.setId in e.sets && e.sets[b.setId].event == ev && |e.sets[b.setId].fns| > 0 &&
              Listeners(e, ev) == e.sets[b.setId].fns
    ensures Lookup(e.bindings, BindingEvent, ev).None? ==> Listeners(e, ev) == []
  {
  }

  /**
   * `on`: the listener joins the event's set, which is created on first
   * use; a second registration of the same listener keeps one copy.
   */
  function On<L(==,!new)>(e: Emitter<L>, ev: string, fn: L): (r: (Emitter<L>, Unsub<L>))
    ensures r.1.event == ev && r.1.fn == fn
    ensures Valid(e) ==> Valid(r.0) && Issued(r.0, r.1) && BoundTo(r.0, ev, r.1.setId)
    ensures Valid(e) ==> forall h :: h in Listeners(r.0, ev) <==> h in Listeners(e, ev) || h == fn
    ensures Valid(e) ==> forall ev' :: ev' != ev ==> Listeners(r.0, ev') == Listeners(e, ev')
    ensures Valid(e) ==> forall t :: Issued(e, t) ==> Issued(r.0, t)
  {
    match Lookup(e.bindings, BindingEvent, ev)
    case None =>
      var id := e.nextSet;
      var r := Emitter(e.bindings + [Binding(ev, id)], e.sets[id := ListenerSet(ev, [fn])], id + 1);
      assert Valid(e) ==> Valid(r) && BoundTo(r, ev, id) && forall ev' :: ev' != ev ==> Listeners(r, ev') == Listeners(e, ev') by {
        if Valid(e) { OnNewEffect(e, ev, fn); }
      }
      (r, Unsub(ev, id, fn))
    case Some(b) =>
      var prior := if b.setId in e.sets then e.sets[b.setId].fns else [];
      var r := e.(sets := e.sets[b.setId := ListenerSet(ev, SetAdd(prior, fn))]);
      assert Valid(e) ==> Valid(r) && forall ev' :: ev' != ev ==> Listeners(r, ev') == Listeners(e, ev') by {
        if Valid(e) { OnExistingEffect(e, ev, fn); }
      }
      (r, Unsub(ev, b.setId, fn))
  }

  /** `on` for an event with no set yet: a fresh set holding just the listener. */
  lemma OnNewEffect<L(!new)>(e: Emitter<L>, ev: string, fn: L)
    requires Valid(e) && Lookup(e.bindings, BindingEvent, ev).None?
    ensures var id := e.nextSet;
            var r := Emitter(e.bindings + [Binding(ev, id)], e.sets[id := ListenerSet(ev, [fn])], id + 1);
            Valid(r) && BoundTo(r, ev, id) && forall ev' :: ev' != ev ==> Listeners(r, ev') == Listeners(e, ev')
  {
    var id := e.nextSet;
    var r := Emitter(e.bindings + [Binding(ev, id)], e.sets[id := ListenerSet(ev, [fn])], id + 1);
    assert r.bindings[|e.bindings|] == Binding(ev, id);
    forall ev' | ev' != ev ensures Listeners(r, ev') == Listeners(e, ev') {
      LookupAppend(e.bindings, Binding(ev, id), ev');
    }
    LookupAppend(e.bindings, Binding(ev, id), ev);
  }

  /** `on` for an event that has a set: the listener joins it. */
  lemma OnExistingEffect<L(!new)>(e: Emitter<L>, ev: string, fn: L)
    requires Valid(e) && Lookup(e.bindings, BindingEvent, ev).Some?
    ensures var b := Lookup(e.bindings, BindingEvent, ev).value;
            b.setId in e.sets &&
            var r := e.(sets := e.sets[b.setId := ListenerSet(ev, SetAdd(e.sets[b.setId].fns, fn))]);
            Valid(r) && forall ev' :: ev' != ev ==> Listeners(r, ev') == Listeners(e, ev')
  {
    ValidLookup(e, ev);
    var b := Lookup(e.bindings, BindingEvent, ev).value;
    var r := e.(sets := e.sets[b.setId := ListenerSet(ev, SetAdd(e.sets[b.setId].fns, fn))]);
    forall ev' | ev' != ev ensures Listeners(r, ev') == Listeners(e, ev') {
      ValidLookup(e, ev');
    }
  }

  /** Looking up in a map extended by a new key. */
  lemma LookupAppend(s: seq<Binding>, b: Binding, ev: string)
    requires forall i :: 0 <= i < |s| ==> s[i].event != b.event
    ensures Lookup(s + [b], BindingEvent, ev) == if ev == b.event then Some(b) else Lookup(s, BindingEvent, ev)
  {
    var t := s + [b];
    if ev == b.event {
      assert t[|s|] == b;
      assert IndexOf(t, BindingEvent, ev) == Some(|s|);
    } else {
      match IndexOf(s, BindingEvent, ev)
      case None =>
      case Some(i) =>
        assert t[i] == s[i];
        assert IndexOf(t, BindingEvent, ev) == Some(i);
    }
  }

  /** Deleting `fn` from set `id`, and dropping the event's key when `dropKey` holds. */
  function DeleteFrom<L(==,!new)>(e: Emitter<L>, id: nat, fn: L, ev: string, dropKey: bool): (r: Emitter<L>)
    requires id in e.sets
  {
    var fns := SetDelete(e.sets[id].fns, fn);
    var sets := e.sets[id := e.sets[id].(fns := fns)];
    if dropKey then e.(bindings := RemoveKey(e.bindings, BindingEvent, ev), sets := sets)
    else e.(sets := sets)
  }

  /**
   * `off`: the listener leaves the event's set, and the event is dropped
   * once its set is empty; an unknown event or listener changes nothing.
   */
  function Off<L(==,!new)>(e: Emitter<L>, ev: string, fn: L): (r: Emitter<L>)
    ensures Valid(e) ==> Valid(r) && fn !in Listeners(r, ev)
    ensures Valid(e) ==> forall h :: h != fn ==> (h in Listeners(r, ev) <==> h in Listeners(e, ev))
    ensures Valid(e) ==> forall ev' :: ev' != ev ==> Listeners(r, ev') == Listeners(e, ev')
    ensures Valid(e) && fn !in Listeners(e, ev) ==> r == e
    ensures Valid(e) ==> forall t :: Issued(e, t) ==> Issued(r, t)
  {
    match Lookup(e.bindings, BindingEvent, ev)
    case None => e
    case Some(b) =>
      if b.setId !in e.sets then e
      else
        var fns := SetDelete(e.sets[b.setId].fns, fn);
        var r := DeleteFrom(e, b.setId, fn, ev, |fns| == 0);
        assert Valid(e) ==> Valid(r) && fn !in Listeners(r, ev) &&
                            (forall h :: h != fn ==> (h in Listeners(r, ev) <==> h in Listeners(e, ev))) &&
                            (forall ev' :: ev' != ev ==> Listeners(r, ev') == Listeners(e, ev')) by {
          if Valid(e) {
            DeleteFromEffect(e, b.setId, fn, ev);
          }
        }
        assert Valid(e) && fn !in Listeners(e, ev) ==> r == e by {
          if Valid(e) && fn !in Listeners(e, ev) {
            DeleteAbsentKeeps(e, ev, fn);
          }
        }
        assert forall t :: Issued(e, t) ==> Issued(r, t) by {
          DeleteFromIssued(e, b.setId, fn, ev, |fns| == 0);
        }
        r
  }

  /** Deleting a listener the event does not have leaves the emitter as it was. */
  lemma DeleteAbsentKeeps<L(!new)>(e: Emitter<L>, ev: string, fn: L)
    requires Valid(e) && fn !in Listeners(e, ev) && Lookup(e.bindings, BindingEvent, ev).Some?
    ensures var id := Lookup(e.bindings, BindingEvent, ev).value.setId;
            id in e.sets && DeleteFrom(e, id, fn, ev, |SetDelete(e.sets[id].fns, fn)| == 0) == e
  {
    ValidLookup(e, ev);
    var id := Lookup(e.bindings, BindingEvent, ev).value.setId;
    FilterAll(e.sets[id].fns, y => y != fn);
    assert e.sets[id := e.sets[id]] == e.sets;
  }

  /** Deleting from a set keeps every set and the event it belongs to, so every closure stays issued. */
  lemma DeleteFromIssued<L(!new)>(e: Emitter<L>, id: nat, fn: L, ev: string, dropKey: bool)
    requires id in e.sets
    ensures forall t :: Issued(e, t) ==> Issued(DeleteFrom(e, id, fn, ev, dropKey), t)
  {
  }

  /**
   * Deleting from the set an event is bound to, dropping the key exactly
   * when the set empties, keeps the invariant and touches no other event.
   */
  lemma DeleteFromEffect<L(!new)>(e: Emitter<L>, id: nat, fn: L, ev: string)
    requires Valid(e) && BoundTo(e, ev, id)
    ensures id in e.sets
    ensures var r := DeleteFrom(e, id, fn, ev, |SetDelete(e.sets[id].fns, fn)| == 0);
            Valid(r) && fn !in Listeners(r, ev) &&
            (forall h :: h != fn ==> (h in Listeners(r, ev) <==> h in Listeners(e, ev))) &&
            (forall ev' :: ev' != ev ==> Listeners(r, ev') == Listeners(e, ev'))
  {
    ValidLookup(e, ev);
    var fns := SetDelete(e.sets[id].fns, fn);
    var r := DeleteFrom(e, id, fn, ev, |fns| == 0);
    forall ev' | ev' != ev ensures Listeners(r, ev') == Listeners(e, ev') {
      ValidLookup(e, ev');
      var b' := Lookup(e.bindings, BindingEvent, ev');
      if b'.Some? {
        assert b'.value.setId != id;
      }
    }
    if |fns| == 0 {
      assert Lookup(r.bindings, BindingEvent, ev).None?;
      forall i | 0 <= i < |r.bindings|
        ensures r.bindings[i].setId in r.sets && r.sets[r.bindings[i].setId].event == r.bindings[i].event &&
                |r.sets[r.bindings[i].setId].fns| > 0
      {
        var j :| 0 <= j < |e.bindings| && e.bindings[j] == r.bindings[i];
        assert e.bindings[j].event != ev;
        var bj := Lookup(e.bindings, BindingEvent, e.bindings[j].event);
        assert bj == Some(e.bindings[j]);
      }
    } else {
      forall i | 0 <= i < |r.bindings|
        ensures r.bindings[i].setId in r.sets && |r.sets[r.bindings[i].setId].fns| > 0
      {
      }
    }
  }

  /**
   * The unsubscribe closure as written: it deletes the listener from the
   * set it captured and, if that set is then empty, deletes the event's
   * key, whatever set the key now maps to.
   */
  function UnsubscribeAsWritten<L(==,!new)>(e: Emitter<L>, t: Unsub<L>): (r: Emitter<L>)
  {
    if t.setId !in e.sets then e
    else DeleteFrom(e, t.setId, t.fn, t.event, |SetDelete(e.sets[t.setId].fns, t.fn)| == 0)
  }

  /**
   * The unsubscribe closure as evidently intended: the key is deleted only
   * while it still maps to the captured set.
   */
  function Unsubscribe<L(==,!new)>(e: Emitter<L>, t: Unsub<L>): (r: Emitter<L>)
    ensures Valid(e) && Issued(e, t) ==> Valid(r)
    ensures Valid(e) && Issued(e, t) ==> forall ev, h :: h != t.fn ==> (h in Listeners(r, ev) <==> h in Listeners(e, ev))
    ensures Valid(e) && Issued(e, t) && BoundTo(e, t.event, t.setId) ==> t.fn !in Listeners(r, t.event)
  {
    if t.setId !in e.sets then e
    else
      var bound := BoundTo(e, t.event, t.setId);
      var r := DeleteFrom(e, t.setId, t.fn, t.event, bound && |SetDelete(e.sets[t.setId].fns, t.fn)| == 0);
      assert Valid(e) && Issued(e, t) ==>
               Valid(r) &&
               (forall ev, h :: h != t.fn ==> (h in Listeners(r, ev) <==> h in Listeners(e, ev))) &&
               (bound ==> t.fn !in Listeners(r, t.event)) by {
        if Valid(e) && Issued(e, t) {
          if bound {
            DeleteFromEffect(e, t.setId, t.fn, t.event);
          } else {
            StaleDeleteHidden(e, t);
          }
        }
      }
      r
  }

  /** Deleting from a set no event is bound to changes no event's listeners. */
  lemma StaleDeleteHidden<L(!new)>(e: Emitter<L>, t: Unsub<L>)
    requires Valid(e) && Issued(e, t) && !BoundTo(e, t.event, t.setId)
    ensures var r := DeleteFrom(e, t.setId, t.fn, t.event, false);
            Valid(r) && forall ev :: Listeners(r, ev) == Listeners(e, ev)
  {
    var r := DeleteFrom(e, t.setId, t.fn, t.event, false);
    forall i | 0 <= i < |e.bindings| ensures e.bindings[i].setId != t.setId {
      ValidLookup(e, e.bindings[i].event);
    }
    forall ev ensures Listeners(r, ev) == Listeners(e, ev) {
      ValidLookup(e, ev);
    }
  }

  /**
   * `emit`: the listeners to call, copied before the first call, so
   * subscriptions made or dropped by a listener do not affect this emit.
   */
  function Emit<L(==,!new)>(e: Emitter<L>, ev: string): (r: seq<L>)
    ensures Valid(e) ==> NoDups(r)
    ensures forall h :: h in r <==> h in Listeners(e, ev)
    ensures Lookup(e.bindings, BindingEvent, ev).None? ==> r == []
  {
    var r := Listeners(e, ev);
    assert Valid(e) ==> NoDups(r) by {
      if Valid(e) { ValidLookup(e, ev); }
    }
    r
  }

  /** The closure returned by `on` removes that listener. */
  lemma UnsubscribeRemoves<L(!new)>(e: Emitter<L>, ev: string, fn: L)
    requires Valid(e)
    ensures var o := On(e, ev, fn);
            fn !in Listeners(Unsubscribe(o.0, o.1), ev) && fn !in Listeners(UnsubscribeAsWritten(o.0, o.1), ev)
  {
    var o := On(e, ev, fn);
    var bs := o.0.bindings;
    DeleteFromEffect(o.0, o.1.setId, fn, ev);
  }

  /** Registering a listener twice is registering it once. */
  lemma OnTwice<L(!new)>(e: Emitter<L>, ev: string, fn: L)
    requires Valid(e)
    ensures Listeners(On(On(e, ev, fn).0, ev, fn).0, ev) == Listeners(On(e, ev, fn).0, ev)
  {
    var e1 := On(e, ev, fn).0;
    ValidLookup(e1, ev);
  }

  /**
   * The stale closure: subscribe `f`, remove it with `off`, subscribe `g`
   * (a new set under the same name), then call `f`'s closure. As written
   * `g` is gone; as intended `g` stays.
   */
  lemma StaleUnsubscribeDropsListener<L(!new)>(ev: string, f: L, g: L)
    requires f != g
    ensures var o1 := On(EmptyEmitter<L>(), ev, f);
            var e2 := Off(o1.0, ev, f);
            var o3 := On(e2, ev, g);
            g in Listeners(o3.0, ev) &&
            g !in Listeners(UnsubscribeAsWritten(o3.0, o1.1), ev) &&
            g in Listeners(Unsubscribe(o3.0, o1.1), ev)
  {
    var e0 := EmptyEmitter<L>();
    var o1 := On(e0, ev, f);
    var e2 := Off(o1.0, ev, f);
    var o3 := On(e2, ev, g);
    assert o1.1.setId == 0 && o3.1.setId == 1;
    assert e2.sets[0].fns == [];
    var w := UnsubscribeAsWritten(o3.0, o1.1);
    assert w.bindings == [];
  }
}
