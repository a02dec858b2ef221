/** The listener registry of class `Mediator` in mediator.py: registration
    with priorities, removal, and dispatch in ascending priority order. */
module Mediator {
  import opened Wrappers
  import opened Events
  import opened Entries

  /** `Mediator._listeners`: event key -> priority-ordered bindings. */
  type Registry<K, L> = map<K, Entry<L>>

  /** The exceptions the mediator raises, by Python class:
      IndexError, TypeError, NotImplementedError, ValueError, AttributeError. */
  datatype Error<K> =
    | PriorityConflict(key: K, priority: int)
    | InvalidSubscriberType
    | Unimplemented
    | InvalidDeclaration(key: K)
    | MissingHandler(name: string)

  /** The class invariant every public operation keeps: each entry's
      priorities are unique and in ascending order. */
  predicate Valid<K, L>(reg: Registry<K, L>) {
    forall k :: k in reg ==> Ascending(reg[k])
  }

  /** The entry of a key; an absent key reads as the empty dictionary. */
  function EntryOf<K, L>(reg: Registry<K, L>, key: K): Entry<L> {
    if key in reg then reg[key] else []
  }

  /** The priority add_listener stores: the explicit one, or the default. */
  function AssignedPriority<L>(e: Entry<L>, priority: Option<int>): int {
    match priority
    case Some(p) => p
    case None => DefaultPriority(e)
  }

  /** `Mediator.add_listener`: registers `listener` for the resolved key,
      refusing a priority that key already uses. */
  function AddListener<K, L>(reg: Registry<K, L>, ev: EventRef<K>, listener: L,
                             priority: Option<int>): (r: Result<Registry<K, L>, Error<K>>)
    requires Valid(reg)
    ensures var e := EntryOf(reg, EventName(ev));
      r.Failure? <==> priority.Some? && Occupied(e, priority.value)
    ensures r.Failure? ==> r.error == PriorityConflict(EventName(ev), priority.value)
    ensures r.Success? ==> Valid(r.value)
    ensures r.Success? ==> r.value.Keys == reg.Keys + {EventName(ev)}
    ensures r.Success? ==> forall k :: k in reg && k != EventName(ev) ==> r.value[k] == reg[k]
    ensures r.Success? ==> var e := EntryOf(reg, EventName(ev));
      multiset(r.value[EventName(ev)])
        == multiset(e) + multiset{Binding(AssignedPriority(e, priority), listener)}
  {
    var key := EventName(ev);
    var e := EntryOf(reg, key);
    if priority.Some? && Occupied(e, priority.value) then
      Failure(PriorityConflict(key, priority.value))
    else
      DefaultPriorityIsNext(e);
      Success(reg[key := Insert(e, Binding(AssignedPriority(e, priority), listener))])
  }

  /** The rebuilt entry is exactly what sorting the old items plus the new
      one by priority yields: any ascending arrangement of them equals it. */
  lemma AddListenerIsSorted<K, L>(reg: Registry<K, L>, ev: EventRef<K>, listener: L,
                                  priority: Option<int>, sorted: Entry<L>)
    requires Valid(reg)
    requires AddListener(reg, ev, listener, priority).Success?
    requires var e := EntryOf(reg, EventName(ev));
      multiset(sorted) == multiset(e + [Binding(AssignedPriority(e, priority), listener)])
    requires Ascending(sorted)
    ensures AddListener(reg, ev, listener, priority).value[EventName(ev)] == sorted
  {
    var r := AddListener(reg, ev, listener, priority).value;
    SortedUnique(r[EventName(ev)], sorted);
  }

  /** With no priority given, add_listener never fails and stores the
      listener at 0 for an absent or empty entry, else at the largest
      existing priority plus one. */
  lemma AddListenerDefaultPriority<K, L>(reg: Registry<K, L>, ev: EventRef<K>, listener: L)
    requires Valid(reg)
    ensures AddListener(reg, ev, listener, None).Success?
    ensures var e := EntryOf(reg, EventName(ev));
      var p := if |e| == 0 then 0 else MaxPriority(e) + 1;
      Binding(p, listener) in AddListener(reg, ev, listener, None).value[EventName(ev)]
  {
    var e := EntryOf(reg, EventName(ev));
    DefaultPriorityIsNext(e);
    AddListenerDefaultAppends(reg, ev, listener);
    var r := AddListener(reg, ev, listener, None).value;
    assert r[EventName(ev)] == e + [Binding(DefaultPriority(e), listener)];
    assert r[EventName(ev)][|e|] == Binding(DefaultPriority(e), listener);
  }

  /** A registration without priority goes to the end of the entry. */
  lemma AddListenerDefaultAppends<K, L>(reg: Registry<K, L>, ev: EventRef<K>, listener: L)
    requires Valid(reg)
    ensures var e := EntryOf(reg, EventName(ev));
      AddListener(reg, ev, listener, None)
        == Success(reg[EventName(ev) := e + [Binding(DefaultPriority(e), listener)]])
  {
    var e := EntryOf(reg, EventName(ev));
    DefaultPriorityIsNext(e);
    InsertPastEnd(e, Binding(DefaultPriority(e), listener));
  }

  /** The bindings 0 -> ls[0], 1 -> ls[1], ... */
  function Numbered<L>(ls: seq<L>): (e: Entry<L>)
    ensures |e| == |ls|
    ensures forall i :: 0 <= i < |ls| ==> e[i] == Binding(i, ls[i])
  {
    seq(|ls|, i requires 0 <= i < |ls| => Binding(i, ls[i]))
  }

  /** A run of add_listener calls without priority, one per listener, in
      order. */
  function AddAllDefault<K, L>(reg: Registry<K, L>, ev: EventRef<K>, ls: seq<L>): (r: Registry<K, L>)
    requires Valid(reg)
    ensures Valid(r)
    decreases |ls|
  {
    if |ls| == 0 then reg
    else AddListener(AddAllDefault(reg, ev, ls[..|ls| - 1]), ev, ls[|ls| - 1], None).value
  }

  /** One registration without priority extends a numbered entry by the
      next number. */
  lemma AddDefaultStep<K, L>(reg: Registry<K, L>, ev: EventRef<K>, xs: seq<L>, l: L)
    requires Valid(reg)
    requires EntryOf(reg, EventName(ev)) == Numbered(xs)
    ensures AddListener(reg, ev, l, None).Success?
    ensures EntryOf(AddListener(reg, ev, l, None).value, EventName(ev)) == Numbered(xs + [l])
  {
    var e := Numbered(xs);
    assert DefaultPriority(e) == |xs|;
    InsertPastEnd(e, Binding(|xs|, l));
    assert Insert(e, Binding(|xs|, l)) == Numbered(xs + [l]);
  }

  /** Sequence bookkeeping for the induction below. */
  lemma SplitLast<T>(xs: seq<T>, ls: seq<T>)
    requires |ls| > 0
    ensures xs + ls[..|ls| - 1] + [ls[|ls| - 1]] == xs + ls
  {
    assert ls == ls[..|ls| - 1] + [ls[|ls| - 1]];
  }

  /** Default priorities of successive registrations to one key count up
      from where the entry stands. */
  lemma {:induction false} AddAllDefaultExtends<K, L>(reg: Registry<K, L>, ev: EventRef<K>,
                                                     xs: seq<L>, ls: seq<L>)
    requires Valid(reg)
    requires EntryOf(reg, EventName(ev)) == Numbered(xs)
    ensures EntryOf(AddAllDefault(reg, ev, ls), EventName(ev)) == Numbered(xs + ls)
    decreases |ls|
  {
    if |ls| == 0 {
      assert xs + ls == xs;
    } else {
      var init := ls[..|ls| - 1];
      SplitLast(xs, ls);
      AddAllDefaultExtends(reg, ev, xs, init);
      AddDefaultStep(AddAllDefault(reg, ev, init), ev, xs + init, ls[|ls| - 1]);
    }
  }

  /** Registering listeners without priorities on a fresh key numbers them
      0, 1, 2, ... in call order. */
  lemma AddAllDefaultFromEmpty<K, L>(reg: Registry<K, L>, ev: EventRef<K>, ls: seq<L>)
    requires Valid(reg)
    requires EntryOf(reg, EventName(ev)) == []
    ensures EntryOf(AddAllDefault(reg, ev, ls), EventName(ev)) == Numbered(ls)
  {
    var none: seq<L> := [];
    assert Numbered(none) == [];
    AddAllDefaultExtends(reg, ev, none, ls);
    assert none + ls == ls;
  }

  /** `Mediator.remove_listener`: with no listener drops the key's entry,
      otherwise drops the first binding of that listener. */
  function RemoveListener<K, L(==)>(reg: Registry<K, L>, ev: EventRef<K>,
                                    listener: Option<L>): (r: Registry<K, L>)
    ensures EventName(ev) !in reg ==> r == reg
    ensures r.Keys - {EventName(ev)} == reg.Keys - {EventName(ev)}
    ensures forall k :: k in reg && k != EventName(ev) ==> k in r && r[k] == reg[k]
    ensures listener.None? ==> EventName(ev) !in r
    ensures listener.Some? && EventName(ev) in reg ==>
      var e := reg[EventName(ev)];
      EventName(ev) in r &&
      match FindListener(e, listener.value)
      case None => r[EventName(ev)] == e
      case Some(i) => r[EventName(ev)] == e[..i] + e[i + 1..]
    ensures Valid(reg) ==> Valid(r)
  {
    var key := EventName(ev);
    if key !in reg then reg
    else
      match listener
      case None => reg - {key}
      case Some(l) =>
        RemoveFirstAscending(reg[key], l);
        reg[key := RemoveFirst(reg[key], l)]
  }

  /** One listener invocation: the listener and the event it receives. */
  datatype Call<K, L> = Call(listener: L, event: Event<K>)

  /** What dispatch does: the invocations in order, and the returned event. */
  datatype Dispatched<K, L> = Dispatched(calls: seq<Call<K, L>>, event: Event<K>)

  /** The loop of dispatch: each listener of the entry called with the
      event, in entry order. */
  function CallEach<K, L>(e: Entry<L>, event: Event<K>): (calls: seq<Call<K, L>>)
    ensures |calls| == |e|
    ensures forall i :: 0 <= i < |e| ==> calls[i] == Call(e[i].listener, event)
  {
    if |e| == 0 then [] else [Call(e[0].listener, event)] + CallEach(e[1..], event)
  }

  /** `Mediator.dispatch`: a raw key gets a fresh event carrying it, an
      event keeps its own name; every listener of that key is called with
      the event, in entry order, and the event is returned. */
  function Dispatch<K, L>(reg: Registry<K, L>, ev: EventRef<K>): (d: Dispatched<K, L>)
    ensures ev.Instance? ==> d.event == ev.event
    ensures ev.Key? ==> d.event == Event(ev.key)
    ensures d.event.name == EventName(ev)
    ensures |d.calls| == |EntryOf(reg, EventName(ev))|
    ensures forall i :: 0 <= i < |d.calls| ==>
      d.calls[i] == Call(EntryOf(reg, EventName(ev))[i].listener, d.event)
  {
    var event := match ev case Key(k) => Event(k) case Instance(e) => e;
    var name := event.name;
    if name in reg then Dispatched(CallEach(reg[name], event), event)
    else Dispatched([], event)
  }

  /** Listeners run in ascending priority: of two bindings of the key, the
      one with the smaller priority is invoked earlier. */
  lemma DispatchInPriorityOrder<K, L>(reg: Registry<K, L>, ev: EventRef<K>, i: int, j: int)
    requires Valid(reg)
    requires var e := EntryOf(reg, EventName(ev));
      0 <= i < |e| && 0 <= j < |e| && e[i].priority < e[j].priority
    ensures var d := Dispatch(reg, ev);
      i < j && d.calls[i].listener == EntryOf(reg, EventName(ev))[i].listener
            && d.calls[j].listener == EntryOf(reg, EventName(ev))[j].listener
  {
  }

  /** A listener just registered is among those dispatch then invokes, and
      an event object named by the key reaches it too. */
  lemma RegisteredIsDispatched<K, L>(reg: Registry<K, L>, ev: EventRef<K>, listener: L,
                                     priority: Option<int>)
    requires Valid(reg)
    requires AddListener(reg, ev, listener, priority).Success?
    ensures var r := AddListener(reg, ev, listener, priority).value;
      Call(listener, Event(EventName(ev))) in Dispatch(r, ev).calls &&
      Call(listener, Event(EventName(ev))) in Dispatch(r, Instance(Event(EventName(ev)))).calls
  {
    var key := EventName(ev);
    var e := EntryOf(reg, key);
    var r := AddListener(reg, ev, listener, priority).value;
    var b := Binding(AssignedPriority(e, priority), listener);
    assert b in multiset(r[key]);
    var i :| 0 <= i < |r[key]| && r[key][i] == b;
    assert Dispatch(r, ev).calls[i] == Call(listener, Event(key));
    assert Dispatch(r, Instance(Event(key))).calls[i] == Call(listener, Event(key));
  }

  /** After remove_listener without a listener, dispatching the key invokes
      nobody. */
  lemma DispatchAfterRemoveAll<K, L>(reg: Registry<K, L>, ev: EventRef<K>)
    ensures Dispatch(RemoveListener(reg, ev, None), ev).calls == []
  {
  }

  /** After removing one listener, dispatch invokes the others in their
      original relative order: the old call sequence minus one call. */
  lemma DispatchAfterRemoveOne<K, L>(reg: Registry<K, L>, ev: EventRef<K>, l: L)
    requires EventName(ev) in reg
    requires FindListener(reg[EventName(ev)], l).Some?
    ensures var i := FindListener(reg[EventName(ev)], l).value;
      var before := Dispatch(reg, ev).calls;
      Dispatch(RemoveListener(reg, ev, Some(l)), ev).calls == before[..i] + before[i + 1..]
  {
    var i := FindListener(reg[EventName(ev)], l).value;
    var before := Dispatch(reg, ev).calls;
    var after := Dispatch(RemoveListener(reg, ev, Some(l)), ev).calls;
    assert |after| == |before| - 1;
    forall k | 0 <= k < |after|
      ensures after[k] == (before[..i] + before[i + 1..])[k]
    {
    }
  }
}
