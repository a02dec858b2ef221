/** The behaviours the repository's tests exercise, replayed on the model
    with string keys and string listener ids. The tests dispatch instances
    of `Event` subclasses and register under the `Event` class itself; in
    mediator.py those resolve to the instance's stored name (`None` for
    `EventOne()`) and to the class object. The scenarios use what the tests
    evidently mean instead: `Event("event_one")`, and the string key
    `"Event"`. */
module Scenarios {
  import opened Wrappers
  import opened Events
  import opened Entries
  import opened Mediator
  import opened Subscribers

  /** The declarations of the test subscriber: three handlers for
      `event_one` as nested lists, a bare name for `event_two`, and a
      one-element list for `event_three`. */
  function ExampleDeclared(): seq<(string, Spec)> {
    [ ("event_one", Items([ItemPair("middle", None), ItemPair("first", Some(-255)),
                           ItemPair("last", Some(255))])),
      ("event_two", Handler("another_event_handler")),
      ("event_three", Items([ItemName("even_more_event_handler")])) ]
  }

  function ExampleHandlers(): map<string, string> {
    map["first" := "first", "middle" := "middle", "last" := "last",
        "another_event_handler" := "another", "even_more_event_handler" := "even_more"]
  }

  /** The three `event_one` bindings in priority order. */
  function EventOneEntry(): Entry<string> {
    [Binding(-255, "first"), Binding(0, "middle"), Binding(255, "last")]
  }

  /** `['first', -255]` goes in front of middle. */
  lemma EventOneFirst()
    ensures Register(map["event_one" := [Binding(0, "middle")]], ExampleHandlers(),
                     Request("event_one", "first", Some(-255)))
      == (map["event_one" := [Binding(-255, "first"), Binding(0, "middle")]], None)
  {
    var h := ExampleHandlers();
    assert "first" in h && h["first"] == "first";
    EventOneFirstAdd();
  }

  /** `['first', -255]` goes in front of the entry. */
  lemma EventOneFirstAdd()
    ensures AddListener(map["event_one" := [Binding(0, "middle")]], Key("event_one"), "first", Some(-255))
      == Success(map["event_one" := [Binding(-255, "first"), Binding(0, "middle")]])
  {
    var e2 := [Binding(-255, "first"), Binding(0, "middle")];
    assert Insert([Binding(0, "middle")], Binding(-255, "first")) == e2;
    assert map["event_one" := [Binding(0, "middle")]]["event_one" := e2] == map["event_one" := e2];
  }

  /** `['last', 255]` goes behind middle. */
  lemma EventOneLast()
    ensures Register(map["event_one" := [Binding(-255, "first"), Binding(0, "middle")]],
                     ExampleHandlers(), Request("event_one", "last", Some(255)))
      == (map["event_one" := EventOneEntry()], None)
  {
    var h := ExampleHandlers();
    assert "last" in h && h["last"] == "last";
    EventOneLastAdd();
  }

  /** `['last', 255]` goes past the end of the entry. */
  lemma EventOneLastAdd()
    ensures AddListener(map["event_one" := [Binding(-255, "first"), Binding(0, "middle")]],
                        Key("event_one"), "last", Some(255))
      == Success(map["event_one" := EventOneEntry()])
  {
    var e2 := [Binding(-255, "first"), Binding(0, "middle")];
    var b := Binding(255, "last");
    var r2 := map["event_one" := e2];
    InsertPastEnd(e2, b);
    assert e2 + [b] == EventOneEntry();
    assert r2["event_one" := EventOneEntry()] == map["event_one" := EventOneEntry()];
  }

  /** A registry with one sorted entry satisfies the invariant. */
  lemma ValidSingle(key: string, e: Entry<string>)
    requires Ascending(e)
    ensures Valid(map[key := e])
  {
  }

  /** The nested lists declared for `event_one`. */
  function EventOneItems(): seq<Item> {
    [ItemPair("middle", None), ItemPair("first", Some(-255)), ItemPair("last", Some(255))]
  }

  lemma EventOneLastPair()
    ensures RegisterPairs(map["event_one" := [Binding(-255, "first"), Binding(0, "middle")]],
                          "event_one", ExampleHandlers(), EventOneItems()[2..])
      == (map["event_one" := EventOneEntry()], None)
  {
    assert EventOneItems()[2..] == [ItemPair("last", Some(255))];
    ValidSingle("event_one", [Binding(-255, "first"), Binding(0, "middle")]);
    LastPairIsRegister(map["event_one" := [Binding(-255, "first"), Binding(0, "middle")]],
                       "event_one", ExampleHandlers(), "last", Some(255));
    EventOneLast();
  }

  /** The nested-list loop over one element is that element's registration. */
  lemma LastPairIsRegister(reg: Registry<string, string>, key: string, handlers: map<string, string>,
                           name: string, priority: Option<int>)
    requires Valid(reg)
    ensures RegisterPairs(reg, key, handlers, [ItemPair(name, priority)])
      == Register(reg, handlers, Request(key, name, priority))
  {
    var items := [ItemPair(name, priority)];
    assert items[1..] == [];
  }

  lemma EventOneFirstPair()
    ensures RegisterPairs(map["event_one" := [Binding(0, "middle")]],
                          "event_one", ExampleHandlers(), EventOneItems()[1..])
      == (map["event_one" := EventOneEntry()], None)
  {
    EventOneFirst();
    EventOneLastPair();
    assert EventOneItems()[1..][1..] == EventOneItems()[2..];
  }

  /** `[['middle'], ['first', -255], ['last', 255]]` registers middle at 0,
      then first before it, then last after it. */
  lemma EventOneRegistered()
    ensures RegisterSpec(map[], "event_one", ExampleHandlers(), ExampleDeclared()[0].1)
      == (map["event_one" := EventOneEntry()], None)
  {
    assert ExampleDeclared()[0].1 == Items(EventOneItems());
    EventOneMiddlePair();
  }

  lemma EventOneMiddlePair()
    ensures RegisterPairs(map[], "event_one", ExampleHandlers(), EventOneItems())
      == (map["event_one" := EventOneEntry()], None)
  {
    var h := ExampleHandlers();
    assert h["middle"] == "middle";
    FirstDefault("event_one", Key("event_one"), "middle");
    assert Register(map[], h, Request("event_one", "middle", None))
      == (map["event_one" := [Binding(0, "middle")]], None);
    EventOneFirstPair();
  }

  /** A single handler declared for a key nobody listens to yet gets
      priority 0. */
  lemma FreshKeyRegistered(reg: Registry<string, string>, key: string, spec: Spec, handler: string)
    requires Valid(reg) && key !in reg
    requires spec == Handler(handler) || spec == Items([ItemName(handler)])
    requires handler in ExampleHandlers()
    ensures RegisterSpec(reg, key, ExampleHandlers(), spec)
      == (reg[key := [Binding(0, ExampleHandlers()[handler])]], None)
  {
    AddListenerDefaultAppends(reg, Key(key), ExampleHandlers()[handler]);
    assert [] + [Binding(0, ExampleHandlers()[handler])] == [Binding(0, ExampleHandlers()[handler])];
  }

  /** The registry the test subscriber leaves behind. */
  function ExampleRegistry(): Registry<string, string> {
    map["event_one" := EventOneEntry(), "event_two" := [Binding(0, "another")],
        "event_three" := [Binding(0, "even_more")]]
  }

  /** The declaration for `event_three` adds one listener at priority 0. */
  lemma ExampleThird()
    ensures RegisterDeclared(map["event_one" := EventOneEntry(), "event_two" := [Binding(0, "another")]],
                             ExampleDeclared()[2..], ExampleHandlers())
      == (ExampleRegistry(), None)
  {
    var d := ExampleDeclared();
    var r4 := map["event_one" := EventOneEntry(), "event_two" := [Binding(0, "another")]];
    assert d[2].1 == Items([ItemName("even_more_event_handler")]);
    FreshKeyRegistered(r4, "event_three", d[2].1, "even_more_event_handler");
    assert r4["event_three" := [Binding(0, "even_more")]] == ExampleRegistry();
    assert d[2..][1..] == [];
  }

  /** The declarations for `event_two` and `event_three` each add one
      listener at priority 0. */
  lemma ExampleTail()
    ensures RegisterDeclared(map["event_one" := EventOneEntry()], ExampleDeclared()[1..], ExampleHandlers())
      == (ExampleRegistry(), None)
  {
    var d := ExampleDeclared();
    var r3 := map["event_one" := EventOneEntry()];
    assert d[1].1 == Handler("another_event_handler");
    FreshKeyRegistered(r3, "event_two", d[1].1, "another_event_handler");
    assert r3["event_two" := [Binding(0, "another")]]
      == map["event_one" := EventOneEntry(), "event_two" := [Binding(0, "another")]];
    ExampleThird();
    assert d[1..][1..] == d[2..];
  }

  /** The test subscriber registers first, middle, last for `event_one` in
      that priority order, and one listener at priority 0 for each of the
      other two events; dispatching `event_one` calls the three in order
      with the same event. */
  lemma ExampleSubscriber()
    ensures AddSubscriber(map[], Subscriber(ExampleDeclared(), ExampleHandlers()))
      == (ExampleRegistry(), None)
    ensures var ev := Event("event_one");
      Dispatch(ExampleRegistry(), Instance(ev)).calls
        == [Call("first", ev), Call("middle", ev), Call("last", ev)]
  {
    EventOneRegistered();
    ExampleTail();
    ExampleDispatch();
  }

  /** Dispatching `event_one` on the example registry. */
  lemma ExampleDispatch()
    ensures var ev := Event("event_one");
      Dispatch(ExampleRegistry(), Instance(ev)).calls
        == [Call("first", ev), Call("middle", ev), Call("last", ev)]
  {
    var ev := Event("event_one");
    var reg := ExampleRegistry();
    assert EntryOf(reg, "event_one") == EventOneEntry();
    var c := Dispatch(reg, Instance(ev)).calls;
    assert |c| == 3;
    assert c[0] == Call("first", ev) && c[1] == Call("middle", ev) && c[2] == Call("last", ev);
  }

  /** A declaration of `None` or of an empty list raises ValueError naming
      the event. */
  lemma BadSubscribers(reg: Registry<string, string>, handlers: map<string, string>)
    requires Valid(reg)
    ensures AddSubscriber(reg, Subscriber([("test_event", Unrecognised)], handlers))
      == (reg, Some(InvalidDeclaration("test_event")))
    ensures AddSubscriber(reg, Subscriber([("test_event", Items([]))], handlers))
      == (reg, Some(InvalidDeclaration("test_event")))
  {
  }

  /** Entries before a malformed declaration stay registered. */
  lemma PartialRegistrationStays(handlers: map<string, string>)
    requires "h" in handlers
    ensures var r := AddSubscriber(map[], Subscriber([("a", Handler("h")), ("b", Items([]))], handlers));
      r == (map["a" := [Binding(0, handlers["h"])]], Some(InvalidDeclaration("b")))
  {
    var empty: Registry<string, string> := map[];
    assert RegisterSpec(empty, "a", handlers, Handler("h")) == (map["a" := [Binding(0, handlers["h"])]], None);
  }

  /** A second listener at an occupied priority is refused. */
  lemma SamePriorityFails(l1: string, l2: string)
    ensures var r := AddListener(map[], Key("Event"), l1, Some(0)).value;
      AddListener(r, Key("Event"), l2, Some(0)) == Failure(PriorityConflict("Event", 0))
  {
    var empty: Registry<string, string> := map[];
    assert AddListener(empty, Key("Event"), l1, Some(0)).value == map["Event" := [Binding(0, l1)]];
  }

  /** Registering without priority on a key with no bindings stores
      priority 0. */
  lemma DefaultOnEmpty(reg: Registry<string, string>, ev: EventRef<string>, l: string)
    requires Valid(reg) && EntryOf(reg, EventName(ev)) == []
    ensures AddListener(reg, ev, l, None) == Success(reg[EventName(ev) := [Binding(0, l)]])
  {
    AddListenerDefaultAppends(reg, ev, l);
    assert [] + [Binding(0, l)] == [Binding(0, l)];
  }

  /** Registering without priority on a fresh key stores priority 0. */
  lemma FirstDefault(key: string, ev: EventRef<string>, l: string)
    requires EventName(ev) == key
    ensures AddListener(map[], ev, l, None) == Success(map[key := [Binding(0, l)]])
  {
    var empty: Registry<string, string> := map[];
    DefaultOnEmpty(empty, ev, l);
    assert empty[key := [Binding(0, l)]] == map[key := [Binding(0, l)]];
  }

  /** A second registration without priority comes after the first. */
  lemma SecondDefault(key: string, ev: EventRef<string>, l1: string, l2: string)
    requires EventName(ev) == key
    ensures AddListener(map[key := [Binding(0, l1)]], ev, l2, None)
      == Success(map[key := [Binding(0, l1), Binding(1, l2)]])
  {
    var r1 := map[key := [Binding(0, l1)]];
    AddListenerDefaultAppends(r1, ev, l2);
    assert DefaultPriority(r1[key]) == 1;
    assert [Binding(0, l1)] + [Binding(1, l2)] == [Binding(0, l1), Binding(1, l2)];
    assert r1[key := [Binding(0, l1), Binding(1, l2)]] == map[key := [Binding(0, l1), Binding(1, l2)]];
  }

  /** Removing one of two listeners keeps the other at its priority. */
  lemma RemoveOfTwo(key: string, ev: EventRef<string>, l1: string, l2: string)
    requires EventName(ev) == key && l1 != l2
    ensures RemoveListener(map[key := [Binding(0, l1), Binding(1, l2)]], ev, Some(l1))
      == map[key := [Binding(1, l2)]]
    ensures RemoveListener(map[key := [Binding(0, l1), Binding(1, l2)]], ev, Some(l2))
      == map[key := [Binding(0, l1)]]
  {
    var e2 := [Binding(0, l1), Binding(1, l2)];
    var r2 := map[key := e2];
    assert RemoveFirst(e2, l1) == [Binding(1, l2)];
    assert r2[key := [Binding(1, l2)]] == map[key := [Binding(1, l2)]];
    assert RemoveFirst(e2, l2) == [Binding(0, l1)] by {
      assert e2[1..] == [Binding(1, l2)];
      assert RemoveFirst(e2[1..], l2) == [];
    }
    assert r2[key := [Binding(0, l1)]] == map[key := [Binding(0, l1)]];
  }

  /** Removing without naming a listener drops the whole entry. */
  lemma RemoveAll(key: string, ev: EventRef<string>, l: string)
    requires EventName(ev) == key
    ensures RemoveListener(map[key := [Binding(1, l)]], ev, None) == map[]
  {
    assert map[key := [Binding(1, l)]] - {key} == map[];
  }

  /** Dispatching an event to two listeners registered without priority,
      to the one left after removing the first, and after removing the
      rest. */
  lemma DispatchExample(l1: string, l2: string)
    ensures var ev := Instance(Event("Event"));
      && Dispatch(map["Event" := [Binding(0, l1), Binding(1, l2)]], ev).calls
           == [Call(l1, Event("Event")), Call(l2, Event("Event"))]
      && Dispatch(map["Event" := [Binding(1, l2)]], ev).calls == [Call(l2, Event("Event"))]
      && Dispatch(RemoveListener(map["Event" := [Binding(1, l2)]], ev, None), ev).calls == []
  {
    var ev := Instance(Event("Event"));
    RemoveAll("Event", ev, l2);
    var d2 := Dispatch(map["Event" := [Binding(0, l1), Binding(1, l2)]], ev);
    assert |d2.calls| == 2 && d2.calls[0] == Call(l1, Event("Event")) && d2.calls[1] == Call(l2, Event("Event"));
    var d3 := Dispatch(map["Event" := [Binding(1, l2)]], ev);
    assert |d3.calls| == 1 && d3.calls[0] == Call(l2, Event("Event"));
  }

  /** Removing the only listener of a key leaves the key with an empty
      entry. */
  lemma RemoveOnlyListener(l: string)
    ensures RemoveListener(map["e" := [Binding(1, l)]], Key("e"), Some(l)) == map["e" := []]
  {
    assert RemoveFirst([Binding(1, l)], l) == [];
    assert map["e" := [Binding(1, l)]]["e" := []] == map["e" := []];
  }

  /** On an emptied entry the next default priority restarts at 0. */
  lemma DefaultAfterRemovals(l: string)
    ensures AddListener(map["e" := []], Key("e"), l, None) == Success(map["e" := [Binding(0, l)]])
  {
    var emptied: Registry<string, string> := map["e" := []];
    DefaultOnEmpty(emptied, Key("e"), l);
    assert emptied["e" := [Binding(0, l)]] == map["e" := [Binding(0, l)]];
  }

  /** Objects that are not subscribers are refused before anything is
      registered. */
  lemma NotASubscriber(reg: Registry<string, string>)
    requires Valid(reg)
    ensures AddSubscriber(reg, NotSubscriber) == (reg, Some(InvalidSubscriberType))
    ensures AddSubscriber(reg, BaseSubscriber) == (reg, Some(Unimplemented))
  {
  }
}
