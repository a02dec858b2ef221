# Mediator listener registry in Dafny

This project models the event mediator of `mediator.py` (class `Mediator`,
class `Event`, function `_get_event_name`) and proves properties of it.

A mediator keeps, for every event key, a dictionary from integer priority to
listener. The dictionary is always rebuilt sorted by priority.

- `add_listener` registers a listener at a given priority. It refuses a
  priority the key already uses, with `IndexError`. Without a priority, the
  listener goes one past the last key, or to 0 on an empty entry.
- `remove_listener` either drops a key's whole entry, or removes the first
  binding of one listener.
- `dispatch` turns a raw key into a fresh `Event` carrying it, calls the key's
  listeners in ascending priority with the event, and returns the event.
- `add_subscriber` reads the declarations of a `SubscriberInterface`. Each
  declaration is a handler name, a `[name]` or `[name, priority]` list, or a
  list of such lists. It turns them into `add_listener` calls in order, and
  stops at the first exception without undoing earlier registrations.

The model is functional.

- **Registry.** The registry is a `map<K, seq<Binding<L>>>`. Each sequence
  lists its bindings in the dictionary's iteration order. `Valid` is the
  class invariant: in every entry, priorities strictly increase.
- **Listeners and events.** Listeners are values of a type parameter `L`.
  Their equality stands for Python's `is`. Events are values that carry their
  name.
- **Errors.** Each operation that can raise returns its error instead:
  `PriorityConflict` stands for `IndexError`, `InvalidSubscriberType` for
  `TypeError`, `Unimplemented` for `NotImplementedError`,
  `InvalidDeclaration` for `ValueError` and `MissingHandler` for
  `AttributeError` from `getattr`.
- **add_subscriber.** It returns the registry as left behind together with an
  optional error, because partial registrations stay.
- **Sorting.** The rebuild through `OrderedDict(sorted(...))` is modelled as
  insertion at the sorted position. `Entries.SortedUnique` shows this is the
  only ascending arrangement of the same bindings, so insertion and sorting
  agree.
- **Subscriber plan.** `add_subscriber` is related to a flat list of
  `add_listener` requests. The plan is that list, up to the first malformed
  declaration; `Subscribers.Apply` carries the requests out one after another.

Modules:

- `Wrappers`: `Option` and `Result`.
- `Events`: events and the key an event reference resolves to.
- `Entries`: one key's sorted entry.
- `Mediator`: `add_listener`, `remove_listener`, `dispatch`.
- `Subscribers`: `add_subscriber`.
- `Scenarios`: the situations of `tests.py`, on concrete keys and listeners.

The model follows `mediator.py` where `tests.py` expects something else.
Some tests call members the code does not define, such as a class-level
`event_name` and `get_event_name`. Others expect a `TypeError` that the code
never raises, or use the `Event` class itself as a key: the code would store
the class object as the key, and `dispatch(Event())` looks up `None`. Only the
behaviour the code has is modelled.

## Model

| member | source | states |
|---|---|---|
| `Events.EventName` | mediator.py:91-95 | An `Event` resolves to the name it carries; any other value is used as the key itself. |
| `Entries.MaxPriority` | mediator.py:34-35 | The largest priority of a non-empty entry is one of its priorities and bounds all of them, whatever order the entry is in. |
| `Entries.DefaultPriority` | mediator.py:34-37 | The priority for a registration without one: 0 for an empty entry. On a sorted entry it exceeds every stored priority and is therefore never already taken. |
| `Entries.DefaultPriorityIsNext` | mediator.py:34-37 | On a sorted entry, "last key + 1" is the maximum + 1 (0 when empty), exceeds every priority and is never already taken. |
| `Entries.Insert` | mediator.py:38-42 | Storing a binding at a new priority and re-sorting keeps the entry strictly ascending and holds exactly the old bindings plus the new one. |
| `Entries.InsertPastEnd` | mediator.py:38-42 | A binding above every existing priority is placed at the end and everything else keeps its position. |
| `Entries.SortedUnique` | mediator.py:39-42 | Two strictly ascending arrangements of the same multiset of bindings are equal, so the sorted rebuild is determined by its contents. |
| `Entries.FindListener` | mediator.py:50-51 | Finds the first binding, in iteration order, whose listener is the given one; it finds none exactly when no binding holds that listener. |
| `Entries.RemoveFirst` | mediator.py:50-53 | Removes exactly the first binding of the listener and keeps the rest in order; an absent listener leaves the entry unchanged. |
| `Entries.RemoveFirstAscending` | mediator.py:50-53 | The removal keeps the entry ascending and shortens it by one exactly when the listener was present. |
| `Mediator.AddListener` | mediator.py:20-42 | Fails exactly when an explicit priority is already taken, raising the conflict for that key and priority. On success the key is present, other keys are untouched, the entry stays sorted and gains exactly the new binding. |
| `Mediator.AddListenerIsSorted` | mediator.py:38-42 | The stored entry equals any ascending arrangement of the old bindings plus the new one: it is the result of `sorted`. |
| `Mediator.AddListenerDefaultPriority` | mediator.py:33-37 | Without a priority registration never fails, and stores the listener at 0 on an absent or empty entry, else at the largest priority + 1. |
| `Mediator.AddListenerDefaultAppends` | mediator.py:33-42 | Without a priority the new binding is appended after all existing ones. |
| `Mediator.AddAllDefaultFromEmpty` | mediator.py:33-37 | Registering listeners one after another without priorities on an empty key numbers them 0, 1, 2, … in call order. |
| `Mediator.RemoveListener` | mediator.py:44-53 | An absent key changes nothing. Without a listener the key is dropped. With one, only the first matching binding of that key goes, and a non-matching call leaves the entry as it was. Other keys are untouched, and the entries stay sorted. |
| `Mediator.CallEach` | mediator.py:16-17 | One call per binding of the entry, in entry order, each passing the listener the same event. |
| `Mediator.Dispatch` | mediator.py:8-18 | A raw key becomes a new event with that name and an event is passed through unchanged. Every listener of the resolved key is called with that event, once each, in entry order; an unknown key calls nobody. |
| `Mediator.DispatchInPriorityOrder` | mediator.py:15-17 | Of two listeners of a key, the one at the lower priority is called earlier. |
| `Mediator.RegisteredIsDispatched` | mediator.py:15-17 | A listener just registered is called by a dispatch of its key, whether the key is passed raw or inside an event. |
| `Mediator.DispatchAfterRemoveAll` | mediator.py:46-48 | After removing a key's listeners wholesale, dispatching it calls nobody. |
| `Mediator.DispatchAfterRemoveOne` | mediator.py:49-53 | After removing one listener, dispatch makes the same calls as before minus exactly that listener's first call. |
| `Subscribers.Register` | mediator.py:64-66 | One `getattr` + `add_listener` step. It fails exactly when the handler attribute is missing or the explicit priority is taken, and then changes nothing. On success exactly one binding is added: the key's bindings are the old ones plus the handler's at its priority. Without a priority it is appended at the default priority after all existing bindings. |
| `Subscribers.RegisterCount` | mediator.py:64-66 | A successful step lengthens the entry of its own key by exactly one and leaves the length of every other key's entry unchanged. |
| `Subscribers.RegisterPairs` | mediator.py:67-70 | The loop over nested `[name, priority]` lists keeps the registry sorted; its full effect is stated by `Subscribers.RegisterPairsIsApply`. |
| `Subscribers.RegisterSpec` | mediator.py:59-72 | One declaration's branch keeps the registry sorted; its full effect is stated by `Subscribers.RegisterSpecIsApply`. |
| `Subscribers.RegisterDeclared` | mediator.py:58-72 | The loop over all declarations keeps the registry sorted; its full effect is stated by `Subscribers.RegisterDeclaredFollowsPlan`. |
| `Subscribers.PairRequests` | mediator.py:67-70 | A list of nested lists stands for one request per element, in order, with the element's handler and optional priority. |
| `Subscribers.Requests` | mediator.py:59-72 | A declaration raises `ValueError` exactly when it is neither a string nor a list, or is the empty list. Otherwise all its requests are for its own key: one request for a string or a direct `[name]` / `[name, priority]` list, one per element otherwise. The effect of the single-request shapes is stated by `Subscribers.RegisterSpecDefault` and `Subscribers.RegisterSpecWithPriority`. |
| `Subscribers.RegisterSpecDefault` | mediator.py:59-66 | A string declaration, or `[name]`, appends the handler at the default priority after the key's existing bindings, or raises for a missing handler and changes nothing. |
| `Subscribers.RegisterSpecWithPriority` | mediator.py:64-66 | `[name, priority]` raises for a missing handler, else raises the conflict when the priority is taken, else inserts the handler at that priority into the sorted entry. |
| `Subscribers.Plan` | mediator.py:58-72 | The declarations yield an error exactly when some declaration is malformed, and then it is the `ValueError` of the first malformed one. |
| `Subscribers.Apply` | mediator.py:58-72 | A run of requests keeps the registry sorted and never loses a binding; when it succeeds, every request is registered. |
| `Subscribers.ApplyCount` | mediator.py:58-72 | A successful run adds exactly one binding per request: each key's entry grows by the number of requests for that key. |
| `Subscribers.ApplyStopsAtFailure` | mediator.py:58-72 | A failed run stopped at one request: the error is that request's missing handler or priority conflict, and every request before it is registered. |
| `Subscribers.ApplyNewKeys` | mediator.py:58-72 | A run only creates entries for keys that some request names. |
| `Subscribers.ApplyAppend` | mediator.py:58-72 | Running two lists of requests back to back equals running their concatenation, unless the first run already failed. |
| `Subscribers.RegisterPairsIsApply` | mediator.py:67-70 | The nested-list loop is exactly the run of its requests. |
| `Subscribers.RegisterSpecIsApply` | mediator.py:59-72 | A malformed declaration raises before registering anything. Any other declaration is exactly the run of its requests. |
| `Subscribers.RegisterDeclaredFollowsPlan` | mediator.py:58-72 | The nested loops first perform every planned request, in order. They end with the first failing request's error if there is one, else with the plan's `ValueError`, else without error. |
| `Subscribers.AddSubscriber` | mediator.py:55-72 | A non-subscriber gets `TypeError` and the bare interface `NotImplementedError`, both with the registry unchanged. A subscriber succeeds exactly when its plan is well formed and every planned request succeeds; nothing registered is lost; on success, or when the only error is the plan's `ValueError`, every planned request is registered, and each key's entry grows by exactly the number of planned requests for it; only declared keys gain entries. |
| `Subscribers.AddSubscriberSingle` | mediator.py:55-72 | A subscriber with one declaration has exactly the effect of that declaration's branch. |
| `Subscribers.SubscriberOutcome` | mediator.py:58-72 | The same outcome, stated for the declaration loops: success criterion, registered requests, one binding per planned request, kept bindings and new keys. |
| `Subscribers.RegisterDeclaredKeys` | mediator.py:58-70 | Registering declarations only creates entries for declared keys. |
| `Subscribers.PlanKeys` | mediator.py:58-70 | Every planned request is for a declared key. |
| `Scenarios.ExampleSubscriber` | tests.py:132-161 | The test subscriber leaves `first`, `middle`, `last` at -255, 0, 255 under `event_one` and one listener at 0 under each other event, and dispatching `event_one` calls first, middle, last in that order with one event. |
| `Scenarios.EventOneRegistered` | tests.py:48-54 | The nested-list declaration of `event_one` registers middle at 0, then first before it, then last after it. |
| `Scenarios.BadSubscribers` | tests.py:60-67 | A declaration of `None` or `[]` raises `ValueError` and registers nothing. |
| `Scenarios.PartialRegistrationStays` | mediator.py:58-63 | A declaration registered before a malformed one stays registered when the `ValueError` is raised. |
| `Scenarios.SamePriorityFails` | tests.py:95-99 | A second listener at priority 0 of the same key raises the priority conflict. |
| `Scenarios.FirstDefault` | tests.py:108-112 | The first listener without priority on a fresh key is stored at 0. |
| `Scenarios.SecondDefault` | tests.py:108-113 | The second listener without priority is stored at 1, after the first. |
| `Scenarios.DispatchExample` | tests.py:114-123 | Dispatch calls both listeners in registration order, then only the one left after removing the first, then nobody after removing the rest. |
| `Scenarios.RemoveOfTwo` | tests.py:116-119 | Removing either of two listeners keeps the other at its priority. |
| `Scenarios.RemoveAll` | tests.py:120-123 | Removing without a listener drops the key's entry. |
| `Scenarios.RemoveOnlyListener` | mediator.py:49-53 | Removing the only listener of a key leaves the key with an empty entry rather than dropping it. |
| `Scenarios.DefaultAfterRemovals` | mediator.py:34-37 | On an entry emptied by removals the next default priority restarts at 0. |
| `Scenarios.NotASubscriber` | tests.py:132-137 | A non-subscriber and the bare interface are refused before anything is registered. |

## Left out

- Listener bodies are left out, and so are exceptions they raise, which would
  stop a dispatch half-way. A call is recorded as the pair of listener and
  event.
- Object identity: events and listeners are values, so "the same object"
  is equality. Mutating an event after dispatch is not modelled.
- `remove_listener` decides whether a listener was given by Python
  truthiness (`if not listener`). The model takes an `Option`, so a listener
  object that is itself falsy is not modelled.
- `Subscribers.AddSubscriber` requires every declaration to have one of the
  shapes that add_subscriber can handle as intended. These are a string, an
  empty list, `[name]`, `[name, priority]`, a list of `[name]` /
  `[name, priority]` lists, or something else (which raises `ValueError`).
  Other lists are not modelled; Python would index into them element by
  element, e.g. a string used as a pair, or `[5]`.
- Declarations keyed by an `Event` instance or class are out of scope; keys
  are whatever values the caller uses.
- `Mediator.AddListener` and the subscriber functions take the class
  invariant `Valid` (every entry strictly ascending) as a precondition.
  `Mediator.Dispatch` and `Mediator.RemoveListener` accept any registry, and
  `Mediator.RemoveListener` preserves `Valid`. Every operation therefore
  keeps it from the empty registry, which is how `Mediator()` starts.
- `getattr` is a lookup in a map from handler names to listeners; other
  attribute semantics (descriptors, `__getattr__`) are left out.
- Bound methods: each `getattr(subscriber, name)` in Python builds a fresh
  bound-method object. `remove_listener(key, subscriber.first)` after
  `add_subscriber` therefore never matches by `is` and removes nothing. The
  model gives each handler name one fixed listener id, so there the same
  removal does match.
- The `scan` method and its decorator registration, `stubs.py` and
  `setup.py` are not part of this model.
- Assertions in `tests.py` that `mediator.py` does not implement are left
  out: the `TypeError` messages for raw-string dispatch and invalid keys, a
  class-level `event_name`, and `get_event_name`. Exception message texts
  are left out too.
