/** Events and the resolution of an event reference to the key the
    registry is indexed by (class `Event` and `_get_event_name` in
    mediator.py). */
module Events {

  /** An event object. In the source it is a mutable holder whose only
      field the mediator reads is its name; the name may be any hashable
      value (an unnamed `Event()` carries `None`), so it is generic here. */
  datatype Event<K> = Event(name: K)

  /** What a caller may pass where the source expects an event: either a
      raw key (any value that is not an `Event`) or an `Event` instance. */
  datatype EventRef<K> = Key(key: K) | Instance(event: Event<K>)

  /** The key an event reference resolves to: an `Event` yields its stored
      name, anything else is used as the key itself. */
  function EventName<K>(ev: EventRef<K>): (name: K)
    ensures ev.Instance? ==> name == ev.event.name
    ensures ev.Key? ==> name == ev.key
  {
    match ev
    case Key(k) => k
    case Instance(e) => e.name
  }
}
