/** `Mediator.add_subscriber` of mediator.py: a subscriber declares, per
    event key, which of its handlers listen and at which priority; the
    mediator turns each declaration into add_listener calls. */
module Subscribers {
  import opened Wrappers
  import opened Events
  import opened Entries
  import opened Mediator

  /** An element of a list-valued declaration: a bare handler name, a bare
      priority, or a nested list `[name]` / `[name, priority]`. */
  datatype Item =
    | ItemName(name: string)
    | ItemPriority(value: int)
    | ItemPair(handler: string, priority: Option<int>)

  /** The value declared for one event key: a handler name, a list, or any
      other Python value (None, a dict, a number, ...). */
  datatype Spec = Handler(name: string) | Items(items: seq<Item>) | Unrecognised

  /** The object handed to add_subscriber: not a `SubscriberInterface` at
      all, the bare interface whose declaration method raises, or a
      concrete subscriber with its declarations in dictionary order and its
      handler attributes (what `getattr` can find) by name. */
  datatype Candidate<K, L> =
    | NotSubscriber
    | BaseSubscriber
    | Subscriber(declared: seq<(K, Spec)>, handlers: map<string, L>)

  /** The list form that names one handler directly: `[name]` or
      `[name, priority]`. */
  predicate IsSingle(items: seq<Item>) {
    0 < |items| <= 2 && items[0].ItemName?
  }

  /** The shapes the model covers: the second element of a direct
      `[name, priority]` list is a priority, and every other non-empty list
      is a list of nested `[name]` / `[name, priority]` lists. */
  predicate Supported(spec: Spec) {
    match spec
    case Items(items) =>
      if IsSingle(items) then |items| == 2 ==> items[1].ItemPriority?
      else forall i :: 0 <= i < |items| ==> items[i].ItemPair?
    case _ => true
  }

  predicate AllSupported<K>(declared: seq<(K, Spec)>) {
    forall i :: 0 <= i < |declared| ==> Supported(declared[i].1)
  }

  /** `k` is one of the declared event keys. */
  ghost predicate Declares<K>(declared: seq<(K, Spec)>, k: K) {
    exists i :: 0 <= i < |declared| && declared[i].0 == k
  }

  /** One add_listener call the adapter makes: key, handler attribute name
      and optional priority. */
  datatype Request<K> = Request(key: K, handler: string, priority: Option<int>)

  /** Every binding of `reg` is still in `r`. */
  ghost predicate Includes<K, L>(reg: Registry<K, L>, r: Registry<K, L>) {
    forall k :: k in reg ==> k in r && multiset(reg[k]) <= multiset(r[k])
  }

  /** The request's handler is registered under its key, at its priority
      when one was given. */
  ghost predicate Registered<K, L>(reg: Registry<K, L>, handlers: map<string, L>, q: Request<K>) {
    && q.handler in handlers
    && q.key in reg
    && exists i :: 0 <= i < |reg[q.key]| && reg[q.key][i].listener == handlers[q.handler]
         && (q.priority.Some? ==> reg[q.key][i].priority == q.priority.value)
  }

  /** Bindings that survive keep their requests registered. */
  lemma RegisteredIncludes<K, L>(r1: Registry<K, L>, r2: Registry<K, L>,
                                 handlers: map<string, L>, q: Request<K>)
    requires Includes(r1, r2) && Registered(r1, handlers, q)
    ensures Registered(r2, handlers, q)
  {
    var i :| 0 <= i < |r1[q.key]| && r1[q.key][i].listener == handlers[q.handler]
         && (q.priority.Some? ==> r1[q.key][i].priority == q.priority.value);
    var b := r1[q.key][i];
    assert b in multiset(r1[q.key]);
    assert b in multiset(r2[q.key]);
    var j :| 0 <= j < |r2[q.key]| && r2[q.key][j] == b;
  }

  /** One registration as add_subscriber makes it: `getattr` (raising
      AttributeError for a missing handler) then add_listener. A failure
      leaves the registry as it was. */
  function Register<K, L>(reg: Registry<K, L>, handlers: map<string, L>,
                          q: Request<K>): (r: (Registry<K, L>, Option<Error<K>>))
    requires Valid(reg)
    ensures Valid(r.0)
    ensures r.1.None? <==>
      q.handler in handlers && !(q.priority.Some? && Occupied(EntryOf(reg, q.key), q.priority.value))
    ensures r.1.Some? ==> r.0 == reg
    ensures r.1.Some? ==> (r.1.value == MissingHandler(q.handler) ||
      (q.priority.Some? && r.1.value == PriorityConflict(q.key, q.priority.value)))
    ensures r.1.None? ==> Includes(reg, r.0) && Registered(r.0, handlers, q)
    ensures r.1.None? ==> var e := EntryOf(reg, q.key);
      q.key in r.0 && multiset(r.0[q.key])
        == multiset(e) + multiset{Binding(AssignedPriority(e, q.priority), handlers[q.handler])}
    ensures r.1.None? && q.priority.None? ==> var e := EntryOf(reg, q.key);
      r.0[q.key] == e + [Binding(DefaultPriority(e), handlers[q.handler])]
    ensures r.0.Keys <= reg.Keys + {q.key}
    ensures forall k :: k in reg && k != q.key ==> k in r.0 && r.0[k] == reg[k]
  {
    if q.handler !in handlers then (reg, Some(MissingHandler(q.handler)))
    else
      match AddListener(reg, Key(q.key), handlers[q.handler], q.priority)
      case Failure(err) => (reg, Some(err))
      case Success(next) =>
        var e := EntryOf(reg, q.key);
        var b := Binding(AssignedPriority(e, q.priority), handlers[q.handler]);
        RegisterWitness(reg, next, handlers, q, b);
        if q.priority.None? then
          AddListenerDefaultAppends(reg, Key(q.key), handlers[q.handler]);
          (next, None)
        else (next, None)
  }

  /** How many of the requests are for `key`. */
  ghost function KeyCount<K>(qs: seq<Request<K>>, key: K): nat
    decreases |qs|
  {
    if |qs| == 0 then 0 else (if qs[0].key == key then 1 else 0) + KeyCount(qs[1..], key)
  }

  /** A successful registration adds exactly one binding, under the
      request's key. */
  lemma RegisterCount<K, L>(reg: Registry<K, L>, handlers: map<string, L>, q: Request<K>)
    requires Valid(reg)
    requires Register(reg, handlers, q).1.None?
    ensures var next := Register(reg, handlers, q).0;
      forall k :: |EntryOf(next, k)| == |EntryOf(reg, k)| + (if q.key == k then 1 else 0)
  {
    var next := Register(reg, handlers, q).0;
    var e := EntryOf(reg, q.key);
    var b := Binding(AssignedPriority(e, q.priority), handlers[q.handler]);
    assert |multiset(next[q.key])| == |multiset(e) + multiset{b}|;
  }

  /** The binding add_listener stored makes the request registered. */
  lemma RegisterWitness<K, L>(reg: Registry<K, L>, next: Registry<K, L>, handlers: map<string, L>,
                              q: Request<K>, b: Binding<L>)
    requires q.handler in handlers && q.key in next
    requires b.listener == handlers[q.handler]
    requires q.priority.Some? ==> b.priority == q.priority.value
    requires multiset(next[q.key]) == multiset(EntryOf(reg, q.key)) + multiset{b}
    requires forall k :: k in reg && k != q.key ==> k in next && next[k] == reg[k]
    requires reg.Keys <= next.Keys
    ensures Registered(next, handlers, q)
    ensures Includes(reg, next)
  {
    assert b in multiset(next[q.key]);
    var i :| 0 <= i < |next[q.key]| && next[q.key][i] == b;
  }

  /** The inner loop of add_subscriber over nested `[name, priority]`
      lists, stopping at the first failure. */
  function RegisterPairs<K, L>(reg: Registry<K, L>, key: K, handlers: map<string, L>,
                               items: seq<Item>): (r: (Registry<K, L>, Option<Error<K>>))
    requires Valid(reg)
    requires forall i :: 0 <= i < |items| ==> items[i].ItemPair?
    ensures Valid(r.0)
    decreases |items|
  {
    if |items| == 0 then (reg, None)
    else
      var first := Register(reg, handlers, Request(key, items[0].handler, items[0].priority));
      if first.1.Some? then first
      else RegisterPairs(first.0, key, handlers, items[1..])
  }

  /** The body of add_subscriber's loop for one declared event. */
  function RegisterSpec<K, L>(reg: Registry<K, L>, key: K, handlers: map<string, L>,
                              spec: Spec): (r: (Registry<K, L>, Option<Error<K>>))
    requires Valid(reg)
    requires Supported(spec)
    ensures Valid(r.0)
  {
    match spec
    case Handler(name) => Register(reg, handlers, Request(key, name, None))
    case Items(items) =>
      if |items| == 0 then (reg, Some(InvalidDeclaration(key)))
      else if IsSingle(items) then
        var priority := if |items| > 1 then Some(items[1].value) else None;
        Register(reg, handlers, Request(key, items[0].name, priority))
      else RegisterPairs(reg, key, handlers, items)
    case Unrecognised => (reg, Some(InvalidDeclaration(key)))
  }

  /** The outer loop of add_subscriber: declarations in order, stopping at
      the first failure without undoing earlier registrations. */
  function RegisterDeclared<K, L>(reg: Registry<K, L>, declared: seq<(K, Spec)>,
                                  handlers: map<string, L>): (r: (Registry<K, L>, Option<Error<K>>))
    requires Valid(reg)
    requires AllSupported(declared)
    ensures Valid(r.0)
    decreases |declared|
  {
    if |declared| == 0 then (reg, None)
    else
      var first := RegisterSpec(reg, declared[0].0, handlers, declared[0].1);
      if first.1.Some? then first
      else RegisterDeclared(first.0, declared[1..], handlers)
  }

  /** The requests of a list of nested `[name, priority]` lists. */
  function PairRequests<K>(key: K, items: seq<Item>): (qs: seq<Request<K>>)
    requires forall i :: 0 <= i < |items| ==> items[i].ItemPair?
    ensures |qs| == |items|
    ensures forall i :: 0 <= i < |items| ==>
      qs[i] == Request(key, items[i].handler, items[i].priority)
    decreases |items|
  {
    if |items| == 0 then []
    else [Request(key, items[0].handler, items[0].priority)] + PairRequests(key, items[1..])
  }

  /** The add_listener calls one declaration stands for, or None when
      add_subscriber raises ValueError for it. */
  function Requests<K>(key: K, spec: Spec): (r: Option<seq<Request<K>>>)
    requires Supported(spec)
    ensures r.None? <==> spec.Unrecognised? || spec == Items([])
    ensures r.Some? ==> forall i :: 0 <= i < |r.value| ==> r.value[i].key == key
    ensures r.Some? && spec.Items? && !IsSingle(spec.items) ==> |r.value| == |spec.items|
    ensures r.Some? && (spec.Handler? || IsSingle(spec.items)) ==> |r.value| == 1
  {
    match spec
    case Handler(name) => Some([Request(key, name, None)])
    case Items(items) =>
      if |items| == 0 then None
      else if IsSingle(items) then
        Some([Request(key, items[0].name, if |items| > 1 then Some(items[1].value) else None)])
      else Some(PairRequests(key, items))
    case Unrecognised => None
  }

  /** All add_listener calls a subscriber's declarations stand for, up to
      the first malformed declaration, and the ValueError it raises. */
  function Plan<K>(declared: seq<(K, Spec)>): (p: (seq<Request<K>>, Option<Error<K>>))
    requires AllSupported(declared)
    ensures p.1.None? <==> forall i :: 0 <= i < |declared| ==> Requests(declared[i].0, declared[i].1).Some?
    ensures p.1.Some? ==> exists i :: (0 <= i < |declared| && p.1.value == InvalidDeclaration(declared[i].0)
      && Requests(declared[i].0, declared[i].1).None?
      && forall j :: 0 <= j < i ==> Requests(declared[j].0, declared[j].1).Some?)
    decreases |declared|
  {
    if |declared| == 0 then ([], None)
    else
      match Requests(declared[0].0, declared[0].1)
      case None => ([], Some(InvalidDeclaration(declared[0].0)))
      case Some(qs) =>
        var rest := Plan(declared[1..]);
        PlanStep(declared, rest);
        (qs + rest.0, rest.1)
  }

  /** The bookkeeping of Plan's recursive case: the first malformed
      declaration of the tail is the first of the whole. */
  lemma PlanStep<K>(declared: seq<(K, Spec)>, rest: (seq<Request<K>>, Option<Error<K>>))
    requires |declared| > 0 && AllSupported(declared)
    requires Requests(declared[0].0, declared[0].1).Some?
    requires rest.1.None? <==> forall i :: 0 <= i < |declared| - 1 ==>
      Requests(declared[1..][i].0, declared[1..][i].1).Some?
    requires rest.1.Some? ==> exists i :: (0 <= i < |declared| - 1
      && rest.1.value == InvalidDeclaration(declared[1..][i].0)
      && Requests(declared[1..][i].0, declared[1..][i].1).None?
      && forall j :: 0 <= j < i ==> Requests(declared[1..][j].0, declared[1..][j].1).Some?)
    ensures rest.1.None? <==> forall i :: 0 <= i < |declared| ==> Requests(declared[i].0, declared[i].1).Some?
    ensures rest.1.Some? ==> exists i :: (0 <= i < |declared| && rest.1.value == InvalidDeclaration(declared[i].0)
      && Requests(declared[i].0, declared[i].1).None?
      && forall j :: 0 <= j < i ==> Requests(declared[j].0, declared[j].1).Some?)
  {
    assert forall i :: 1 <= i < |declared| ==> declared[i] == declared[1..][i - 1];
    if rest.1.Some? {
      var i :| 0 <= i < |declared| - 1 && rest.1.value == InvalidDeclaration(declared[1..][i].0)
        && Requests(declared[1..][i].0, declared[1..][i].1).None?
        && forall j :: 0 <= j < i ==> Requests(declared[1..][j].0, declared[1..][j].1).Some?;
      assert forall j :: 0 <= j < i + 1 ==> Requests(declared[j].0, declared[j].1).Some?;
    }
  }

  /** The requests carried out one after another, stopping at the first
      failure: the reference semantics add_subscriber is measured against.
      Whatever was registered stays, and on success every request is. */
  function Apply<K, L>(reg: Registry<K, L>, handlers: map<string, L>,
                       qs: seq<Request<K>>): (r: (Registry<K, L>, Option<Error<K>>))
    requires Valid(reg)
    ensures Valid(r.0)
    ensures Includes(reg, r.0)
    ensures r.1.None? ==> forall i :: 0 <= i < |qs| ==> Registered(r.0, handlers, qs[i])
    decreases |qs|
  {
    if |qs| == 0 then (reg, None)
    else
      var first := Register(reg, handlers, qs[0]);
      if first.1.Some? then first
      else
        var rest := Apply(first.0, handlers, qs[1..]);
        ApplyStep(reg, handlers, qs, first.0, rest);
        rest
  }

  /** The bookkeeping of Apply's recursive case. */
  lemma ApplyStep<K, L>(reg: Registry<K, L>, handlers: map<string, L>, qs: seq<Request<K>>,
                        mid: Registry<K, L>, rest: (Registry<K, L>, Option<Error<K>>))
    requires |qs| > 0
    requires Includes(reg, mid) && Registered(mid, handlers, qs[0])
    requires Includes(mid, rest.0)
    requires rest.1.None? ==> forall i :: 0 <= i < |qs| - 1 ==> Registered(rest.0, handlers, qs[1..][i])
    ensures Includes(reg, rest.0)
    ensures rest.1.None? ==> forall i :: 0 <= i < |qs| ==> Registered(rest.0, handlers, qs[i])
  {
    RegisteredIncludes(mid, rest.0, handlers, qs[0]);
    assert forall i :: 1 <= i < |qs| ==> qs[i] == qs[1..][i - 1];
  }

  /** A successful run adds exactly one binding per request, under the
      request's key, and no other binding. */
  lemma {:induction false} ApplyCount<K, L>(reg: Registry<K, L>, handlers: map<string, L>,
                                           qs: seq<Request<K>>)
    requires Valid(reg)
    ensures var r := Apply(reg, handlers, qs);
      r.1.None? ==> forall k :: |EntryOf(r.0, k)| == |EntryOf(reg, k)| + KeyCount(qs, k)
    decreases |qs|
  {
    if |qs| > 0 {
      var first := Register(reg, handlers, qs[0]);
      if first.1.None? {
        RegisterCount(reg, handlers, qs[0]);
        ApplyCount(first.0, handlers, qs[1..]);
      }
    }
  }

  /** What a request can raise: AttributeError for its handler, or
      IndexError for its priority. */
  ghost predicate RaisedBy<K>(err: Error<K>, q: Request<K>) {
    err == MissingHandler(q.handler) || (q.priority.Some? && err == PriorityConflict(q.key, q.priority.value))
  }

  /** A failed run stopped at some request: those before it are registered
      and the error is that request's own. */
  lemma {:induction false} ApplyStopsAtFailure<K, L>(reg: Registry<K, L>, handlers: map<string, L>,
                                                    qs: seq<Request<K>>)
    requires Valid(reg)
    ensures var r := Apply(reg, handlers, qs);
      r.1.Some? ==> StoppedAt(r, handlers, qs)
    decreases |qs|
  {
    if |qs| > 0 {
      var first := Register(reg, handlers, qs[0]);
      if first.1.Some? {
        assert RaisedBy(first.1.value, qs[0]);
        assert StoppedAt(first, handlers, qs) by {
          assert 0 <= 0 < |qs| && RaisedBy(first.1.value, qs[0]);
        }
      } else {
        var r := Apply(first.0, handlers, qs[1..]);
        ApplyStopsAtFailure(first.0, handlers, qs[1..]);
        if r.1.Some? {
          StoppedAtStep(first.0, r, handlers, qs);
        }
      }
    }
  }

  /** A run that raised `r.1` at some request, with all requests before it registered. */
  ghost predicate StoppedAt<K, L>(r: (Registry<K, L>, Option<Error<K>>), handlers: map<string, L>,
                                  qs: seq<Request<K>>)
    requires r.1.Some?
  {
    exists n :: (0 <= n < |qs| && RaisedBy(r.1.value, qs[n])
      && forall i :: 0 <= i < n ==> Registered(r.0, handlers, qs[i]))
  }

  /** The bookkeeping of ApplyStopsAtFailure's recursive case. */
  lemma StoppedAtStep<K, L>(mid: Registry<K, L>, r: (Registry<K, L>, Option<Error<K>>),
                            handlers: map<string, L>, qs: seq<Request<K>>)
    requires |qs| > 0 && r.1.Some?
    requires Registered(mid, handlers, qs[0]) && Includes(mid, r.0)
    requires StoppedAt(r, handlers, qs[1..])
    ensures StoppedAt(r, handlers, qs)
  {
    var n :| 0 <= n < |qs[1..]| && RaisedBy(r.1.value, qs[1..][n])
      && forall i :: 0 <= i < n ==> Registered(r.0, handlers, qs[1..][i]);
    RegisteredIncludes(mid, r.0, handlers, qs[0]);
    assert qs[n + 1] == qs[1..][n];
    assert forall i :: 1 <= i < n + 1 ==> qs[i] == qs[1..][i - 1];
  }

  /** Some request of `qs` is for `key`. */
  ghost predicate Names<K>(qs: seq<Request<K>>, key: K) {
    exists i :: 0 <= i < |qs| && qs[i].key == key
  }

  /** A run only creates entries for keys some request names. */
  lemma {:induction false} ApplyNewKeys<K, L>(reg: Registry<K, L>, handlers: map<string, L>,
                                             qs: seq<Request<K>>)
    requires Valid(reg)
    ensures forall k :: k in Apply(reg, handlers, qs).0 && k !in reg ==> Names(qs, k)
    decreases |qs|
  {
    if |qs| > 0 {
      var first := Register(reg, handlers, qs[0]);
      if first.1.None? {
        var r := Apply(first.0, handlers, qs[1..]);
        assert Apply(reg, handlers, qs) == r;
        ApplyNewKeys(first.0, handlers, qs[1..]);
        forall k | k in r.0 && k !in reg
          ensures Names(qs, k)
        {
          NamesStep(qs, k, k in first.0);
        }
      }
    }
  }

  /** The index shift of ApplyNewKeys's recursive case. */
  lemma NamesStep<K>(qs: seq<Request<K>>, key: K, head: bool)
    requires |qs| > 0
    requires head ==> qs[0].key == key
    requires !head ==> Names(qs[1..], key)
    ensures Names(qs, key)
  {
    if head {
      assert qs[0].key == key;
    } else {
      var i :| 0 <= i < |qs[1..]| && qs[1..][i].key == key;
      assert qs[i + 1].key == key;
    }
  }

  /** Requests carried out in two runs equal one run over both, unless the
      first run already failed. */
  lemma {:induction false} ApplyAppend<K, L>(reg: Registry<K, L>, handlers: map<string, L>,
                                            xs: seq<Request<K>>, ys: seq<Request<K>>)
    requires Valid(reg)
    ensures Apply(reg, handlers, xs + ys) ==
      var first := Apply(reg, handlers, xs);
      if first.1.Some? then first else Apply(first.0, handlers, ys)
    decreases |xs|
  {
    if |xs| == 0 {
      assert xs + ys == ys;
    } else {
      assert (xs + ys)[0] == xs[0];
      assert (xs + ys)[1..] == xs[1..] + ys;
      var first := Register(reg, handlers, xs[0]);
      if first.1.None? {
        ApplyAppend(first.0, handlers, xs[1..], ys);
      }
    }
  }

  /** The nested loop over `[name, priority]` lists is the plain run of its
      requests. */
  lemma {:induction false} RegisterPairsIsApply<K, L>(reg: Registry<K, L>, key: K,
                                                     handlers: map<string, L>, items: seq<Item>)
    requires Valid(reg)
    requires forall i :: 0 <= i < |items| ==> items[i].ItemPair?
    ensures RegisterPairs(reg, key, handlers, items) == Apply(reg, handlers, PairRequests(key, items))
    decreases |items|
  {
    if |items| > 0 {
      var qs := PairRequests(key, items);
      assert qs[1..] == PairRequests(key, items[1..]);
      var first := Register(reg, handlers, qs[0]);
      if first.1.None? {
        RegisterPairsIsApply(first.0, key, handlers, items[1..]);
      }
    }
  }

  /** One declaration is handled as the run of its requests, or raises
      ValueError without registering anything. */
  lemma RegisterSpecIsApply<K, L>(reg: Registry<K, L>, key: K, handlers: map<string, L>, spec: Spec)
    requires Valid(reg)
    requires Supported(spec)
    ensures Requests(key, spec).None? ==>
      RegisterSpec(reg, key, handlers, spec) == (reg, Some(InvalidDeclaration(key)))
    ensures Requests(key, spec).Some? ==>
      RegisterSpec(reg, key, handlers, spec) == Apply(reg, handlers, Requests(key, spec).value)
  {
    match spec
    case Handler(name) =>
    case Items(items) =>
      if |items| > 0 && !IsSingle(items) {
        RegisterPairsIsApply(reg, key, handlers, items);
      }
    case Unrecognised =>
  }

  /** add_subscriber's nested loops perform exactly the planned requests in
      order: it fails with the first request that fails, else with the
      ValueError of the first malformed declaration, else succeeds. */
  lemma {:induction false} RegisterDeclaredFollowsPlan<K, L>(reg: Registry<K, L>,
                                                            declared: seq<(K, Spec)>,
                                                            handlers: map<string, L>)
    requires Valid(reg)
    requires AllSupported(declared)
    ensures var p := Plan(declared);
      var run := Apply(reg, handlers, p.0);
      RegisterDeclared(reg, declared, handlers) == if run.1.Some? then run else (run.0, p.1)
    decreases |declared|
  {
    if |declared| > 0 {
      var key := declared[0].0;
      var spec := declared[0].1;
      RegisterSpecIsApply(reg, key, handlers, spec);
      assert AllSupported(declared[1..]);
      match Requests(key, spec)
      case None =>
      case Some(qs) =>
        var first := Apply(reg, handlers, qs);
        ApplyAppend(reg, handlers, qs, Plan(declared[1..]).0);
        if first.1.None? {
          RegisterDeclaredFollowsPlan(first.0, declared[1..], handlers);
        }
    }
  }

  /** `Mediator.add_subscriber`. A non-subscriber raises TypeError and the
      bare interface NotImplementedError, both before any registration; a
      subscriber's planned requests are carried out in order, and whatever
      was registered before a failure stays registered. */
  function AddSubscriber<K, L>(reg: Registry<K, L>, candidate: Candidate<K, L>)
    : (r: (Registry<K, L>, Option<Error<K>>))
    requires Valid(reg)
    requires candidate.Subscriber? ==> AllSupported(candidate.declared)
    ensures candidate.NotSubscriber? ==> r == (reg, Some(InvalidSubscriberType))
    ensures candidate.BaseSubscriber? ==> r == (reg, Some(Unimplemented))
    ensures Valid(r.0)
    ensures Includes(reg, r.0)
    ensures candidate.Subscriber? ==>
      var p := Plan(candidate.declared);
      (r.1.None? <==> p.1.None? && Apply(reg, candidate.handlers, p.0).1.None?) &&
      (forall i :: 0 <= i < |p.0| && (r.1.None? || r.1 == p.1) ==>
         Registered(r.0, candidate.handlers, p.0[i])) &&
      (r.1.None? || r.1 == p.1 ==>
         forall k :: k in r.0 ==> |r.0[k]| == |EntryOf(reg, k)| + KeyCount(p.0, k))
    ensures candidate.Subscriber? ==>
      forall k :: k in r.0 && k !in reg ==> Declares(candidate.declared, k)
  {
    match candidate
    case NotSubscriber => (reg, Some(InvalidSubscriberType))
    case BaseSubscriber => (reg, Some(Unimplemented))
    case Subscriber(declared, handlers) =>
      SubscriberOutcome(reg, declared, handlers);
      RegisterDeclared(reg, declared, handlers)
  }

  /** What registering a subscriber's declarations amounts to, in terms of
      its plan and the run of the planned requests. */
  lemma SubscriberOutcome<K, L>(reg: Registry<K, L>, declared: seq<(K, Spec)>,
                                handlers: map<string, L>)
    requires Valid(reg)
    requires AllSupported(declared)
    ensures Includes(reg, RegisterDeclared(reg, declared, handlers).0)
    ensures var r := RegisterDeclared(reg, declared, handlers);
      var p := Plan(declared);
      (r.1.None? <==> p.1.None? && Apply(reg, handlers, p.0).1.None?) &&
      (forall i :: 0 <= i < |p.0| && (r.1.None? || r.1 == p.1) ==>
         Registered(r.0, handlers, p.0[i]))
    ensures var r := RegisterDeclared(reg, declared, handlers);
      var p := Plan(declared);
      r.1.None? || r.1 == p.1 ==>
        forall k :: |EntryOf(r.0, k)| == |EntryOf(reg, k)| + KeyCount(p.0, k)
    ensures forall k :: k in RegisterDeclared(reg, declared, handlers).0 && k !in reg ==>
      Declares(declared, k)
  {
    var p := Plan(declared);
    var run := Apply(reg, handlers, p.0);
    RegisterDeclaredFollowsPlan(reg, declared, handlers);
    RegisterDeclaredKeys(reg, declared, handlers);
    ApplyCount(reg, handlers, p.0);
    if run.1.Some? && run.1 == p.1 {
      // p.1 is an InvalidDeclaration, which no request raises
      ApplyStopsAtFailure(reg, handlers, p.0);
    }
  }

  /** A subscriber with a single declaration is handled exactly as that
      declaration's branch of the loop. */
  lemma AddSubscriberSingle<K, L>(reg: Registry<K, L>, key: K, spec: Spec, handlers: map<string, L>)
    requires Valid(reg) && Supported(spec)
    ensures AddSubscriber(reg, Subscriber([(key, spec)], handlers)) == RegisterSpec(reg, key, handlers, spec)
  {
    var declared := [(key, spec)];
    assert declared[0] == (key, spec) && declared[1..] == [];
    var first := RegisterSpec(reg, key, handlers, spec);
    if first.1.None? {
      assert RegisterDeclared(first.0, declared[1..], handlers) == (first.0, None);
    }
    assert RegisterDeclared(reg, declared, handlers) == first;
  }

  /** A bare handler name, or a one-element list naming it, registers that
      handler at the default priority, after the key's existing listeners;
      a missing handler raises AttributeError and registers nothing. */
  lemma RegisterSpecDefault<K, L>(reg: Registry<K, L>, key: K, handlers: map<string, L>,
                                  h: string, spec: Spec)
    requires Valid(reg)
    requires spec == Handler(h) || spec == Items([ItemName(h)])
    ensures var e := EntryOf(reg, key);
      RegisterSpec(reg, key, handlers, spec) ==
        if h in handlers then (reg[key := e + [Binding(DefaultPriority(e), handlers[h])]], None)
        else (reg, Some(MissingHandler(h)))
  {
    if h in handlers {
      AddListenerDefaultAppends(reg, Key(key), handlers[h]);
    }
  }

  /** A `[name, priority]` list registers the handler at exactly that
      priority, in sorted position; a missing handler raises AttributeError
      and a taken priority IndexError, both registering nothing. */
  lemma RegisterSpecWithPriority<K, L>(reg: Registry<K, L>, key: K, handlers: map<string, L>,
                                       h: string, p: int)
    requires Valid(reg)
    ensures var e := EntryOf(reg, key);
      RegisterSpec(reg, key, handlers, Items([ItemName(h), ItemPriority(p)])) ==
        if h !in handlers then (reg, Some(MissingHandler(h)))
        else if Occupied(e, p) then (reg, Some(PriorityConflict(key, p)))
        else (reg[key := Insert(e, Binding(p, handlers[h]))], None)
  {
  }

  /** Only declared keys gain an entry. */
  lemma RegisterDeclaredKeys<K, L>(reg: Registry<K, L>, declared: seq<(K, Spec)>,
                                   handlers: map<string, L>)
    requires Valid(reg)
    requires AllSupported(declared)
    ensures forall k :: k in RegisterDeclared(reg, declared, handlers).0 && k !in reg ==>
      Declares(declared, k)
  {
    var p := Plan(declared);
    RegisterDeclaredFollowsPlan(reg, declared, handlers);
    ApplyNewKeys(reg, handlers, p.0);
    PlanKeys(declared);
    forall k | k in RegisterDeclared(reg, declared, handlers).0 && k !in reg
      ensures Declares(declared, k)
    {
      assert Names(p.0, k);
      var i :| 0 <= i < |p.0| && p.0[i].key == k;
      assert Declares(declared, p.0[i].key);
    }
  }

  /** Every planned request is for a declared key. */
  lemma {:induction false} PlanKeys<K>(declared: seq<(K, Spec)>)
    requires AllSupported(declared)
    ensures forall i :: 0 <= i < |Plan(declared).0| ==> Declares(declared, Plan(declared).0[i].key)
    decreases |declared|
  {
    if |declared| > 0 {
      assert AllSupported(declared[1..]);
      PlanKeys(declared[1..]);
      assert forall j :: 1 <= j < |declared| ==> declared[j] == declared[1..][j - 1];
      match Requests(declared[0].0, declared[0].1)
      case None =>
        assert Plan(declared).0 == [];
      case Some(qs) =>
        var rest := Plan(declared[1..]).0;
        assert Plan(declared).0 == qs + rest;
        forall i | 0 <= i < |qs + rest|
          ensures Declares(declared, (qs + rest)[i].key)
        {
          if i < |qs| {
            assert declared[0].0 == (qs + rest)[i].key;
          } else {
            assert (qs + rest)[i] == rest[i - |qs|];
            assert Declares(declared[1..], rest[i - |qs|].key);
            var j :| 0 <= j < |declared[1..]| && declared[1..][j].0 == rest[i - |qs|].key;
            assert declared[j + 1].0 == (qs + rest)[i].key;
          }
        }
    }
  }
}
