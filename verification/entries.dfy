/** The per-event collection of the registry: the priority -> listener
    `OrderedDict` of mediator.py, as a sequence of bindings in iteration
    order. */
module Entries {
  import opened Wrappers

  /** One registration: the listener and the priority it runs at. */
  datatype Binding<L> = Binding(priority: int, listener: L)

  /** The listeners of one event key, in the dictionary's iteration order. */
  type Entry<L> = seq<Binding<L>>

  /** Priorities strictly increase along the entry; this is both the
      uniqueness of priorities and the order listeners are invoked in. */
  predicate Ascending<L>(e: Entry<L>) {
    forall i, j :: 0 <= i < j < |e| ==> e[i].priority < e[j].priority
  }

  /** `p` is a key of the priority dictionary. */
  predicate Occupied<L>(e: Entry<L>, p: int) {
    exists i :: 0 <= i < |e| && e[i].priority == p
  }

  /** The largest priority of a non-empty entry, defined independently of
      the order the entry is kept in. */
  function MaxPriority<L>(e: Entry<L>): (m: int)
    requires |e| > 0
    ensures Occupied(e, m)
    ensures forall i :: 0 <= i < |e| ==> e[i].priority <= m
  {
    if |e| == 1 then e[0].priority
    else
      var rest := MaxPriority(e[1..]);
      assert forall i :: 1 <= i < |e| ==> e[i] == e[1..][i - 1];
      if e[0].priority < rest then rest else e[0].priority
  }

  /** The priority add_listener assigns when none is given: 0 for an empty
      entry, otherwise the last key plus one. */
  function DefaultPriority<L>(e: Entry<L>): (p: int)
    ensures |e| == 0 ==> p == 0
    ensures Ascending(e) ==> forall i :: 0 <= i < |e| ==> e[i].priority < p
    ensures Ascending(e) ==> !Occupied(e, p)
  {
    if |e| == 0 then 0
    else
      assert Ascending(e) ==> forall i :: 0 <= i < |e| - 1 ==> e[i].priority < e[|e| - 1].priority;
      e[|e| - 1].priority + 1
  }

  /** In an ascending entry the last key is the largest, so the default
      priority is one past the maximum and is never already taken. */
  lemma DefaultPriorityIsNext<L>(e: Entry<L>)
    requires Ascending(e)
    ensures |e| > 0 ==> DefaultPriority(e) == MaxPriority(e) + 1
    ensures |e| == 0 ==> DefaultPriority(e) == 0
    ensures forall i :: 0 <= i < |e| ==> e[i].priority < DefaultPriority(e)
    ensures !Occupied(e, DefaultPriority(e))
  {
    if |e| > 0 {
      var m := MaxPriority(e);
      var last := e[|e| - 1].priority;
      forall i | 0 <= i < |e|
        ensures e[i].priority <= last
      {
        if i < |e| - 1 {
          assert e[i].priority < e[|e| - 1].priority;
        }
      }
      var k :| 0 <= k < |e| && e[k].priority == m;
      assert m <= last;
    }
  }

  /** Prepending a binding below every priority of an ascending entry
      keeps it ascending. */
  lemma AscendingCons<L>(x: Binding<L>, rest: Entry<L>)
    requires Ascending(rest)
    requires forall j :: 0 <= j < |rest| ==> x.priority < rest[j].priority
    ensures Ascending([x] + rest)
  {
  }

  /** Inserts a binding whose priority is new at its sorted position: the
      effect of adding the key and rebuilding `OrderedDict(sorted(...))`. */
  function Insert<L>(e: Entry<L>, b: Binding<L>): (r: Entry<L>)
    requires Ascending(e)
    requires !Occupied(e, b.priority)
    ensures Ascending(r)
    ensures multiset(r) == multiset(e) + multiset{b}
    ensures |r| == |e| + 1
  {
    if |e| == 0 then [b]
    else if b.priority < e[0].priority then
      AscendingCons(b, e);
      [b] + e
    else
      InsertTail(e, b);
      var rest := Insert(e[1..], b);
      InsertHead(e, b, rest);
      [e[0]] + rest
  }

  /** The recursive case of Insert: the tail of the entry is ascending and
      does not hold the new priority either. */
  lemma InsertTail<L>(e: Entry<L>, b: Binding<L>)
    requires Ascending(e) && |e| > 0
    requires !Occupied(e, b.priority)
    ensures Ascending(e[1..])
    ensures !Occupied(e[1..], b.priority)
  {
    assert forall i :: 0 <= i < |e[1..]| ==> e[1..][i] == e[i + 1];
  }

  /** The recursive case of Insert: putting the head back in front of the
      tail with the binding inserted keeps order and contents. */
  lemma InsertHead<L>(e: Entry<L>, b: Binding<L>, rest: Entry<L>)
    requires Ascending(e) && |e| > 0 && e[0].priority <= b.priority
    requires !Occupied(e, b.priority)
    requires Ascending(rest)
    requires multiset(rest) == multiset(e[1..]) + multiset{b}
    ensures Ascending([e[0]] + rest)
    ensures multiset([e[0]] + rest) == multiset(e) + multiset{b}
  {
    assert e == [e[0]] + e[1..];
    assert e[0].priority < b.priority;
    forall j | 0 <= j < |rest| ensures e[0].priority < rest[j].priority {
      assert rest[j] in multiset(rest);
      if rest[j] != b {
        assert rest[j] in multiset(e[1..]);
        var i :| 0 <= i < |e[1..]| && rest[j] == e[1..][i];
        assert rest[j] == e[i + 1];
      }
    }
    AscendingCons(e[0], rest);
  }

  /** Appending a binding whose priority exceeds every existing one keeps
      the entry ascending, so Insert of such a binding is a plain append. */
  lemma {:induction false} InsertPastEnd<L>(e: Entry<L>, b: Binding<L>)
    requires Ascending(e)
    requires forall i :: 0 <= i < |e| ==> e[i].priority < b.priority
    ensures !Occupied(e, b.priority)
    ensures Insert(e, b) == e + [b]
  {
    if |e| > 0 {
      assert !(b.priority < e[0].priority);
      InsertTail(e, b);
      assert forall i :: 0 <= i < |e[1..]| ==> e[1..][i].priority < b.priority;
      InsertPastEnd(e[1..], b);
      assert Insert(e, b) == [e[0]] + (e[1..] + [b]);
      assert [e[0]] + (e[1..] + [b]) == ([e[0]] + e[1..]) + [b];
      assert e == [e[0]] + e[1..];
    }
  }

  /** Two ascending arrangements of the same bindings start alike. */
  lemma SameHead<L>(a: Entry<L>, c: Entry<L>)
    requires Ascending(a) && Ascending(c)
    requires multiset(a) == multiset(c) && |a| > 0
    ensures |c| > 0 && a[0] == c[0]
  {
    assert a[0] in multiset(c);
    assert a[0] in c;
    var j :| 0 <= j < |c| && c[j] == a[0];
    assert c[0] in multiset(a);
    assert c[0] in a;
    var i :| 0 <= i < |a| && a[i] == c[0];
    assert a[0].priority <= a[i].priority;
    assert c[0].priority <= c[j].priority;
    assert j == 0;
  }

  /** The multiset of a non-empty sequence splits at its head. */
  lemma SplitHead<L>(a: Entry<L>)
    requires |a| > 0
    ensures multiset(a[1..]) == multiset(a) - multiset{a[0]}
    ensures Ascending(a) ==> Ascending(a[1..])
  {
    assert a == [a[0]] + a[1..];
  }

  /** An ascending arrangement of given bindings is unique: whatever
      (stable) sort produced it, it equals any other ascending one. */
  lemma {:induction false} SortedUnique<L>(a: Entry<L>, c: Entry<L>)
    requires Ascending(a) && Ascending(c)
    requires multiset(a) == multiset(c)
    ensures a == c
    decreases |a|
  {
    if |a| == 0 {
      assert |c| == |multiset(c)| == 0;
    } else {
      SameHead(a, c);
      SplitHead(a);
      SplitHead(c);
      SortedUnique(a[1..], c[1..]);
      assert a == [a[0]] + a[1..];
      assert c == [c[0]] + c[1..];
    }
  }

  /** The index of the first binding whose listener is `l` (Python `is`),
      scanning in iteration order. */
  function FindListener<L(==)>(e: Entry<L>, l: L): (r: Option<nat>)
    ensures r.None? <==> forall i :: 0 <= i < |e| ==> e[i].listener != l
    ensures r.Some? ==> r.value < |e| && e[r.value].listener == l
    ensures r.Some? ==> forall i :: 0 <= i < r.value ==> e[i].listener != l
  {
    if |e| == 0 then None
    else if e[0].listener == l then Some(0)
    else
      match FindListener(e[1..], l)
      case None => None
      case Some(k) => Some(k + 1)
  }

  /** Dropping one binding from an ascending entry keeps it ascending. */
  lemma AscendingWithout<L>(e: Entry<L>, i: nat)
    requires Ascending(e) && i < |e|
    ensures Ascending(e[..i] + e[i + 1..])
  {
    var r := e[..i] + e[i + 1..];
    forall a, c | 0 <= a < c < |r|
      ensures r[a].priority < r[c].priority
    {
      var a' := if a < i then a else a + 1;
      var c' := if c < i then c else c + 1;
      assert r[a] == e[a'] && r[c] == e[c'];
    }
  }

  /** Removes the first binding whose listener is `l` and stops, as the loop
      in remove_listener does; with no match the entry is unchanged. */
  function RemoveFirst<L(==)>(e: Entry<L>, l: L): (r: Entry<L>)
    ensures FindListener(e, l).None? ==> r == e
    ensures FindListener(e, l).Some? ==>
      var i := FindListener(e, l).value; r == e[..i] + e[i + 1..]
  {
    if |e| == 0 then e
    else if e[0].listener == l then e[1..]
    else
      var rest := RemoveFirst(e[1..], l);
      assert e == [e[0]] + e[1..];
      [e[0]] + rest
  }

  /** Removal keeps the entry ascending and drops exactly one binding when
      the listener is present. */
  lemma RemoveFirstAscending<L>(e: Entry<L>, l: L)
    ensures Ascending(e) ==> Ascending(RemoveFirst(e, l))
    ensures |RemoveFirst(e, l)| == |e| - (if FindListener(e, l).Some? then 1 else 0)
  {
    if Ascending(e) && FindListener(e, l).Some? {
      AscendingWithout(e, FindListener(e, l).value);
    }
  }
}
