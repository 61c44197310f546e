/**
 * The static event registry: event id -> ordered list of registered listeners,
 * owner -> list of event ids it registered for, and the pool of handler lists
 * that publishing borrows.
 */
module Events {
  import opened Wrappers

  /** typeof(T).GetHashCode() of an event type. */
  type EventId = int
  /** The identity of an object: a delegate's Target or a listener's owner. */
  type ObjId = nat

  /**
   * The method a delegate calls. User code can only name its own methods; the
   * lambda `e => handler((T)e)` that AddListener builds is compiler-generated.
   */
  datatype MethodId = UserMethod(n: nat) | AddListenerLambda

  /** A delegate as the registry compares it: a Target (None for a static method) and a Method. */
  datatype Delegate = Delegate(target: Option<ObjId>, methodRef: MethodId)

  /**
   * The wrapper AddListener stores: a closure object capturing the user's
   * handler. As a delegate its Target is the closure and its Method the lambda.
   */
  datatype Wrapper = Wrapper(closure: ObjId, handler: Delegate)
  {
    function AsDelegate(): Delegate
    {
      Delegate(Some(closure), AddListenerLambda)
    }
  }

  /** One registered listener (the private EventHandler class): the stored wrapper and its owner. */
  datatype Entry = Entry(wrapper: Wrapper, owner: Option<ObjId>)

  /** List<T>.RemoveAll: the entries `drop` does not select, in their original order. */
  function Filter(s: seq<Entry>, drop: Entry -> bool): (r: seq<Entry>)
    ensures |r| <= |s|
    ensures forall x :: x in r <==> x in s && !drop(x)
    ensures (forall i :: 0 <= i < |s| ==> !drop(s[i])) ==> r == s
  {
    if |s| == 0 then []
    else (if drop(s[0]) then [] else [s[0]]) + Filter(s[1..], drop)
  }

  /** Filtering twice with the same selector is filtering once. */
  lemma {:induction false} FilterIdempotent(s: seq<Entry>, drop: Entry -> bool)
    ensures Filter(Filter(s, drop), drop) == Filter(s, drop)
  {
    var r := Filter(s, drop);
    assert forall i :: 0 <= i < |r| ==> r[i] in r;
  }

  /** The selector the source passes to RemoveListener's comparison: same Target and same Method. */
  predicate SameIdentity(a: Delegate, b: Delegate) {
    a.target == b.target && a.methodRef == b.methodRef
  }

  /** RemoveListener's test as the source writes it: the stored delegate (the wrapper) has h's Target and Method. */
  function WrapperIs(h: Delegate): Entry -> bool {
    (x: Entry) => SameIdentity(x.wrapper.AsDelegate(), h)
  }

  /** The test as intended: the handler the wrapper forwards to has h's Target and Method. */
  function HandlerIs(h: Delegate): Entry -> bool {
    (x: Entry) => SameIdentity(x.wrapper.handler, h)
  }

  /** RemoveOwnerListeners' test `h => h.owner == owner`. */
  function OwnedBy(o: ObjId): Entry -> bool {
    (x: Entry) => x.owner == Some(o)
  }

  /** No stored wrapper has the identity of a user handler: the as-written comparison never selects anything. */
  lemma WrapperNeverMatches(s: seq<Entry>, h: Delegate)
    requires h.methodRef.UserMethod?
    ensures Filter(s, WrapperIs(h)) == s
  {
    forall i | 0 <= i < |s| ensures !WrapperIs(h)(s[i]) {
      assert s[i].wrapper.AsDelegate().methodRef == AddListenerLambda;
    }
  }

  /** List<int>.Remove: drop the first occurrence of x, if there is one. */
  function RemoveFirst(s: seq<EventId>, x: EventId): (r: seq<EventId>)
    ensures x !in s ==> r == s
    ensures x in s ==> |r| == |s| - 1
    ensures multiset(r) == multiset(s) - multiset{x}
  {
    if |s| == 0 then []
    else
      assert s == [s[0]] + s[1..];
      if s[0] == x then s[1..]
      else [s[0]] + RemoveFirst(s[1..], x)
  }

  /** The callers' handlers, in registration order, that GetHandlers copies out for an event. */
  function StoredWrappers(s: seq<Entry>): (ws: seq<Wrapper>)
    ensures |ws| == |s| && forall i :: 0 <= i < |s| ==> ws[i] == s[i].wrapper
  {
    seq(|s|, i requires 0 <= i < |s| => s[i].wrapper)
  }

  /** How many of the handlers fail when invoked: each failure is logged once. */
  function Failures(ws: seq<Wrapper>, fails: Wrapper -> bool): (n: nat)
    ensures n <= |ws|
    ensures n == 0 <==> forall i :: 0 <= i < |ws| ==> !fails(ws[i])
  {
    if |ws| == 0 then 0 else Failures(ws[..|ws| - 1], fails) + (if fails(ws[|ws| - 1]) then 1 else 0)
  }

  /** One event's list without the entries of owner `o`; an emptied list leaves the table. */
  function StripEvent(h: map<EventId, seq<Entry>>, id: EventId, o: ObjId): map<EventId, seq<Entry>>
  {
    if id !in h then h
    else
      var kept := Filter(h[id], OwnedBy(o));
      if |kept| == 0 then h - {id} else h[id := kept]
  }

  /** The table after stripping owner `o` from each listed event in turn, in list order. */
  function StripAll(h: map<EventId, seq<Entry>>, ids: seq<EventId>, o: ObjId): (r: map<EventId, seq<Entry>>)
    ensures r.Keys <= h.Keys
    decreases |ids|
  {
    if |ids| == 0 then h else StripEvent(StripAll(h, ids[..|ids| - 1], o), ids[|ids| - 1], o)
  }

  /** An event that is not listed is untouched by the stripping. */
  lemma {:induction false} StripAllUnlisted(h: map<EventId, seq<Entry>>, ids: seq<EventId>, o: ObjId, e: EventId)
    requires e in h && e !in ids
    ensures e in StripAll(h, ids, o) && StripAll(h, ids, o)[e] == h[e]
    decreases |ids|
  {
    if |ids| > 0 {
      assert e !in ids[..|ids| - 1] && e != ids[|ids| - 1];
      StripAllUnlisted(h, ids[..|ids| - 1], o, e);
    }
  }

  /**
   * An event listed once or more keeps exactly its entries not owned by `o`, and
   * stays in the table only if some remain: repeating an event id does no harm.
   */
  lemma {:induction false} StripAllListed(h: map<EventId, seq<Entry>>, ids: seq<EventId>, o: ObjId, e: EventId)
    requires e in h && e in ids
    ensures e in StripAll(h, ids, o) <==> |Filter(h[e], OwnedBy(o))| > 0
    ensures e in StripAll(h, ids, o) ==> StripAll(h, ids, o)[e] == Filter(h[e], OwnedBy(o))
    decreases |ids|
  {
    var prefix, id := ids[..|ids| - 1], ids[|ids| - 1];
    assert ids == prefix + [id];
    if e != id {
      StripAllListed(h, prefix, o, e);
    } else if e in prefix {
      StripAllListed(h, prefix, o, e);
      FilterIdempotent(h[e], OwnedBy(o));
    } else {
      StripAllUnlisted(h, prefix, o, e);
    }
  }

  /** A List<Action<IEventData>> that the pool hands out and takes back. */
  class HandlerList {
    var items: seq<Wrapper>

    /** new List<Action<IEventData>>(8): an empty list (the capacity is not modelled). */
    constructor ()
      ensures items == []
    {
      items := [];
    }
  }

  /**
   * ObjectPool<List<Action<IEventData>>> as the registry instantiates it:
   * a stack of lists, a factory that makes an empty list and a reset that clears one.
   */
  class HandlerListPool {
    var stack: seq<HandlerList>

    /** Every pooled list has been cleared, and no list is pooled twice. */
    ghost predicate Valid()
      reads this, set l | l in stack
    {
      && (forall l :: l in stack ==> l.items == [])
      && (forall i, j :: 0 <= i < j < |stack| ==> stack[i] != stack[j])
    }

    constructor ()
      ensures stack == [] && Valid()
    {
      stack := [];
    }

    /** Pop the most recently released list, or create a new one when the pool is empty. */
    method Get() returns (item: HandlerList)
      requires Valid()
      modifies this
      ensures Valid()
      ensures |old(stack)| > 0 ==> item == old(stack)[|old(stack)| - 1] && stack == old(stack)[..|old(stack)| - 1]
      ensures |old(stack)| == 0 ==> fresh(item) && stack == []
      ensures item.items == [] && item !in stack
    {
      if |stack| > 0 {
        item := stack[|stack| - 1];
        stack := stack[..|stack| - 1];
      } else {
        item := new HandlerList();
      }
    }

    /** Reset (clear) the list, then push it. */
    method Release(item: HandlerList)
      requires Valid() && item !in stack
      modifies this, item
      ensures Valid()
      ensures item.items == [] && stack == old(stack) + [item]
    {
      item.items := [];
      stack := stack + [item];
    }
  }

  /** The registry's two dictionaries, the closure counter and the list pool. */
  class EventRegistry {
    var handlers: map<EventId, seq<Entry>>
    var owners: map<ObjId, seq<EventId>>
    /** Closures are fresh objects: the next identity AddListener hands out is never in use. */
    var nextClosure: ObjId
    const listPool: HandlerListPool

    /**
     * No event id maps to an empty list; every stored wrapper comes from
     * AddListener (a fresh closure around a user handler); and every owned entry
     * is recorded under its owner.
     */
    ghost predicate Valid()
      reads this, listPool, set l | l in listPool.stack
    {
      listPool.Valid() && Tables()
    }

    /** The two dictionaries' invariant: see Valid. */
    ghost predicate Tables()
      reads this
    {
      && (forall e :: e in handlers ==> |handlers[e]| > 0)
      && (forall e, x :: e in handlers && x in handlers[e] ==>
            x.wrapper.closure < nextClosure && x.wrapper.handler.methodRef.UserMethod?)
      && (forall e, x :: e in handlers && x in handlers[e] && x.owner.Some? ==>
            x.owner.value in owners && e in owners[x.owner.value])
    }

    constructor ()
      ensures Valid() && handlers == map[] && owners == map[]
    {
      handlers := map[];
      owners := map[];
      nextClosure := 0;
      listPool := new HandlerListPool();
    }

    /** The listeners registered for an event (none for an unknown id). */
    function Listeners(e: EventId): (s: seq<Entry>)
      reads this
      ensures e !in handlers ==> s == []
      ensures e in handlers ==> s == handlers[e]
    {
      if e in handlers then handlers[e] else []
    }

    /**
     * AddListener: a null handler changes nothing; otherwise a fresh wrapper is
     * appended to the event's list (created when absent) and, for a non-null
     * owner, the event id is appended to the owner's list (duplicates allowed).
     */
    method AddListener(handler: Option<Delegate>, e: EventId, owner: Option<ObjId>)
      requires Valid() && (handler.Some? ==> handler.value.methodRef.UserMethod?)
      modifies this
      ensures Valid()
      ensures handler.None? ==> unchanged(this)
      ensures handler.Some? ==>
                && handlers == old(handlers)[e := old(Listeners(e)) + [Entry(Wrapper(old(nextClosure), handler.value), owner)]]
                && nextClosure == old(nextClosure) + 1
      ensures handler.Some? && owner.Some? ==>
                owners == old(owners)[owner.value := (if owner.value in old(owners) then old(owners)[owner.value] else []) + [e]]
      ensures handler.None? || owner.None? ==> owners == old(owners)
    {
      if handler == None {
        return;
      }
      var wrapper := Wrapper(nextClosure, handler.value);
      nextClosure := nextClosure + 1;
      var list := if e in handlers then handlers[e] else [];
      handlers := handlers[e := list + [Entry(wrapper, owner)]];
      if owner.Some? {
        var events := if owner.value in owners then owners[owner.value] else [];
        owners := owners[owner.value := events + [e]];
      }
    }

    /**
     * The backwards loop of RemoveListener: delete, from the last index to the
     * first, every entry whose stored wrapper `drop` selects.
     */
    static method RemoveMatching(list: seq<Entry>, drop: Entry -> bool) returns (kept: seq<Entry>)
      ensures kept == Filter(list, drop)
    {
      kept := list;
      // k entries are still to be decided: the source's index i is k - 1
      var k := |list|;
      assert kept == list[..k] + Filter(list[k..], drop) by {
        assert list[..k] == list && list[k..] == [];
      }
      while k > 0
        invariant 0 <= k <= |list|
        invariant kept == list[..k] + Filter(list[k..], drop)
      {
        kept := RemoveStep(list, kept, k - 1, drop);
        k := k - 1;
      }
      assert kept == Filter(list, drop) by {
        assert list[..0] == [] && list[0..] == list;
      }
    }

    /** The body of the backwards loop: RemoveAt(i) when `drop` selects entry i. */
    static method RemoveStep(list: seq<Entry>, kept: seq<Entry>, i: nat, drop: Entry -> bool) returns (kept': seq<Entry>)
      requires i < |list| && kept == list[..i + 1] + Filter(list[i + 1..], drop)
      ensures kept' == list[..i] + Filter(list[i..], drop)
    {
      StepBack(list, kept, i, drop);
      kept' := kept;
      if drop(kept[i]) {
        kept' := kept[..i] + kept[i + 1..];
      }
    }

    /** One turn of the backwards loop: deciding index i extends the filtered suffix by one. */
    static lemma StepBack(list: seq<Entry>, kept: seq<Entry>, i: nat, drop: Entry -> bool)
      requires i < |list| && kept == list[..i + 1] + Filter(list[i + 1..], drop)
      ensures kept[i] == list[i]
      ensures drop(list[i]) ==> kept[..i] + kept[i + 1..] == list[..i] + Filter(list[i..], drop)
      ensures !drop(list[i]) ==> kept == list[..i] + Filter(list[i..], drop)
    {
      var rest := Filter(list[i + 1..], drop);
      assert list[i..][1..] == list[i + 1..];
      assert list[..i + 1] == list[..i] + [list[i]];
      SplitAround(list[..i], list[i], rest, kept);
      if drop(list[i]) {
        assert Filter(list[i..], drop) == [] + rest == rest;
      } else {
        assert Filter(list[i..], drop) == [list[i]] + rest;
      }
    }

    /** Cutting out the element between two known parts leaves those parts. */
    static lemma SplitAround(front: seq<Entry>, x: Entry, back: seq<Entry>, s: seq<Entry>)
      requires s == front + [x] + back
      ensures s[|front|] == x
      ensures s[..|front|] + s[|front| + 1..] == front + back
      ensures s == front + ([x] + back)
    {
      assert s[..|front|] == front;
      assert s[|front| + 1..] == back;
    }

    /** Replace the event's list by what `drop` leaves, dropping the key when that is nothing. */
    method RemoveWhere(e: EventId, drop: Entry -> bool)
      requires Tables() && e in handlers
      modifies this
      ensures Tables()
      ensures var kept := Filter(old(handlers)[e], drop);
              handlers == if |kept| == 0 then old(handlers) - {e} else old(handlers)[e := kept]
      ensures owners == old(owners) && nextClosure == old(nextClosure)
    {
      var kept := RemoveMatching(handlers[e], drop);
      if |kept| == 0 {
        handlers := handlers - {e};
      } else {
        handlers := handlers[e := kept];
      }
    }

    /**
     * RemoveListener as the source writes it: the comparison is against the
     * STORED delegate, which is the wrapper closure and not the handler it wraps,
     * so no entry ever matches and the registry is left as it was.
     */
    method RemoveListenerAsWritten(handler: Option<Delegate>, e: EventId)
      requires Valid() && (handler.Some? ==> handler.value.methodRef.UserMethod?)
      modifies this
      ensures Valid()
      ensures handlers == old(handlers) && owners == old(owners) && nextClosure == old(nextClosure)
    {
      if handler == None {
        return;
      }
      if e !in handlers {
        return;
      }
      WrapperNeverMatches(handlers[e], handler.value);
      RemoveWhere(e, WrapperIs(handler.value));
    }

    /** RemoveListener as intended: delete the entries whose wrapped handler has the given Target and Method. */
    method RemoveListener(handler: Option<Delegate>, e: EventId)
      requires Valid()
      modifies this
      ensures Valid()
      ensures handler.None? || e !in old(handlers) ==> handlers == old(handlers)
      ensures handler.Some? && e in old(handlers) ==>
                var kept := Filter(old(handlers)[e], HandlerIs(handler.value));
                handlers == if |kept| == 0 then old(handlers) - {e} else old(handlers)[e := kept]
      ensures owners == old(owners) && nextClosure == old(nextClosure)
    {
      if handler == None {
        return;
      }
      if e !in handlers {
        return;
      }
      RemoveWhere(e, HandlerIs(handler.value));
    }

    /**
     * RemoveAllListeners: when the event is registered, drop its list and the
     * first occurrence of its id from every owner's list; otherwise nothing.
     */
    method RemoveAllListeners(e: EventId)
      requires Valid()
      modifies this
      ensures Valid()
      ensures e !in old(handlers) ==> handlers == old(handlers) && owners == old(owners)
      ensures e in old(handlers) ==> handlers == old(handlers) - {e}
      ensures e in old(handlers) ==> owners.Keys == old(owners).Keys
      ensures e in old(handlers) ==> forall o :: o in owners ==> owners[o] == RemoveFirst(old(owners)[o], e)
      ensures nextClosure == old(nextClosure)
    {
      if e in handlers {
        handlers := handlers - {e};
        var updated := DropFromOwners(owners, e);
        OwnersAfterRemoveAll(e, updated);
        owners := updated;
      }
    }

    /** The foreach over _owners.Values: each owner's list loses its first occurrence of e. */
    static method DropFromOwners(owners0: map<ObjId, seq<EventId>>, e: EventId) returns (updated: map<ObjId, seq<EventId>>)
      ensures updated.Keys == owners0.Keys
      ensures forall o :: o in owners0 ==> updated[o] == RemoveFirst(owners0[o], e)
    {
      var todo := owners0.Keys;
      updated := owners0;
      while todo != {}
        invariant todo <= owners0.Keys && updated.Keys == owners0.Keys
        invariant forall o :: o in owners0 ==> updated[o] == if o in todo then owners0[o] else RemoveFirst(owners0[o], e)
        decreases todo
      {
        var o :| o in todo;
        updated := updated[o := RemoveFirst(updated[o], e)];
        todo := todo - {o};
      }
    }

    /**
     * RemoveOwnerListeners: for a known owner, every event it registered for
     * loses that owner's entries (an event left with none is dropped), then the
     * owner's record goes. A null or unknown owner changes nothing.
     */
    method RemoveOwnerListeners(owner: Option<ObjId>)
      requires Valid()
      modifies this
      ensures Valid()
      ensures owner.None? || owner.value !in old(owners) ==> handlers == old(handlers) && owners == old(owners)
      ensures owner.Some? && owner.value in old(owners) ==> owners == old(owners) - {owner.value}
      ensures owner.Some? && owner.value in old(owners) ==>
                forall e :: e in old(handlers) ==>
                  && (e in handlers <==> |Filter(old(handlers)[e], OwnedBy(owner.value))| > 0)
                  && (e in handlers ==> handlers[e] == Filter(old(handlers)[e], OwnedBy(owner.value)))
      ensures handlers.Keys <= old(handlers).Keys
      ensures owner.Some? ==> forall e, x :: e in handlers && x in handlers[e] ==> x.owner != owner
      ensures nextClosure == old(nextClosure)
    {
      if owner == None {
        return;
      }
      var o := owner.value;
      if o !in owners {
        return;
      }
      UnlistedHaveNoEntriesOf(o);
      StripOwner(o);
      forall e | e in old(handlers)
        ensures e in handlers <==> |Filter(old(handlers)[e], OwnedBy(o))| > 0
        ensures e in handlers ==> handlers[e] == Filter(old(handlers)[e], OwnedBy(o))
      {
        if e in old(owners)[o] {
          StripAllListed(old(handlers), old(owners)[o], o, e);
        } else {
          StripAllUnlisted(old(handlers), old(owners)[o], o, e);
        }
      }
      owners := owners - {o};
    }

    /** The foreach over the owner's event ids: each listed event loses the owner's entries. */
    method StripOwner(o: ObjId)
      requires Tables() && o in owners
      modifies this
      ensures Tables() && owners == old(owners) && nextClosure == old(nextClosure)
      ensures handlers == StripAll(old(handlers), old(owners)[o], o)
    {
      var eventIds := owners[o];
      var j := 0;
      while j < |eventIds|
        invariant 0 <= j <= |eventIds|
        invariant Tables() && owners == old(owners) && nextClosure == old(nextClosure)
        invariant handlers == StripAll(old(handlers), eventIds[..j], o)
      {
        var id := eventIds[j];
        assert eventIds[..j + 1][..j] == eventIds[..j];
        if id in handlers {
          RemoveWhere(id, OwnedBy(o));
        }
        j := j + 1;
      }
      assert eventIds[..j] == eventIds;
    }

    /** An event missing from an owner's list holds no entry of that owner. */
    lemma UnlistedHaveNoEntriesOf(o: ObjId)
      requires Tables() && o in owners
      ensures forall e :: e in handlers && e !in owners[o] ==> Filter(handlers[e], OwnedBy(o)) == handlers[e]
    {
    }

    /**
     * GetHandlers: borrow a list from the pool and copy into it the stored
     * handlers of the event, in registration order (none for an unknown event).
     */
    method GetHandlers(e: EventId) returns (result: HandlerList)
      requires Valid()
      modifies listPool, set l | l in listPool.stack
      ensures Valid() && result !in listPool.stack
      ensures |old(listPool.stack)| > 0 ==>
                result == old(listPool.stack)[|old(listPool.stack)| - 1] && listPool.stack == old(listPool.stack)[..|old(listPool.stack)| - 1]
      ensures |old(listPool.stack)| == 0 ==> fresh(result) && listPool.stack == []
      ensures result.items == StoredWrappers(Listeners(e))
      ensures handlers == old(handlers) && owners == old(owners) && nextClosure == old(nextClosure)
    {
      result := listPool.Get();
      ghost var pooled := listPool.stack;
      if e in handlers {
        var hs := handlers[e];
        var k := 0;
        while k < |hs|
          invariant 0 <= k <= |hs|
          invariant result.items == StoredWrappers(hs[..k])
          invariant Valid() && result !in listPool.stack && listPool.stack == pooled
        {
          assert hs[..k + 1] == hs[..k] + [hs[k]];
          result.items := result.items + [hs[k].wrapper];
          k := k + 1;
        }
        assert hs[..k] == hs;
      }
    }

    /**
     * PublishNow: invoke every handler GetHandlers returned, in order; a handler
     * that throws is logged and the next one still runs; the list goes back to
     * the pool. `fails` says which handlers throw; what the handlers themselves
     * do is not modelled, so the registry is unchanged.
     */
    method PublishNow(e: EventId, fails: Wrapper -> bool) returns (invoked: seq<Wrapper>, logged: nat)
      requires Valid()
      modifies listPool, set l | l in listPool.stack
      ensures Valid()
      ensures invoked == StoredWrappers(Listeners(e))
      ensures logged == Failures(invoked, fails)
      ensures handlers == old(handlers) && owners == old(owners) && nextClosure == old(nextClosure)
      ensures |old(listPool.stack)| > 0 ==> listPool.stack == old(listPool.stack)
      ensures |old(listPool.stack)| == 0 ==> |listPool.stack| == 1 && fresh(listPool.stack[0])
      ensures forall l :: l in listPool.stack ==> l.items == []
    {
      var handlersToInvoke := GetHandlers(e);
      invoked, logged := InvokeAll(handlersToInvoke.items, fails);
      listPool.Release(handlersToInvoke);
      assert |old(listPool.stack)| > 0 ==>
               old(listPool.stack) == old(listPool.stack)[..|old(listPool.stack)| - 1] + [old(listPool.stack)[|old(listPool.stack)| - 1]];
    }

    /** The foreach over the borrowed list: each handler is invoked in turn and each failure is logged once. */
    static method InvokeAll(items: seq<Wrapper>, fails: Wrapper -> bool) returns (invoked: seq<Wrapper>, logged: nat)
      ensures invoked == items
      ensures logged == Failures(items, fails)
    {
      invoked := [];
      logged := 0;
      var k := 0;
      while k < |items|
        invariant 0 <= k <= |items|
        invariant invoked == items[..k]
        invariant logged == Failures(invoked, fails)
      {
        var handler := items[k];
        assert items[..k + 1] == invoked + [handler];
        invoked := invoked + [handler];
        if fails(handler) {
          logged := logged + 1;
        }
        k := k + 1;
      }
      assert invoked == items;
    }

    /** Removing one occurrence of e from owner lists keeps every other event id listed. */
    lemma OwnersAfterRemoveAll(e: EventId, updated: map<ObjId, seq<EventId>>)
      requires updated.Keys == owners.Keys
      requires forall o :: o in owners ==> updated[o] == RemoveFirst(owners[o], e)
      ensures forall o, e' :: o in owners && e' in owners[o] && e' != e ==> e' in updated[o]
    {
      forall o, e' | o in owners && e' in owners[o] && e' != e ensures e' in updated[o] {
        assert e' in multiset(owners[o]);
        assert e' in multiset(updated[o]);
      }
    }
  }
}
