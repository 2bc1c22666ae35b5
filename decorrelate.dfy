/**
 * Deferred decoration: `GetProxy` registers a proxy for a function under a
 * category, and `Activates` later replaces each pending proxy's callable with
 * what its callback makes of it, then clears the registry.
 */
module Decorrelate {
  import opened Wrappers
  import opened Callables
  import opened Categories

  /** The two bookkeeping attributes a proxy keeps in its own dictionary. */
  const CallableKey := "_callable"
  const CallbackKey := "_callback"

  /** The attribute `functools.wraps` points at the function it copied from. */
  const WrappedKey := "__wrapped__"

  /** The attributes a proxy answers itself whatever its callable holds. */
  predicate ProxyOwn(attribute: string) {
    attribute == CallableKey || attribute == CallbackKey || attribute == WrappedKey
  }

  /** The category `GetProxy` uses when the caller names none. */
  const DefaultCategory := "default"

  /** A value seen through a proxy's `__dict__` or attribute lookup. */
  datatype DictValue =
    | Plain(attr: Attr)
    | CurrentCallable(callable: Callable)
    | PendingCallback(callback: Callback)

  function AsDictValue(v: Option<Attr>): Option<DictValue> {
    if v.Some? then Some(Plain(v.value)) else None
  }

  /**
   * A stand-in for a decorated function. Its identity never changes; the
   * callable it forwards to is replaced once, at activation.
   */
  class Proxy {
    var callable: Callable
    const callback: Callback
    /** `__name__`, `__doc__` and `__wrapped__`, set on the proxy by `functools.wraps`. */
    var name: string
    var doc: Attr
    var wrapped: Callable

    /** `Proxy(func, callback)` followed by `functools.wraps(func)`. */
    constructor (func: Callable, callback: Callback)
      ensures this.callable == func && this.callback == callback
      ensures Synced()
    {
      this.callable := func;
      this.callback := callback;
      this.name := func.name;
      this.doc := func.doc;
      this.wrapped := func;
    }

    /** The copied metadata is that of the current callable. */
    ghost predicate Synced()
      reads this
    {
      name == callable.name && doc == callable.doc && wrapped == callable
    }

    /** Calling the proxy calls the current callable: same value, same raised error. */
    function Call(args: Args): Outcome
      reads this
    {
      callable.code(args)
    }

    /**
     * The `__dict__` property: the current callable's attributes with the two
     * bookkeeping entries laid over them.
     */
    function Dict(): (d: map<string, DictValue>)
      reads this
      ensures d.Keys == callable.attrs.Keys + {CallableKey, CallbackKey}
      ensures d[CallableKey] == CurrentCallable(callable)
      ensures d[CallbackKey] == PendingCallback(callback)
      ensures forall k :: k in callable.attrs && k != CallableKey && k != CallbackKey ==>
                d[k] == Plain(callable.attrs[k])
    {
      var own := map k | k in callable.attrs :: Plain(callable.attrs[k]);
      own[CallableKey := CurrentCallable(callable)][CallbackKey := PendingCallback(callback)]
    }

    /**
     * Attribute lookup: the proxy's own entries (bookkeeping, copied name and
     * docstring) first, then whatever the current callable answers.
     */
    function GetAttr(attribute: string): (v: Option<DictValue>)
      reads this
      ensures attribute == CallableKey ==> v == Some(CurrentCallable(callable))
      ensures attribute == CallbackKey ==> v == Some(PendingCallback(callback))
      ensures Synced() && attribute == WrappedKey ==> v == Some(CurrentCallable(callable))
      ensures Synced() && !ProxyOwn(attribute) ==> v == AsDictValue(Lookup(callable, attribute))
    {
      if attribute == CallableKey then Some(CurrentCallable(callable))
      else if attribute == CallbackKey then Some(PendingCallback(callback))
      else if attribute == WrappedKey then Some(CurrentCallable(wrapped))
      else if attribute == NameKey then Some(Plain(Text(name)))
      else if attribute == DocKey then Some(Plain(doc))
      else AsDictValue(Lookup(callable, attribute))
    }

    /** `repr(proxy)` is the current callable's representation. */
    function Repr(): string
      reads this
    {
      callable.repr
    }

    /**
     * Seen from outside, the proxy is `c`: same calls, same representation,
     * same answer to every attribute except the proxy's own, and `__wrapped__`
     * pointing at `c`.
     */
    ghost predicate Mirrors(c: Callable)
      reads this
    {
      && (forall args :: Call(args) == c.code(args))
      && Repr() == c.repr
      && GetAttr(WrappedKey) == Some(CurrentCallable(c))
      && (forall a :: !ProxyOwn(a) ==> GetAttr(a) == AsDictValue(Lookup(c, a)))
    }

    /** A proxy whose copied metadata is current looks exactly like its current callable. */
    lemma SyncedMirrorsCurrent()
      requires Synced()
      ensures Mirrors(callable)
    {
    }

    /**
     * One activation step on this proxy: store the callback's result and copy
     * its metadata with `functools.wraps`.
     */
    method Swap(replacement: Callable)
      modifies this
      ensures callable == replacement && Synced()
    {
      callable := replacement;
      name := replacement.name;
      doc := replacement.doc;
      wrapped := replacement;
    }
  }

  /** The process-wide registry: pending proxies grouped by category. */
  class Registry {
    /** The dictionary's keys in insertion order, and the dictionary itself. */
    var keys: seq<string>
    var registered: map<string, Slot<Proxy>>

    ghost function State(): Table<Proxy>
      reads this
    {
      Table(keys, registered)
    }

    /** Keys and dictionary agree, and no proxy is pending twice. */
    ghost predicate Valid()
      reads this
    {
      State().WellFormed() && Distinct(State().Entries())
    }

    constructor ()
      ensures Valid() && keys == [] && registered == map[]
    {
      keys := [];
      registered := map[];
    }

    /** `__iter__`: every pending proxy, category by category in insertion order. */
    function Iter(): (s: seq<Proxy>)
      reads this
      ensures |s| == State().Count()
      ensures forall k | k in keys :: multiset(State().At(k)) <= multiset(s)
    {
      var t := Table(keys, registered);
      EntriesCount(t);
      assert forall k | k in keys :: multiset(t.At(k)) <= multiset(t.Entries()) by {
        forall k | k in keys ensures multiset(t.At(k)) <= multiset(t.Entries()) {
          AtWithinEntries(t, k);
        }
      }
      t.Entries()
    }

    /** `__len__`: the length of the iteration, which is the sum of the categories' lengths. */
    function Len(): (n: nat)
      reads this
      ensures n == State().Count()
    {
      |Iter()|
    }
  }

  /**
   * `get_proxy`: build a proxy for `func`, append it to its category's list
   * (creating the list if needed) and return it. A category sealed by an
   * earlier category activation holds the empty tuple, and the append fails.
   */
  method GetProxy(registry: Registry, func: Callable, callback: Callback, category: string := DefaultCategory)
    returns (r: Result<Proxy>)
    requires registry.Valid()
    modifies registry
    ensures registry.Valid()
    ensures r.Err? <==> old(registry.State()).IsSealed(category)
    ensures r.Err? ==> r.error == AppendToSealed(category) && registry.State() == old(registry.State())
    ensures r.Ok? ==> fresh(r.value)
    ensures r.Ok? ==> r.value.callable == func && r.value.callback == callback && r.value.Synced()
    ensures r.Ok? ==> r.value.Mirrors(func)
    ensures r.Ok? ==> old(registry.State()).Register(category, r.value) == Ok(registry.State())
    ensures r.Ok? ==> registry.Len() == old(registry.Len()) + 1
  {
    var proxy := new Proxy(func, callback);
    proxy.SyncedMirrorsCurrent();
    if category in registry.registered && registry.registered[category].Sealed? {
      return Err(AppendToSealed(category));
    }
    ghost var before := registry.State();
    assert proxy !in before.Entries();
    if category !in registry.registered {
      registry.keys := registry.keys + [category];
      registry.registered := registry.registered[category := Open([])];
    }
    registry.registered := registry.registered[category := Open(registry.registered[category].pending + [proxy])];
    assert before.Register(category, proxy) == Ok(registry.State()) by {
      assert registry.registered == before.slots[category := Open(before.At(category) + [proxy])];
    }
    RegisterAddsOne(before, category, proxy);
    RegisterKeepsDistinct(before, category, proxy);
    r := Ok(proxy);
  }

  /** Between two states, the proxy's callable became what its callback made of the old one. */
  twostate predicate Transformed(p: Proxy)
    reads p
  {
    old(p.callback(p.callable)) == Replaced(p.callable) && p.Synced()
  }

  /** Between two states, the proxy's callable and copied metadata stayed as they were. */
  twostate predicate Untouched(p: Proxy)
    reads p
  {
    p.callable == old(p.callable) && p.name == old(p.name) && p.doc == old(p.doc) && p.wrapped == old(p.wrapped)
  }

  /** How an activation ended: every proxy in scope done, or a callback raised at one of them. */
  datatype Activation = Completed | Interrupted(index: nat, error: string) {
    /** How many proxies of a scope of `total` were swapped. */
    function Swapped(total: nat): nat {
      if Completed? then total else index
    }
  }

  /**
   * `activates`: snapshot the proxies in scope (all, or one category's), and
   * for each in turn store what its callback returns; after each success the
   * registry is reset (no category) or the category's slot is sealed. A
   * callback that raises stops the loop with the proxies before it swapped.
   */
  method Activates(registry: Registry, category: Option<string> := None) returns (a: Activation)
    requires registry.Valid()
    modifies registry, set p | p in registry.State().Scope(category)
    ensures registry.Valid()
    ensures var scope := old(registry.State().Scope(category));
      forall j :: 0 <= j < |scope| ==> old(allocated(scope[j]))
    ensures var scope := old(registry.State().Scope(category));
      && (a.Interrupted? ==>
            a.index < |scope| && old(scope[a.index].callback(scope[a.index].callable)) == Failed(a.error))
      && (forall j :: 0 <= j < a.Swapped(|scope|) ==> Transformed(scope[j]))
      && (forall j :: a.Swapped(|scope|) <= j < |scope| ==> Untouched(scope[j]))
      && registry.State() == if a.Swapped(|scope|) == 0 then old(registry.State()) else old(registry.State()).Clear(category)
    ensures old(registry.State().Scope(category)) == [] ==> a.Completed? && registry.State() == old(registry.State())
    ensures a.Completed? ==> registry.State().Scope(category) == []
    ensures a.Completed? ==> registry.Len() == old(registry.Len()) - |old(registry.State().Scope(category))|
    ensures a.Completed? && category.None? ==> registry.Len() == 0
  {
    ghost var before := registry.State();
    var scope := Table(registry.keys, registry.registered).Scope(category);
    ScopeDistinct(before, category);
    assert category.Some? && scope != [] ==> category.value in before.slots by {
      if category.Some? {
        ScopeOfCategory(before, category.value);
      }
    }
    forall j | 0 <= j < |scope| ensures allocated(scope[j]) {
      assert scope[j] in scope;
      var k :| k in registry.registered && scope[j] in registry.registered[k].Items();
      assert scope[j] in registry.registered[k].pending;
    }
    a := ActivateEach(registry, scope, category);
    ClearSettles(before, category);
    if category.None? {
      ScopeAllIsEntries(before);
      EntriesCount(before);
    }
  }

  /**
   * The loop of `activates` over the snapshot `scope`: for each proxy in turn
   * store what its callback returns, copy its metadata, and clear the
   * registry's scope; a callback that raises ends the loop there.
   */
  method ActivateEach(registry: Registry, scope: seq<Proxy>, category: Option<string>) returns (a: Activation)
    requires forall i, j :: 0 <= i < j < |scope| ==> scope[i] != scope[j]
    requires category.Some? && scope != [] ==> category.value in registry.registered
    modifies registry, set p | p in scope
    ensures a.Interrupted? ==>
              a.index < |scope| && old(scope[a.index].callback(scope[a.index].callable)) == Failed(a.error)
    ensures forall j :: 0 <= j < a.Swapped(|scope|) ==> Transformed(scope[j])
    ensures forall j :: a.Swapped(|scope|) <= j < |scope| ==> Untouched(scope[j])
    ensures registry.State() == if a.Swapped(|scope|) == 0 then old(registry.State()) else old(registry.State()).Clear(category)
  {
    ghost var cleared := registry.State().Clear(category);
    var i := 0;
    while i < |scope|
      invariant 0 <= i <= |scope|
      invariant i == 0 ==> registry.State() == old(registry.State())
      invariant i > 0 ==> registry.State() == cleared
      invariant forall j :: 0 <= j < i ==> Transformed(scope[j])
      invariant forall j :: i <= j < |scope| ==> Untouched(scope[j])
    {
      var proxy := scope[i];
      var outcome := proxy.callback(proxy.callable);
      if outcome.Failed? {
        return Interrupted(i, outcome.error);
      }
      proxy.Swap(outcome.callable);
      match category {
        case None =>
          registry.keys := [];
          registry.registered := map[];
        case Some(c) =>
          registry.registered := registry.registered[c := Sealed];
      }
      i := i + 1;
    }
    return Completed;
  }

  /** The proxies in any scope are pairwise distinct when the registry's are. */
  lemma ScopeDistinct(t: Table<Proxy>, category: Option<string>)
    requires Distinct(t.Entries())
    ensures forall i, j :: 0 <= i < j < |t.Scope(category)| ==> t.Scope(category)[i] != t.Scope(category)[j]
  {
    var scope := t.Scope(category);
    ScopeWithinEntries(t, category);
    assert Distinct(scope);
    forall i, j | 0 <= i < j < |scope| ensures scope[i] != scope[j] {
      DistinctAt(scope, i, j);
    }
  }

  /**
   * After the clearing step the registry is still consistent, nothing in the
   * activated scope is pending any more, and the count dropped by the scope's size.
   */
  lemma ClearSettles(t: Table<Proxy>, category: Option<string>)
    requires t.WellFormed() && Distinct(t.Entries())
    ensures t.Clear(category).WellFormed() && Distinct(t.Clear(category).Entries())
    ensures t.Clear(category).Scope(category) == []
    ensures t.Clear(category).Count() == t.Count() - |t.Scope(category)|
  {
    var after := t.Clear(category);
    ClearRemovesScope(t, category);
    forall x | x in multiset(after.Entries()) ensures multiset(after.Entries())[x] == 1 {
      assert multiset(after.Entries())[x] + multiset(t.Scope(category))[x] == multiset(t.Entries())[x];
    }
    if category.Some? {
      ScopeOfCategory(after, category.value);
    }
  }
}
