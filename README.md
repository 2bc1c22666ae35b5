# decorrelate, modelled in Dafny

`decorrelate` defers the work of a decorator until the program asks for it.
A decorator calls `get_proxy(func, callback, category)`. That call returns a
`Proxy` standing in for `func` and records the proxy in a process-wide
`Registry` under a category label. Until activation the proxy behaves as `func`
does: calls, attribute lookup and `repr` all go to it. `activates(category)`
then walks the pending proxies, either all of them or those of one category.
For each proxy it stores `callback(current callable)` as the new callable and
copies that callable's metadata onto the proxy. Then it clears what it walked
from the registry.

The model has four modules, one per file:

- `Wrappers` (`wrappers.dfy`): the `Option` type.
- `Callables` (`callables.dfy`): plain Python callables as values. A callable
  has a name, a docstring, its own `__dict__`, a `repr` and a behaviour on
  argument lists. `Lookup` is `getattr` on such a function. A callback maps a
  callable to a replacement or to a raised error.
- `Categories` (`categories.dfy`): the registry's dictionary as a value. It
  holds the category labels in insertion order (the order a Python dict
  iterates in) and a slot per label. A slot is `Open(list)` or `Sealed`. This
  file also has the functions for iteration (`Entries`), counting (`Count`),
  the activation scope (`Scope`), registration (`Register`) and clearing
  (`Clear`), with the lemmas relating them.
- `Decorrelate` (`decorrelate.dfy`): the source's two classes and two
  operations.
  - `Proxy` is a class, because activation overwrites its `_callable` and
    copied metadata in place.
  - `Registry` is a class whose fields are the dictionary's keys and the
    dictionary.
  - `GetProxy` and `Activates` are methods that change them. Each is proved
    against the `Categories` functions.

`Sealed` stands for the empty tuple that `activates(category=c)` stores under
`c` (`decorrelate/__init__.py:79`). A tuple has no `append`. So a later
`get_proxy` under `c` raises; the model returns `Err(AppendToSealed(c))`
instead, with the registry unchanged. Iterating a sealed slot yields nothing.

A callback either returns the replacement callable or raises. If a callback
raises, `Activates` stops there and reports `Interrupted(index, error)`. The
proxies before that index have been swapped, and the one that raised and those
after it have not. The registry is cleared only inside the loop, after each
successful swap. With no category, the first success already replaced the
dictionary with `{}`, so the proxies after a failure are no longer pending.
With a category, that category's slot is already sealed. One might expect the
entries at and after the failure to stay pending. The code does not keep them,
and this model follows the code.

The generator in `activates` iterates the dictionary object it started with.
With no category, `registry._registered = {}` binds a new dictionary, and the
walk carries on over the old one. With a category, assigning an existing key
leaves the walk in place. The model therefore computes the whole scope before
the loop (`Activates`) and then walks that snapshot (`ActivateEach`).

## Model

| member | source | states |
|---|---|---|
| Categories.Table.Entries | decorrelate/__init__.py:13-14 | every item the iteration yields is pending in some category's list |
| Categories.Table.Scope | decorrelate/__init__.py:69-72 | every proxy activation walks is pending in some category's list |
| Categories.EntriesCount | decorrelate/__init__.py:10-14 | the iteration yields exactly as many items as the categories' lists hold together |
| Categories.ScopeAllIsEntries | decorrelate/__init__.py:69-72 | with no category, activation walks exactly what iteration yields, in the same order (category insertion order, then list order) |
| Categories.ScopeOfCategory | decorrelate/__init__.py:69-72 | with category `c`, activation walks exactly `c`'s list in order, and nothing when `c` is not a key |
| Categories.ScopeWithinEntries | decorrelate/__init__.py:69-72 | any scope takes each entry at most as often as iteration yields it |
| Categories.EntriesAfterNewKey | decorrelate/__init__.py:61-62 | a category created by registration comes last in the iteration, after every existing category's entries |
| Categories.EntriesAfterUpdate | decorrelate/__init__.py:63 | replacing one category's list changes the iteration's multiset by exactly the old and new lists |
| Categories.Table.Register | decorrelate/__init__.py:61-63 | registering fails exactly when the category is sealed; otherwise the item is appended at the end of the category's list (an absent category starts empty and becomes the last key), every other category keeps its slot (its list, or its sealed state), and the table stays well formed |
| Categories.RegisterAddsOne | decorrelate/__init__.py:57-64 | a registration adds exactly the new item to the pending multiset and raises the count by one, whatever the category |
| Categories.RegisterKeepsDistinct | decorrelate/__init__.py:57-64 | registering an item not yet pending keeps every pending item pending exactly once |
| Categories.Table.Clear | decorrelate/__init__.py:76-79 | with no category the dictionary becomes empty; with category `c`, `c` becomes sealed with no entries, every other category keeps its slot and an existing key keeps its place; well-formedness is kept |
| Categories.ClearRemovesScope | decorrelate/__init__.py:76-79 | clearing removes exactly the entries that were in scope, and the count drops by the scope's size |
| Categories.ClearedCategoryRejects | decorrelate/__init__.py:79 | after `c` is cleared, registering under `c` fails with `AppendToSealed(c)`; any other category accepts a registration exactly when it did before |
| Decorrelate.Proxy.constructor | decorrelate/__init__.py:59-60 | the new proxy holds `func` and the callback, and its `__name__`, `__doc__` and `__wrapped__` are those of `func` |
| Decorrelate.Proxy.Dict | decorrelate/__init__.py:31-35 | `__dict__` has the current callable's keys plus `_callable` and `_callback`; those two hold the proxy's callable and callback even when the callable's own dictionary has the same keys; every other key maps to the callable's value |
| Decorrelate.Proxy.GetAttr | decorrelate/__init__.py:37-38 | `_callable` and `_callback` answer with the proxy's own fields; while the copied metadata is current, `__wrapped__` is the current callable and every other attribute is what `getattr` on the current callable answers, absent exactly when it is absent there |
| Decorrelate.Proxy.Call | decorrelate/__init__.py:28-29 | calling the proxy runs its current callable; that this is `func` before activation and the callback's replacement after it is stated by `Mirrors` through `SyncedMirrorsCurrent`, `GetProxy`'s `Mirrors(func)` and `Activates`' `Transformed` |
| Decorrelate.Proxy.Repr | decorrelate/__init__.py:40-41 | `repr(proxy)` is that of the current callable; carried by `Mirrors` through `SyncedMirrorsCurrent` and `GetProxy`'s `Mirrors(func)` |
| Decorrelate.Proxy.SyncedMirrorsCurrent | decorrelate/__init__.py:28-41 | a proxy whose copied metadata is current is indistinguishable from its callable: the same result for every call, the same `repr` and the same answer for every attribute the proxy does not own |
| Decorrelate.Proxy.Swap | decorrelate/__init__.py:74-75 | after a swap the proxy forwards to the replacement and its copied metadata is the replacement's |
| Decorrelate.Registry.constructor | decorrelate/__init__.py:7-8 | a new registry has an empty dictionary and is consistent |
| Decorrelate.Registry.Iter | decorrelate/__init__.py:13-14 | the iteration has one item per pending entry, and every category's list appears in it |
| Categories.AtWithinEntries | decorrelate/__init__.py:13-14 | a listed category's entries all occur in the iteration |
| Decorrelate.Registry.Len | decorrelate/__init__.py:10-11 | `len(registry)` is the sum of the lengths of the categories' lists |
| Decorrelate.GetProxy | decorrelate/__init__.py:57-64 | a sealed category yields `AppendToSealed` and leaves the registry as it was; otherwise the result is a fresh proxy indistinguishable from `func`, the registry is exactly the old one with that proxy appended under the category, the count rises by one, and no proxy is pending twice |
| Decorrelate.Activates | decorrelate/__init__.py:67-79 | the proxies in scope are walked in snapshot order; each proxy before the first failing callback now forwards to what its callback returned, and the rest are untouched; the registry is unchanged if nothing succeeded and cleared otherwise; an empty scope is a no-op; on completion nothing is left in scope and the count dropped by the scope's size, to 0 with no category; only the registry and the proxies in scope can change |
| Decorrelate.ActivateEach | decorrelate/__init__.py:73-79 | the loop over the snapshot: proxies before the stopping index are transformed, the rest untouched, and the registry is cleared as soon as one swap succeeded |
| Decorrelate.ScopeDistinct | decorrelate/__init__.py:69-72 | the snapshot never holds the same proxy twice, so each is activated at most once |
| Decorrelate.ClearSettles | decorrelate/__init__.py:76-79 | after clearing, the registry is consistent, a second activation of the same scope finds nothing, and the count dropped by the scope's size |

## Left out

- `singleton` and `get_registry` (`decorrelate/__init__.py:44-54`): the process-wide registry is an explicit `Registry` object passed to `GetProxy` and `Activates`. With one object passed everywhere, "the same instance every time" holds trivially.
- `functools.wraps` beyond `__name__`, `__doc__` and `__wrapped__`: `__module__`, `__qualname__` and `__annotations__` are not modelled.
  - The `__dict__` merge that `wraps` performs is not modelled either. It updates the throwaway copy that the `__dict__` property returns, so it has no effect.
- Decorrelate.Proxy.GetAttr: attributes that the `Proxy` class itself defines (`__class__`, `__call__`, `__init__` and the like) are not modelled. Python finds these before the `__getattr__` fallback.
- Calling with `*args, **kwargs`: a callable's behaviour is a function from an argument record to a returned value or a raised error. Attribute values are limited to None, strings, integers and booleans.
- Callbacks with side effects: a callback is a pure function of the callable it receives.
  - A callback that mutates the original function object in place is therefore not modelled. The package's tests do this (`callable.wrapped = True; return callable`). The model represents that callback by the replacement it returns.
  - Callbacks that call back into the registry during activation are not modelled either.
- Non-string categories, and `None` passed to `get_proxy` as a category: categories are strings.
- Concurrency: the package is single-threaded and has no locking.
- The separate `decorelate` package, whose tests exercise `register`/`start`: its implementation is not part of this model.
