/**
 * The registry's dictionary as a value: category labels in insertion order
 * (the order a Python dict iterates in) and, for each label, its slot.
 * Iteration, counting, registration and clearing are functions here; the
 * Registry class holds one such table in its fields.
 */
module Categories {
  import opened Wrappers

  /** `get_proxy` fails when the category's slot holds the empty tuple, which has no `append`. */
  datatype Error = AppendToSealed(category: string)

  datatype Result<T> = Ok(value: T) | Err(error: Error)

  /**
   * A category's slot: the list of pending entries, or the empty tuple that
   * category activation stores in place of that list.
   */
  datatype Slot<T> = Open(pending: seq<T>) | Sealed {
    function Items(): seq<T> {
      if Open? then pending else []
    }
  }

  ghost predicate Unique(keys: seq<string>) {
    forall i, j :: 0 <= i < j < |keys| ==> keys[i] != keys[j]
  }

  /** No element occurs twice. */
  ghost predicate Distinct<T>(s: seq<T>) {
    forall x | x in multiset(s) :: multiset(s)[x] == 1
  }

  datatype Table<T> = Table(keys: seq<string>, slots: map<string, Slot<T>>) {

    /** The labels listed are exactly the dictionary's keys, each once. */
    ghost predicate WellFormed() {
      Unique(keys) && forall k :: k in slots <==> k in keys
    }

    /** The entries pending under one category; none for an absent or sealed one. */
    function At(category: string): seq<T> {
      if category in slots then slots[category].Items() else []
    }

    predicate IsSealed(category: string) {
      category in slots && slots[category].Sealed?
    }

    /** What `Registry.__iter__` yields: every category in insertion order, each list in order. */
    function Entries(): (r: seq<T>)
      ensures forall x | x in r :: exists k | k in slots :: x in slots[k].Items()
      decreases |keys|
    {
      if keys == [] then [] else At(keys[0]) + Table(keys[1..], slots).Entries()
    }

    /** The sum of the lengths of the categories' lists. */
    function Count(): nat
      decreases |keys|
    {
      if keys == [] then 0 else |At(keys[0])| + Table(keys[1..], slots).Count()
    }

    /**
     * What the generator in `activates` yields: the entries of every category
     * whose key matches, or of all categories when no category is given.
     */
    function Scope(category: Option<string>): (r: seq<T>)
      ensures forall x | x in r :: exists k | k in slots :: x in slots[k].Items()
      decreases |keys|
    {
      if keys == [] then []
      else
        (if category.None? || category == Some(keys[0]) then At(keys[0]) else [])
        + Table(keys[1..], slots).Scope(category)
    }

    /**
     * `get_proxy`'s update: create an empty list for an absent category, then
     * append; appending to a sealed slot fails.
     */
    function Register(category: string, x: T): (r: Result<Table<T>>)
      ensures r.Err? <==> IsSealed(category)
      ensures r.Err? ==> r.error == AppendToSealed(category)
      ensures r.Ok? ==> r.value.At(category) == At(category) + [x]
      ensures r.Ok? ==> forall k :: k != category ==> r.value.At(k) == At(k)
      ensures r.Ok? ==> forall k :: k != category && k in slots ==> k in r.value.slots && r.value.slots[k] == slots[k]
      ensures r.Ok? ==> r.value.keys == if category in slots then keys else keys + [category]
      ensures r.Ok? && WellFormed() ==> r.value.WellFormed()
    {
      if category in slots && slots[category].Sealed? then
        Err(AppendToSealed(category))
      else
        var list := if category in slots then slots[category].pending else [];
        var keys' := if category in slots then keys else keys + [category];
        Ok(Table(keys', slots[category := Open(list + [x])]))
    }

    /**
     * The clearing step of `activates`: reset the whole dictionary, or store
     * the empty tuple under the one category (a dict assignment, which keeps
     * an existing key in place).
     */
    function Clear(category: Option<string>): (r: Table<T>)
      ensures category.None? ==> r.keys == [] && r.slots == map[] && r.Entries() == []
      ensures category.Some? ==> r.IsSealed(category.value) && r.At(category.value) == []
      ensures category.Some? ==> forall k :: k != category.value ==> r.At(k) == At(k)
      ensures category.Some? ==> forall k :: k != category.value && k in slots ==> k in r.slots && r.slots[k] == slots[k]
      ensures category.Some? && category.value in slots ==> r.keys == keys
      ensures WellFormed() ==> r.WellFormed()
    {
      match category
      case None => Table([], map[])
      case Some(c) => Table(if c in slots then keys else keys + [c], slots[c := Sealed])
    }
  }

  /** `len(registry)` counts by iterating: the iteration has one item per pending entry. */
  lemma {:induction false} EntriesCount<T>(t: Table<T>)
    ensures |t.Entries()| == t.Count()
    decreases |t.keys|
  {
    if t.keys != [] {
      EntriesCount(Table(t.keys[1..], t.slots));
    }
  }

  /** A listed category's entries all occur in the iteration. */
  lemma {:induction false} AtWithinEntries<T>(t: Table<T>, k: string)
    ensures k in t.keys ==> multiset(t.At(k)) <= multiset(t.Entries())
    decreases |t.keys|
  {
    if t.keys != [] {
      AtWithinEntries(Table(t.keys[1..], t.slots), k);
    }
  }

  /** Activation without a category walks exactly what iteration yields, in the same order. */
  lemma {:induction false} ScopeAllIsEntries<T>(t: Table<T>)
    ensures t.Scope(None) == t.Entries()
    decreases |t.keys|
  {
    if t.keys != [] {
      ScopeAllIsEntries(Table(t.keys[1..], t.slots));
    }
  }

  /** Activation of one category walks exactly that category's list, in order. */
  lemma {:induction false} ScopeOfCategory<T>(t: Table<T>, c: string)
    requires Unique(t.keys)
    ensures t.Scope(Some(c)) == if c in t.keys then t.At(c) else []
    decreases |t.keys|
  {
    if t.keys != [] {
      var rest := Table(t.keys[1..], t.slots);
      assert t.keys == [t.keys[0]] + rest.keys;
      UniqueTail(t.keys);
      ScopeOfCategory(rest, c);
    }
  }

  /** Whatever the scope, it takes each entry at most as often as iteration yields it. */
  lemma {:induction false} ScopeWithinEntries<T>(t: Table<T>, category: Option<string>)
    ensures multiset(t.Scope(category)) <= multiset(t.Entries())
    decreases |t.keys|
  {
    if t.keys != [] {
      ScopeWithinEntries(Table(t.keys[1..], t.slots), category);
    }
  }

  /** Giving a slot to a label that is not listed changes no listed category's entries. */
  lemma {:induction false} EntriesIgnoreUnlisted<T>(t: Table<T>, c: string, s: Slot<T>)
    requires c !in t.keys
    ensures Table(t.keys, t.slots[c := s]).Entries() == t.Entries()
    decreases |t.keys|
  {
    if t.keys != [] {
      assert t.keys[0] != c;
      EntriesIgnoreUnlisted(Table(t.keys[1..], t.slots), c, s);
    }
  }

  /** A new key goes last: its entries come after every other category's. */
  lemma {:induction false} EntriesAfterNewKey<T>(t: Table<T>, c: string, s: Slot<T>)
    requires c !in t.keys
    ensures Table(t.keys + [c], t.slots[c := s]).Entries() == t.Entries() + s.Items()
    decreases |t.keys|
  {
    var u := Table(t.keys + [c], t.slots[c := s]);
    if t.keys == [] {
      assert u.keys[1..] == [];
    } else {
      assert t.keys[0] != c;
      assert u.keys[1..] == t.keys[1..] + [c];
      EntriesAfterNewKey(Table(t.keys[1..], t.slots), c, s);
    }
  }

  /** Replacing one listed category's slot swaps that category's entries and keeps the rest. */
  lemma {:induction false} EntriesAfterUpdate<T>(t: Table<T>, c: string, s: Slot<T>)
    requires Unique(t.keys) && c in t.keys
    ensures multiset(Table(t.keys, t.slots[c := s]).Entries()) + multiset(t.At(c))
            == multiset(t.Entries()) + multiset(s.Items())
    decreases |t.keys|
  {
    var k := t.keys[0];
    var rest := Table(t.keys[1..], t.slots);
    var uRest := Table(t.keys[1..], t.slots[c := s]);
    UniqueTail(t.keys);
    if k == c {
      EntriesIgnoreUnlisted(rest, c, s);
    } else {
      assert c in rest.keys by {
        assert t.keys == [k] + rest.keys;
      }
      EntriesAfterUpdate(rest, c, s);
      assert Table(t.keys, t.slots[c := s]).Entries() == t.At(k) + uRest.Entries();
      calc {
        multiset(Table(t.keys, t.slots[c := s]).Entries()) + multiset(t.At(c));
        multiset(t.At(k)) + (multiset(uRest.Entries()) + multiset(rest.At(c)));
        multiset(t.At(k)) + (multiset(rest.Entries()) + multiset(s.Items()));
        multiset(t.Entries()) + multiset(s.Items());
      }
    }
  }

  /** Dropping the first label leaves the others unique, and the first is not among them. */
  lemma UniqueTail(keys: seq<string>)
    requires Unique(keys) && keys != []
    ensures Unique(keys[1..]) && keys[0] !in keys[1..]
  {
    forall i, j | 0 <= i < j < |keys[1..]| ensures keys[1..][i] != keys[1..][j] {
      assert keys[1..][i] == keys[i + 1] && keys[1..][j] == keys[j + 1];
    }
    forall j | 0 <= j < |keys[1..]| ensures keys[1..][j] != keys[0] {
      assert keys[1..][j] == keys[j + 1];
    }
  }

  /** Registration adds exactly the one new entry, whatever the category, and the count by one. */
  lemma RegisterAddsOne<T>(t: Table<T>, c: string, x: T)
    requires t.WellFormed() && t.Register(c, x).Ok?
    ensures multiset(t.Register(c, x).value.Entries()) == multiset(t.Entries()) + multiset{x}
    ensures t.Register(c, x).value.Count() == t.Count() + 1
  {
    var r := t.Register(c, x).value;
    var slot := Open(t.At(c) + [x]);
    assert multiset(r.Entries()) == multiset(t.Entries()) + multiset{x} by {
      if c in t.slots {
        assert r == Table(t.keys, t.slots[c := slot]);
        EntriesAfterUpdate(t, c, slot);
        assert multiset(slot.Items()) == multiset(t.At(c)) + multiset{x};
        CancelCommon(multiset(r.Entries()), multiset(t.Entries()), multiset(t.At(c)), multiset(slot.Items()), x);
      } else {
        assert r == Table(t.keys + [c], t.slots[c := slot]);
        EntriesAfterNewKey(t, c, slot);
        assert slot.Items() == [x];
      }
    }
    assert r.Count() == t.Count() + 1 by {
      EntriesCount(t);
      EntriesCount(r);
      GrowsByOne(r.Entries(), t.Entries(), x);
    }
  }

  /** Registering an entry that is not yet pending keeps every entry pending once. */
  lemma RegisterKeepsDistinct<T>(t: Table<T>, c: string, x: T)
    requires t.WellFormed() && Distinct(t.Entries()) && x !in t.Entries() && t.Register(c, x).Ok?
    ensures Distinct(t.Register(c, x).value.Entries())
  {
    var e := t.Register(c, x).value.Entries();
    RegisterAddsOne(t, c, x);
    assert multiset(t.Entries())[x] == 0;
    forall y | y in multiset(e) ensures multiset(e)[y] == 1 {
      if y != x {
        assert y in multiset(t.Entries());
      }
    }
  }

  /** Taking the same items away from both sides of a multiset equation. */
  lemma CancelCommon<T>(a: multiset<T>, b: multiset<T>, m: multiset<T>, s: multiset<T>, x: T)
    requires a + m == b + s && s == m + multiset{x}
    ensures a == b + multiset{x}
  {
    forall y ensures a[y] == (b + multiset{x})[y] {
      assert (a + m)[y] == (b + s)[y];
    }
  }

  /** A sequence holding one more item than another, by multiset, is one longer. */
  lemma GrowsByOne<T>(longer: seq<T>, shorter: seq<T>, x: T)
    requires multiset(longer) == multiset(shorter) + multiset{x}
    ensures |longer| == |shorter| + 1
  {
    assert |multiset(longer)| == |multiset(shorter)| + 1;
  }

  /**
   * Clearing after activation removes exactly the entries in scope: all of them
   * without a category, that category's list with one; the count drops by as many.
   */
  lemma ClearRemovesScope<T>(t: Table<T>, category: Option<string>)
    requires t.WellFormed()
    ensures multiset(t.Clear(category).Entries()) + multiset(t.Scope(category)) == multiset(t.Entries())
    ensures t.Clear(category).Count() == t.Count() - |t.Scope(category)|
  {
    match category {
      case None =>
        ScopeAllIsEntries(t);
      case Some(c) =>
        ScopeOfCategory(t, c);
        if c in t.keys {
          EntriesAfterUpdate(t, c, Sealed);
        } else {
          EntriesAfterNewKey(t, c, Sealed);
        }
    }
    EntriesCount(t);
    EntriesCount(t.Clear(category));
  }

  /**
   * Once a category has been cleared, registering under it fails; every other
   * category accepts a registration exactly when it did before.
   */
  lemma ClearedCategoryRejects<T>(t: Table<T>, c: string, k: string, x: T)
    ensures t.Clear(Some(c)).Register(c, x) == Err(AppendToSealed(c))
    ensures k != c ==> (t.Clear(Some(c)).Register(k, x).Ok? <==> t.Register(k, x).Ok?)
  {
  }

  /** Two positions of a sequence without repeats hold different elements. */
  lemma DistinctAt<T>(s: seq<T>, i: int, j: int)
    requires Distinct(s) && 0 <= i < j < |s|
    ensures s[i] != s[j]
  {
    assert s == s[..j] + s[j..];
    assert s[i] in multiset(s[..j]);
    assert s[j..][0] == s[j];
    assert s[j] in multiset(s[j..]);
    assert multiset(s)[s[i]] == multiset(s[..j])[s[i]] + multiset(s[j..])[s[i]];
  }
}
