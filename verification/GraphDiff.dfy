/** Incremental graph update: the displayed arrays of node and link objects are diffed against new
    data and changed in place, so that surviving objects keep their identity and extra fields. */
module GraphDiff {
  import opened Prelude

  /** An object shown by the renderer. `key` is its id, or for a link its end points. */
  class Item {
    const key: string
    var fields: map<string, string>

    constructor (key: string, fields: map<string, string>)
      ensures this.key == key && this.fields == fields
    {
      this.key := key;
      this.fields := fields;
    }
  }

  /** One element of the new data. */
  datatype Entry = Entry(key: string, fields: map<string, string>)

  // ------------------------------------------------------------ keys of the new data

  /** The keys of a JavaScript `Map` built from the entries: each once, by first appearance. */
  function Keys(es: seq<Entry>): (ks: seq<string>)
    ensures forall i, j | 0 <= i < j < |ks| :: ks[i] != ks[j]
  {
    if es == [] then []
    else
      var ks, k := Keys(es[..|es| - 1]), es[|es| - 1].key;
      if k in ks then ks else ks + [k]
  }

  lemma {:induction false} KeysMember(es: seq<Entry>, k: string)
    ensures k in Keys(es) <==> exists i :: 0 <= i < |es| && es[i].key == k
  {
    if es != [] {
      var init := es[..|es| - 1];
      KeysMember(init, k);
      if k in Keys(init) {
        var i :| 0 <= i < |init| && init[i].key == k;
        assert es[i].key == k;
      }
    }
  }

  /** A key comes in at its first entry and keeps that place. */
  lemma KeysAppend(es: seq<Entry>, e: Entry)
    ensures Keys(es + [e]) == if exists i :: 0 <= i < |es| && es[i].key == e.key then Keys(es) else Keys(es) + [e.key]
  {
    assert (es + [e])[..|es|] == es;
    KeysMember(es, e.key);
  }

  /** The value such a `Map` holds for a key: that of the last entry. */
  function Last(es: seq<Entry>, k: string): map<string, string>
    requires k in Keys(es)
  {
    if es[|es| - 1].key == k then es[|es| - 1].fields else Last(es[..|es| - 1], k)
  }

  function Without(ks: seq<string>, have: set<string>): (r: seq<string>)
    ensures forall k :: k in r <==> k in ks && k !in have
    ensures (forall i, j | 0 <= i < j < |ks| :: ks[i] != ks[j]) ==> (forall i, j | 0 <= i < j < |r| :: r[i] != r[j])
  {
    if ks == [] then []
    else
      var r, k := Without(ks[..|ks| - 1], have), ks[|ks| - 1];
      if k in have then r else r + [k]
  }

  lemma WithoutUnfold(ks: seq<string>, k: string, have: set<string>)
    ensures Without(ks + [k], have) == if k in have then Without(ks, have) else Without(ks, have) + [k]
    ensures Without([], have) == []
  {
    assert (ks + [k])[..|ks|] == ks;
  }

  /** The new keys keep their order. */
  lemma {:induction false} WithoutKeepsOrder(a: seq<string>, b: seq<string>, have: set<string>)
    ensures Without(a + b, have) == Without(a, have) + Without(b, have)
  {
    hide Without;
    if b == [] {
      WithoutUnfold([], "", have);
      assert a + b == a;
    } else {
      var init, k := b[..|b| - 1], b[|b| - 1];
      WithoutKeepsOrder(a, init, have);
      WithoutUnfold(a + init, k, have);
      WithoutUnfold(init, k, have);
      assert a + b == a + init + [k] && b == init + [k];
    }
  }

  // ------------------------------------------------------------ arrays of items

  function KeysOf(items: seq<Item>): (ks: seq<string>)
    ensures |ks| == |items| && forall i | 0 <= i < |items| :: ks[i] == items[i].key
  {
    seq(|items|, i requires 0 <= i < |items| => items[i].key)
  }

  predicate DuplicateFree(items: seq<Item>) {
    forall i, j | 0 <= i < j < |items| :: items[i].key != items[j].key
  }

  /** The items whose key is kept, in their order. */
  function Survivors(items: seq<Item>, keep: seq<string>): (r: seq<Item>)
    ensures forall i | 0 <= i < |r| :: r[i] in items && r[i].key in keep
    ensures forall i | 0 <= i < |items| && items[i].key in keep :: items[i] in r
  {
    if items == [] then []
    else
      var r, x := Survivors(items[..|items| - 1], keep), items[|items| - 1];
      if x.key in keep then r + [x] else r
  }

  lemma {:induction false} SurvivorsConcat(a: seq<Item>, b: seq<Item>, keep: seq<string>)
    ensures Survivors(a + b, keep) == Survivors(a, keep) + Survivors(b, keep)
  {
    if b == [] {
      assert a + b == a;
    } else {
      assert (a + b)[..|a + b| - 1] == a + b[..|b| - 1];
      SurvivorsConcat(a, b[..|b| - 1], keep);
    }
  }

  lemma SurvivorsStep(items: seq<Item>, i: nat, keep: seq<string>)
    requires i < |items|
    ensures Survivors(items[i..], keep) == (if items[i].key in keep then [items[i]] else []) + Survivors(items[i + 1..], keep)
  {
    assert items[i..] == [items[i]] + items[i + 1..];
    SurvivorsOfOne(items[i], keep);
    hide Survivors;
    SurvivorsConcat([items[i]], items[i + 1..], keep);
  }

  lemma SurvivorsOfOne(x: Item, keep: seq<string>)
    ensures Survivors([x], keep) == if x.key in keep then [x] else []
  {
    assert [x][..0] == [];
  }

  lemma {:induction false} AllSurvive(items: seq<Item>, keep: seq<string>)
    requires forall i | 0 <= i < |items| :: items[i].key in keep
    ensures Survivors(items, keep) == items
  {
    if items != [] {
      AllSurvive(items[..|items| - 1], keep);
    }
  }

  /** Each element holds its entry's fields, and the keys are exactly the entries' keys. */
  ghost predicate Shows(shown: seq<Entry>, es: seq<Entry>) {
    && (forall k :: k in Keys(es) <==> exists i :: 0 <= i < |shown| && shown[i].key == k)
    && (forall i | 0 <= i < |shown| && shown[i].key in Keys(es) :: shown[i].fields == shown[i].fields + Last(es, shown[i].key))
  }

  ghost function KeySet(items: seq<Item>): set<string> {
    set k | k in KeysOf(items)
  }

  ghost function Fields(items: seq<Item>): map<Item, map<string, string>>
    reads items
  {
    map x | x in items :: x.fields
  }

  ghost predicate IndexOf(m: map<string, Item>, items: seq<Item>) {
    m.Keys == KeySet(items) && forall k | k in m :: m[k] in items && m[k].key == k
  }

  lemma AddedKeys(ks: seq<string>, i: nat, have: set<string>, added: seq<Item>, more: seq<Item>)
    requires i < |ks| && KeysOf(added) == Without(ks[..i], have)
    requires KeysOf(more) == if ks[i] in have then [] else [ks[i]]
    ensures KeysOf(added + more) == Without(ks[..i + 1], have)
  {
    WithoutNext(ks, i, have);
    hide Without;
    assert KeysOf(added + more) == KeysOf(added) + KeysOf(more);
  }

  /** The array's contents as values. */
  ghost function Snapshot(items: seq<Item>): (r: seq<Entry>)
    reads items
    ensures |r| == |items| && forall i | 0 <= i < |items| :: r[i] == Entry(items[i].key, items[i].fields)
  {
    seq(|items|, i requires 0 <= i < |items| reads items => Entry(items[i].key, items[i].fields))
  }

  /** The items whose key is among the first `i` have been brought up to date from `orig`. */
  ghost predicate Updated(es: seq<Entry>, i: nat, before: seq<Item>, orig: map<Item, map<string, string>>)
    reads before
  {
    && i <= |Keys(es)|
    && forall x | x in before :: x in orig && x.fields == if x.key in Keys(es)[..i] then orig[x] + Last(es, x.key) else orig[x]
  }

  ghost predicate Copies(es: seq<Entry>, added: seq<Item>)
    reads added
  {
    forall x | x in added :: x.key in Keys(es) && x.fields == Last(es, x.key)
  }

  lemma NothingUpdated(es: seq<Entry>, before: seq<Item>)
    ensures Updated(es, 0, before, Fields(before))
  {
  }

  lemma KeysOfMember(items: seq<Item>, x: Item)
    requires x in items
    ensures x.key in KeysOf(items)
  {
    var i :| 0 <= i < |items| && items[i] == x;
    assert KeysOf(items)[i] == x.key;
  }

  lemma UpdatedSkips(es: seq<Entry>, i: nat, before: seq<Item>, orig: map<Item, map<string, string>>)
    requires Updated(es, i, before, orig) && i < |Keys(es)| && Keys(es)[i] !in KeySet(before)
    ensures Updated(es, i + 1, before, orig)
  {
    hide Keys, Last;
    forall x | x in before
      ensures x.key in Keys(es)[..i + 1] <==> x.key in Keys(es)[..i]
    {
      KeysOfMember(before, x);
      assert Keys(es)[..i + 1] == Keys(es)[..i] + [Keys(es)[i]];
    }
  }

  /** Only `item` has the key at position `i`. */
  lemma UpdatedOthers(es: seq<Entry>, i: nat, before: seq<Item>, orig: map<Item, map<string, string>>, item: Item)
    requires DuplicateFree(before) && item in before && i < |Keys(es)| && item.key == Keys(es)[i]
    requires Updated(es, i, before, orig)
    ensures item in orig && item.fields == orig[item]
    ensures forall x | x in before && x != item ::
              x in orig && x.fields == if x.key in Keys(es)[..i + 1] then orig[x] + Last(es, x.key) else orig[x]
    ensures item.key in Keys(es)[..i + 1]
  {
    hide Keys, Last;
    var ks := Keys(es);
    assert ks[..i + 1] == ks[..i] + [ks[i]];
    assert ks[i] !in ks[..i];
    forall x | x in before && x != item
      ensures x.key != item.key
    {
      var m, n :| 0 <= m < |before| && before[m] == x && 0 <= n < |before| && before[n] == item;
      assert m < n || n < m;
    }
  }

  lemma CopiesMore(es: seq<Entry>, added: seq<Item>, item: Item)
    requires Copies(es, added) && item.key in Keys(es) && item.fields == Last(es, item.key)
    ensures Copies(es, added + [item])
  {
    hide Keys, Last;
  }

  lemma WithoutNext(ks: seq<string>, i: nat, have: set<string>)
    requires i < |ks|
    ensures Without(ks[..i + 1], have) == Without(ks[..i], have) + if ks[i] in have then [] else [ks[i]]
  {
    assert ks[..i + 1][..i] == ks[..i];
  }

  class ItemArray {
    var items: seq<Item>

    constructor ()
      ensures items == []
    {
      items := [];
    }

    /** `new Map(items.map(x => [x.key, x]))`. */
    method Index() returns (m: map<string, Item>)
      ensures IndexOf(m, items)
    {
      m := map[];
      for i := 0 to |items|
        invariant forall k :: k in m <==> exists j :: 0 <= j < i && items[j].key == k
        invariant forall k | k in m :: m[k] in items && m[k].key == k
      {
        m := m[items[i].key := items[i]];
      }
      forall k
        ensures k in m <==> k in KeySet(items)
      {
        if k in KeysOf(items) {
          var j :| 0 <= j < |items| && KeysOf(items)[j] == k;
        }
      }
    }

    method Push(id: string, entry: map<string, string>) returns (item: Item)
      modifies this
      ensures fresh(item) && item.key == id && item.fields == entry
      ensures items == old(items) + [item]
    {
      item := new Item(id, entry);
      items := items + [item];
    }

    /** The first loop's body for the key at position `i`. */
    method AddOrUpdateNext(es: seq<Entry>, i: nat, current: map<string, Item>, ghost before: seq<Item>, ghost added: seq<Item>,
                           ghost orig: map<Item, map<string, string>>)
      returns (ghost more: seq<Item>)
      requires i < |Keys(es)| && items == before + added && DuplicateFree(before)
      requires Updated(es, i, before, orig) && Copies(es, added) && (forall x | x in added :: x !in before)
      requires IndexOf(current, before)
      modifies this, before
      ensures items == before + (added + more) && fresh(more)
      ensures more == [] <==> Keys(es)[i] in KeySet(before)
      ensures KeysOf(more) == if Keys(es)[i] in KeySet(before) then [] else [Keys(es)[i]]
      ensures Updated(es, i + 1, before, orig) && Copies(es, added + more)
    {
      hide Updated, Copies, Without, Keys, DuplicateFree;
      var id := Keys(es)[i];
      if id !in current {
        UpdatedSkips(es, i, before, orig);
        var item := Push(id, Last(es, id));
        CopiesMore(es, added, item);
        more := [item];
      } else {
        UpdateItem(es, i, current[id], before, added, orig);
        more := [];
        assert added + more == added;
      }
    }

    /** First half of the diff: update the items that stay, append copies of the entries that are
        new, in the order of their keys. */
    method AddOrUpdate(es: seq<Entry>) returns (ghost added: seq<Item>)
      requires DuplicateFree(items)
      modifies this, items
      ensures items == old(items) + added && fresh(added)
      ensures KeysOf(added) == Without(Keys(es), KeySet(old(items))) && Copies(es, added)
      ensures Updated(es, |Keys(es)|, old(items), old(Fields(items)))
    {
      var current := Index();
      ghost var before, orig := items, Fields(items);
      added := [];
      var ks := Keys(es);
      NothingUpdated(es, before);
      assert KeysOf(added) == Without(ks[..0], KeySet(before)) && Copies(es, added);
      hide Updated, Copies, Without, Keys, DuplicateFree, KeySet, KeysOf, IndexOf, Fields;
      for i := 0 to |ks|
        invariant items == before + added && fresh(added)
        invariant KeysOf(added) == Without(ks[..i], KeySet(before)) && Copies(es, added)
        invariant Updated(es, i, before, orig)
      {
        ghost var more := AddOrUpdateNext(es, i, current, before, added, orig);
        AddedKeys(ks, i, KeySet(before), added, more);
        added := added + more;
      }
      assert ks[..|ks|] == ks;
    }

    /** Second half of the diff: splice out, from the end, the items whose key is gone. */
    method RemoveMissing(keep: seq<string>)
      modifies this`items
      ensures items == Survivors(old(items), keep)
    {
      ghost var before := items;
      var i := |items|;
      assert items == before[..i] + Survivors(before[i..], keep);
      hide Survivors;
      while i > 0
        invariant 0 <= i <= |before|
        invariant items == before[..i] + Survivors(before[i..], keep)
      {
        i := i - 1;
        SurvivorsStep(before, i, keep);
        SpliceOut(before, i, Survivors(before[i + 1..], keep));
        if items[i].key !in keep {
          items := items[..i] + items[i + 1..];
        }
      }
      assert before[0..] == before;
    }

    /** The whole diff. Surviving objects keep their identity and order, copies of new entries
        follow; each item agrees with the last entry of its key and keeps its extra fields. */
    method Reconcile(es: seq<Entry>) returns (ghost added: seq<Item>)
      requires DuplicateFree(items)
      modifies this, items
      ensures items == Survivors(old(items), Keys(es)) + added && fresh(added)
      ensures KeysOf(added) == Without(Keys(es), KeySet(old(items)))
      ensures forall x | x in old(items) :: x.fields == if x.key in Keys(es) then old(x.fields) + Last(es, x.key) else old(x.fields)
      ensures Copies(es, added)
      ensures DuplicateFree(items) && Shows(Snapshot(items), es)
      ensures old(Shows(Snapshot(items), es)) ==> items == old(items) && forall x | x in items :: x.fields == old(x.fields)
    {
      hide Keys, Last, Survivors, Shows, KeySet, Without, Copies, Updated, DuplicateFree;
      ghost var before, orig := items, Fields(items);
      ghost var shown := Shows(Snapshot(items), es);
      if shown {
        ShownIsUpdated(items, es);
        ShownKeys(items, es);
      }
      added := AddOrUpdate(es);
      SurvivorsConcat(before, added, Keys(es));
      AddedSurvive(es, added);
      RemoveMissing(Keys(es));
      assert items == Survivors(before, Keys(es)) + added;
      AllUpdated(es, before, orig);
      KeysAfter(es, before, added);
      ShowsAfter(es, before, added, orig);
      if shown {
        NothingToDo(es, before, added);
        assert items == before;
      }
    }
  }

  lemma SpliceOut(before: seq<Item>, i: nat, rest: seq<Item>)
    requires i < |before|
    ensures var items := before[..i + 1] + rest;
            && items[i] == before[i]
            && items == before[..i] + ([before[i]] + rest)
            && items[..i] + items[i + 1..] == before[..i] + rest
  {
  }

  lemma AddedSurvive(es: seq<Entry>, added: seq<Item>)
    requires Copies(es, added)
    ensures Survivors(added, Keys(es)) == added
  {
    AllSurvive(added, Keys(es));
  }

  lemma AllUpdated(es: seq<Entry>, before: seq<Item>, orig: map<Item, map<string, string>>)
    requires Updated(es, |Keys(es)|, before, orig)
    ensures forall x | x in before :: x in orig && x.fields == if x.key in Keys(es) then orig[x] + Last(es, x.key) else orig[x]
  {
    hide Keys, Last;
    assert Keys(es)[..|Keys(es)|] == Keys(es);
  }

  lemma {:induction false} SurvivorsDuplicateFree(items: seq<Item>, keep: seq<string>)
    requires DuplicateFree(items)
    ensures DuplicateFree(Survivors(items, keep))
  {
    if items != [] {
      var init, x := items[..|items| - 1], items[|items| - 1];
      SurvivorsDuplicateFree(init, keep);
      forall i | 0 <= i < |Survivors(init, keep)|
        ensures Survivors(init, keep)[i].key != x.key
      {
        var y := Survivors(init, keep)[i];
        var j :| 0 <= j < |init| && init[j] == y;
        assert items[j] == y;
      }
    }
  }

  lemma AddedIsNew(es: seq<Entry>, before: seq<Item>, added: seq<Item>, x: Item, y: Item)
    requires KeysOf(added) == Without(Keys(es), KeySet(before)) && x in before && y in added
    ensures x.key != y.key
  {
    hide Keys, Without;
    KeysOfMember(before, x);
    KeysOfMember(added, y);
  }

  lemma AddedDistinct(es: seq<Entry>, before: seq<Item>, added: seq<Item>)
    requires KeysOf(added) == Without(Keys(es), KeySet(before))
    ensures DuplicateFree(added)
  {
    var ks := Without(Keys(es), KeySet(before));
    hide Keys, Without, KeySet;
    assert forall i, j | 0 <= i < j < |ks| :: ks[i] != ks[j];
    assert forall i | 0 <= i < |added| :: ks[i] == added[i].key;
  }

  lemma KeysAreDistinct(es: seq<Entry>, before: seq<Item>, added: seq<Item>)
    requires DuplicateFree(before) && KeysOf(added) == Without(Keys(es), KeySet(before))
    ensures DuplicateFree(Survivors(before, Keys(es)) + added)
  {
    var kept := Survivors(before, Keys(es));
    var items := kept + added;
    SurvivorsDuplicateFree(before, Keys(es));
    AddedDistinct(es, before, added);
    assert forall x | x in kept :: x in before;
    hide Keys, Survivors, Without, KeysOf, KeySet;
    forall i, j | 0 <= i < j < |items|
      ensures items[i].key != items[j].key
    {
      if i < |kept| <= j {
        AddedIsNew(es, before, added, items[i], items[j]);
      }
    }
  }

  lemma KeyStays(es: seq<Entry>, before: seq<Item>, added: seq<Item>, k: string)
    requires KeysOf(added) == Without(Keys(es), KeySet(before)) && k in Keys(es)
    ensures k in KeysOf(Survivors(before, Keys(es)) + added)
  {
    var items := Survivors(before, Keys(es)) + added;
    hide Keys, Survivors, Without;
    if k in KeySet(before) {
      var i :| 0 <= i < |before| && KeysOf(before)[i] == k;
      KeysOfMember(items, before[i]);
    } else {
      var i :| 0 <= i < |added| && KeysOf(added)[i] == k;
      KeysOfMember(items, added[i]);
    }
  }

  lemma KeyIsNew(es: seq<Entry>, before: seq<Item>, added: seq<Item>, k: string)
    requires KeysOf(added) == Without(Keys(es), KeySet(before)) && k in KeysOf(Survivors(before, Keys(es)) + added)
    ensures k in Keys(es)
  {
    var kept := Survivors(before, Keys(es));
    hide Keys, Survivors, Without, KeySet;
    var i :| 0 <= i < |kept + added| && KeysOf(kept + added)[i] == k;
    if i >= |kept| {
      assert KeysOf(added)[i - |kept|] == k;
    } else {
      assert kept[i] == (kept + added)[i];
    }
  }

  /** The keys after the diff: those of the entries, each once. */
  lemma KeysAfter(es: seq<Entry>, before: seq<Item>, added: seq<Item>)
    requires DuplicateFree(before) && KeysOf(added) == Without(Keys(es), KeySet(before))
    ensures DuplicateFree(Survivors(before, Keys(es)) + added)
    ensures forall k :: k in KeysOf(Survivors(before, Keys(es)) + added) <==> k in Keys(es)
  {
    KeysAreDistinct(es, before, added);
    hide Keys, Survivors, Without, KeySet, KeysOf, DuplicateFree;
    forall k
      ensures k in KeysOf(Survivors(before, Keys(es)) + added) <==> k in Keys(es)
    {
      if k in Keys(es) {
        KeyStays(es, before, added, k);
      } else if k in KeysOf(Survivors(before, Keys(es)) + added) {
        KeyIsNew(es, before, added, k);
      }
    }
  }

  lemma ShowsAfter(es: seq<Entry>, before: seq<Item>, added: seq<Item>, orig: map<Item, map<string, string>>)
    requires forall x | x in before :: x in orig && x.fields == if x.key in Keys(es) then orig[x] + Last(es, x.key) else orig[x]
    requires Copies(es, added)
    requires forall k :: k in KeysOf(Survivors(before, Keys(es)) + added) <==> k in Keys(es)
    ensures Shows(Snapshot(Survivors(before, Keys(es)) + added), es)
  {
    hide Keys, Last, Survivors;
    var items := Survivors(before, Keys(es)) + added;
    forall x | x in items && x.key in Keys(es)
      ensures x.fields == x.fields + Last(es, x.key)
    {
      if x !in added {
        assert x.fields == orig[x] + Last(es, x.key);
      }
    }
    forall k
      ensures k in Keys(es) <==> exists i :: 0 <= i < |items| && Snapshot(items)[i].key == k
    {
      if k in KeysOf(items) {
        var i :| 0 <= i < |items| && KeysOf(items)[i] == k;
        assert Snapshot(items)[i].key == k;
      }
      if i :| 0 <= i < |items| && Snapshot(items)[i].key == k {
        assert KeysOf(items)[i] == k;
      }
    }
  }

  lemma ShownKeys(items: seq<Item>, es: seq<Entry>)
    requires Shows(Snapshot(items), es)
    ensures forall k :: k in KeysOf(items) <==> k in Keys(es)
  {
    hide Keys, Last;
    forall k
      ensures k in KeysOf(items) <==> k in Keys(es)
    {
      if k in KeysOf(items) {
        var i :| 0 <= i < |items| && KeysOf(items)[i] == k;
        assert Snapshot(items)[i].key == k;
      }
      if i :| 0 <= i < |items| && Snapshot(items)[i].key == k {
        assert KeysOf(items)[i] == k;
      }
    }
  }

  /** Bringing an array that already shows the entries up to date changes no field. */
  lemma ShownIsUpdated(items: seq<Item>, es: seq<Entry>)
    requires Shows(Snapshot(items), es)
    ensures forall x | x in items :: x.key in Keys(es) && x.fields == x.fields + Last(es, x.key)
  {
    hide Keys, Last;
    ShownKeys(items, es);
    forall x | x in items
      ensures x.key in Keys(es) && x.fields == x.fields + Last(es, x.key)
    {
      KeysOfMember(items, x);
      var i :| 0 <= i < |items| && items[i] == x;
      assert Snapshot(items)[i] == Entry(x.key, x.fields);
    }
  }

  lemma {:induction false} NothingMissing(ks: seq<string>, have: set<string>)
    requires forall k | k in ks :: k in have
    ensures Without(ks, have) == []
  {
    if ks != [] {
      NothingMissing(ks[..|ks| - 1], have);
    }
  }

  /** A list that already shows the entries has nothing to add and nothing to remove. */
  lemma NothingToDo(es: seq<Entry>, before: seq<Item>, added: seq<Item>)
    requires forall k :: k in KeysOf(before) <==> k in Keys(es)
    requires KeysOf(added) == Without(Keys(es), KeySet(before))
    ensures added == [] && Survivors(before, Keys(es)) == before
  {
    hide Keys, Survivors;
    NothingMissing(Keys(es), KeySet(before));
    forall i | 0 <= i < |before|
      ensures before[i].key in Keys(es)
    {
      KeysOfMember(before, before[i]);
    }
    AllSurvive(before, Keys(es));
  }

  // ------------------------------------------------------------ the graph

  /** The template string that keys a link. */
  function LinkKey(source: string, target: string): string {
    source + "->" + target
  }

  /** Links with different end points never share a key, as long as source ids contain no `>`. */
  lemma LinkKeyInjective(s1: string, t1: string, s2: string, t2: string)
    requires '>' !in s1 && '>' !in s2 && LinkKey(s1, t1) == LinkKey(s2, t2)
    ensures s1 == s2 && t1 == t2
  {
    var k := LinkKey(s1, t1);
    assert k[|s1| + 1] == '>' && k[|s2| + 1] == '>';
    assert forall i | 0 <= i < |s1| :: k[i] == s1[i] != '>';
    assert forall i | 0 <= i < |s2| :: k[i] == s2[i] != '>';
    assert |s1| == |s2|;
    assert s1 == k[..|s1|] == k[..|s2|] == s2;
    assert t1 == k[|s1| + 2..] == k[|s2| + 2..] == t2;
  }

  predicate AllIn(s: string, cs: set<char>) {
    forall i | 0 <= i < |s| :: s[i] in cs
  }

  const DIGITS := {'0', '1', '2', '3', '4', '5', '6', '7', '8', '9'}

  const HEX_DIGITS := DIGITS + {'a', 'b', 'c', 'd', 'e', 'f'}

  /** Every id the client gives a node: a Meshtastic node, an interface, a placeholder for an unknown
      hop, or the broker. */
  predicate IsGraphId(s: string) {
    || (|s| > 1 && s[..1] == "!" && AllIn(s[1..], HEX_DIGITS))
    || (|s| > 6 && s[..6] == "iface_" && AllIn(s[6..], DIGITS))
    || (|s| > 7 && s[..7] == "hidden_" && AllIn(s[7..], DIGITS))
    || s == "mqtt_broker"
  }

  lemma TextWithout(s: string, k: nat, cs: set<char>, c: char)
    requires k <= |s| && c !in s[..k] && AllIn(s[k..], cs) && c !in cs
    ensures c !in s
  {
    forall i | 0 <= i < |s|
      ensures s[i] != c
    {
      if i < k {
        assert s[..k][i] == s[i];
      } else {
        assert s[k..][i - k] == s[i];
      }
    }
  }

  lemma GraphIdHasNoArrow(s: string)
    requires IsGraphId(s)
    ensures '>' !in s
  {
    if |s| > 1 && s[..1] == "!" && AllIn(s[1..], HEX_DIGITS) {
      TextWithout(s, 1, HEX_DIGITS, '>');
    } else if |s| > 6 && s[..6] == "iface_" && AllIn(s[6..], DIGITS) {
      TextWithout(s, 6, DIGITS, '>');
    } else if s != "mqtt_broker" {
      TextWithout(s, 7, DIGITS, '>');
    }
  }

  /** So the key of a link determines its two ends in every graph the client builds. */
  lemma LinkKeyIdentifies(s1: string, t1: string, s2: string, t2: string)
    requires IsGraphId(s1) && IsGraphId(s2)
    ensures LinkKey(s1, t1) == LinkKey(s2, t2) <==> s1 == s2 && t1 == t2
  {
    GraphIdHasNoArrow(s1);
    GraphIdHasNoArrow(s2);
    hide IsGraphId, LinkKey;
    if LinkKey(s1, t1) == LinkKey(s2, t2) {
      LinkKeyInjective(s1, t1, s2, t2);
    }
  }

  datatype LinkEntry = LinkEntry(source: string, target: string, fields: map<string, string>)

  /** A link object also holds its end points as fields, which `Object.assign` copies too. */
  function AsEntry(l: LinkEntry): Entry {
    Entry(LinkKey(l.source, l.target), l.fields + map["source" := l.source, "target" := l.target])
  }

  function AsEntries(ls: seq<LinkEntry>): (es: seq<Entry>)
    ensures |es| == |ls| && forall i | 0 <= i < |ls| :: es[i] == AsEntry(ls[i])
  {
    seq(|ls|, i requires 0 <= i < |ls| => AsEntry(ls[i]))
  }

  datatype NodeEntry = NodeEntry(entry: Entry, isMqttBroker: bool)

  /** Broker nodes give way to the interface nodes. */
  function MergedNodes(graph: seq<NodeEntry>, interfaces: seq<Entry>): (r: seq<Entry>)
    ensures forall e :: e in r <==> e in interfaces || exists n :: n in graph && !n.isMqttBroker && n.entry == e
  {
    if graph == [] then interfaces
    else
      var rest := MergedNodes(graph[1..], interfaces);
      if graph[0].isMqttBroker then rest else [graph[0].entry] + rest
  }

  lemma {:induction false} MergedNodesInOrder(a: seq<NodeEntry>, b: seq<NodeEntry>, interfaces: seq<Entry>)
    ensures MergedNodes(a + b, interfaces) == MergedNodes(a, []) + MergedNodes(b, interfaces)
    ensures MergedNodes([], interfaces) == interfaces
    ensures |a| == 1 ==> MergedNodes(a, []) == if a[0].isMqttBroker then [] else [a[0].entry]
  {
    if a == [] {
      assert a + b == b;
    } else {
      assert (a + b)[1..] == a[1..] + b;
      MergedNodesInOrder(a[1..], b, interfaces);
    }
  }

  lemma MergedLinksUnfold(l: LinkEntry, rest: seq<LinkEntry>, ids: seq<string>)
    ensures MergedLinks([l] + rest, ids) == if l.source in ids && l.target in ids then [l] + MergedLinks(rest, ids) else MergedLinks(rest, ids)
    ensures MergedLinks([], ids) == []
  {
    assert ([l] + rest)[1..] == rest;
  }

  lemma {:induction false} MergedLinksInOrder(a: seq<LinkEntry>, b: seq<LinkEntry>, ids: seq<string>)
    ensures MergedLinks(a + b, ids) == MergedLinks(a, ids) + MergedLinks(b, ids)
  {
    hide MergedLinks;
    if a == [] {
      assert a + b == b;
      MergedLinksUnfold(LinkEntry("", "", map[]), [], ids);
    } else {
      var l, rest := a[0], a[1..];
      MergedLinksInOrder(rest, b, ids);
      MergedLinksUnfold(l, rest, ids);
      MergedLinksUnfold(l, rest + b, ids);
      assert a == [l] + rest && a + b == [l] + (rest + b);
    }
  }

  predicate BothEndsIn(l: LinkEntry, ids: seq<string>) {
    l.source in ids && l.target in ids
  }

  /** The links both of whose ends are nodes. */
  function MergedLinks(ls: seq<LinkEntry>, ids: seq<string>): (r: seq<LinkEntry>)
    ensures forall l :: l in r <==> l in ls && BothEndsIn(l, ids)
  {
    if ls == [] then []
    else
      var rest := MergedLinks(ls[1..], ids);
      if BothEndsIn(ls[0], ids) then [ls[0]] + rest else rest
  }

  /** Every displayed link joins two displayed nodes. */
  ghost predicate NoDanglingLink(nodes: seq<Entry>, links: seq<Entry>) {
    forall i | 0 <= i < |links| :: EndShown(nodes, links[i].fields, "source") && EndShown(nodes, links[i].fields, "target")
  }

  ghost predicate EndShown(nodes: seq<Entry>, fields: map<string, string>, end: string) {
    end in fields && exists j :: 0 <= j < |nodes| && nodes[j].key == fields[end]
  }

  /** No later link of the list has the same key. */
  ghost predicate LastOfItsKey(ls: seq<LinkEntry>, i: nat)
    requires i < |ls|
  {
    forall j | i < j < |ls| :: AsEntry(ls[j]).key != AsEntry(ls[i]).key
  }

  lemma {:induction false} LastAt(es: seq<Entry>, k: string, i: nat)
    requires i < |es| && es[i].key == k && forall j | i < j < |es| :: es[j].key != k
    ensures k in Keys(es) && Last(es, k) == es[i].fields
  {
    KeysMember(es, k);
    if i < |es| - 1 {
      LastAt(es[..|es| - 1], k, i);
    }
  }

  lemma {:induction false} LastIsSome(es: seq<Entry>, k: string) returns (i: nat)
    requires k in Keys(es)
    ensures i < |es| && es[i].key == k && forall j | i < j < |es| :: es[j].key != k
  {
    i := |es| - 1;
    if es[i].key != k {
      i := LastIsSome(es[..|es| - 1], k);
    }
  }

  /** A shown link has the ends of the last entry of its key. */
  lemma ShownEnds(nodes: seq<Entry>, ns: seq<Entry>, link: Entry, ls: seq<LinkEntry>, i: nat)
    requires Shows(nodes, ns)
    requires i < |ls| && LastOfItsKey(ls, i) && link.key == AsEntry(ls[i]).key
    requires link.key in Keys(AsEntries(ls)) ==> link.fields == link.fields + Last(AsEntries(ls), link.key)
    ensures EndShown(nodes, link.fields, "source") && EndShown(nodes, link.fields, "target") <==> BothEndsIn(ls[i], Keys(ns))
  {
    hide Keys, Last;
    LastAt(AsEntries(ls), link.key, i);
    var f := AsEntry(ls[i]).fields;
    assert f["source"] == ls[i].source && f["target"] == ls[i].target;
    assert (link.fields + f)["source"] == f["source"] && (link.fields + f)["target"] == f["target"];
  }

  /** Once a diff is done, no displayed link dangles exactly when, for each key, the last new link
      of that key has both ends among the new nodes. */
  lemma NoDanglingLinkIff(nodes: seq<Entry>, ns: seq<Entry>, links: seq<Entry>, ls: seq<LinkEntry>)
    requires Shows(nodes, ns) && Shows(links, AsEntries(ls))
    ensures NoDanglingLink(nodes, links) <==> forall i | 0 <= i < |ls| && LastOfItsKey(ls, i) :: BothEndsIn(ls[i], Keys(ns))
  {
    hide Keys, Last, EndShown, BothEndsIn, AsEntry;
    var es := AsEntries(ls);
    forall m | 0 <= m < |links|
      ensures exists i: nat :: i < |ls| && LastOfItsKey(ls, i) && links[m].key == AsEntry(ls[i]).key
                && (EndShown(nodes, links[m].fields, "source") && EndShown(nodes, links[m].fields, "target") <==> BothEndsIn(ls[i], Keys(ns)))
    {
      var i := LastIsSome(es, links[m].key);
      ShownEnds(nodes, ns, links[m], ls, i);
    }
    forall i: nat | i < |ls| && LastOfItsKey(ls, i)
      ensures exists m: nat :: m < |links|
                && (EndShown(nodes, links[m].fields, "source") && EndShown(nodes, links[m].fields, "target") <==> BothEndsIn(ls[i], Keys(ns)))
    {
      LastAt(es, es[i].key, i);
      var m: nat :| m < |links| && links[m].key == es[i].key;
      ShownEnds(nodes, ns, links[m], ls, i);
    }
  }

  predicate GraphIds(ls: seq<LinkEntry>) {
    forall l | l in ls :: IsGraphId(l.source)
  }

  /** Links of one key have the same ends, so it makes no difference which of them is the last. */
  lemma {:induction false} LastSpeaksForAll(ls: seq<LinkEntry>, ids: seq<string>)
    requires GraphIds(ls)
    ensures (forall i | 0 <= i < |ls| && LastOfItsKey(ls, i) :: BothEndsIn(ls[i], ids)) <==> forall l | l in ls :: BothEndsIn(l, ids)
  {
    hide IsGraphId, LinkKey, BothEndsIn;
    if forall i | 0 <= i < |ls| && LastOfItsKey(ls, i) :: BothEndsIn(ls[i], ids) {
      forall l | l in ls
        ensures BothEndsIn(l, ids)
      {
        var i :| 0 <= i < |ls| && ls[i] == l;
        var j := LastIsSome(AsEntries(ls), AsEntry(l).key) by { KeysMember(AsEntries(ls), AsEntry(l).key); assert AsEntries(ls)[i].key == AsEntry(l).key; }
        assert LastOfItsKey(ls, j);
        assert ls[j] in ls;
        LinkKeyIdentifies(l.source, l.target, ls[j].source, ls[j].target);
        SameEnds(l, ls[j], ids);
      }
    }
  }

  lemma SameEnds(l: LinkEntry, k: LinkEntry, ids: seq<string>)
    requires l.source == k.source && l.target == k.target
    ensures BothEndsIn(l, ids) <==> BothEndsIn(k, ids)
  {
  }

  /** The refresh handler leaves out the filter on links. For a node linked to the broker, which the
      merge drops, every pair of arrays that shows the result holds a dangling link. */
  lemma UnfilteredLinkDangles(nodes: seq<Entry>, links: seq<Entry>)
    requires Shows(nodes, MergedNodes([NodeEntry(Entry("!1", map[]), false), NodeEntry(Entry("mqtt_broker", map[]), true)], []))
    requires Shows(links, AsEntries([LinkEntry("!1", "mqtt_broker", map[])]))
    ensures !NoDanglingLink(nodes, links)
  {
    var graph := [NodeEntry(Entry("!1", map[]), false), NodeEntry(Entry("mqtt_broker", map[]), true)];
    assert graph[1..] == [graph[1]] && graph[1..][1..] == [];
    var ns, ls := MergedNodes(graph, []), [LinkEntry("!1", "mqtt_broker", map[])];
    KeysMember(ns, "mqtt_broker");
    assert !BothEndsIn(ls[0], Keys(ns)) && LastOfItsKey(ls, 0);
    hide Keys, MergedNodes, BothEndsIn, LastOfItsKey, NoDanglingLink, Shows;
    NoDanglingLinkIff(nodes, ns, links, ls);
  }

  // What is displayed, spelled out over the inputs of the component.

  ghost predicate HasKey(shown: seq<Entry>, k: string) {
    exists i :: 0 <= i < |shown| && shown[i].key == k
  }

  /** The displayed nodes are the interfaces and the nodes that are not brokers. */
  ghost predicate ShowsNodes(shown: seq<Entry>, graph: seq<NodeEntry>, interfaces: seq<Entry>) {
    forall k :: HasKey(shown, k) <==> (exists e :: e in interfaces && e.key == k) || exists n :: n in graph && !n.isMqttBroker && n.entry.key == k
  }

  /** The displayed links are those given whose two ends are displayed. */
  ghost predicate ShowsLinks(shown: seq<Entry>, nodes: seq<Entry>, given: seq<LinkEntry>) {
    forall k :: HasKey(shown, k) <==> exists l :: l in given && l.source + "->" + l.target == k && HasKey(nodes, l.source) && HasKey(nodes, l.target)
  }

  lemma ShownKeyIff(shown: seq<Entry>, es: seq<Entry>, k: string)
    requires Shows(shown, es)
    ensures HasKey(shown, k) <==> k in Keys(es)
    ensures k in Keys(es) <==> exists e :: e in es && e.key == k
  {
    KeysMember(es, k);
    if e :| e in es && e.key == k {
      var i :| 0 <= i < |es| && es[i] == e;
    }
    hide Keys, Last;
  }

  lemma NodesSpelledOut(shown: seq<Entry>, graph: seq<NodeEntry>, interfaces: seq<Entry>)
    requires Shows(shown, MergedNodes(graph, interfaces))
    ensures ShowsNodes(shown, graph, interfaces)
  {
    var es := MergedNodes(graph, interfaces);
    assert forall e :: e in es <==> e in interfaces || exists n :: n in graph && !n.isMqttBroker && n.entry == e;
    hide MergedNodes, Shows, Keys, HasKey;
    forall k
      ensures HasKey(shown, k) <==> (exists e :: e in interfaces && e.key == k) || exists n :: n in graph && !n.isMqttBroker && n.entry.key == k
    {
      ShownKeyIff(shown, es, k);
      if HasKey(shown, k) {
        var e :| e in es && e.key == k;
      }
      if e :| e in interfaces && e.key == k {
        assert e in es;
      }
      if n :| n in graph && !n.isMqttBroker && n.entry.key == k {
        assert n.entry in es;
      }
    }
  }

  lemma LinksSpelledOut(shown: seq<Entry>, nodes: seq<Entry>, ns: seq<Entry>, given: seq<LinkEntry>)
    requires Shows(nodes, ns) && Shows(shown, AsEntries(MergedLinks(given, Keys(ns))))
    ensures ShowsLinks(shown, nodes, given)
  {
    hide MergedLinks, Shows, Keys, HasKey, AsEntries, AsEntry, BothEndsIn;
    forall k
      ensures HasKey(shown, k) <==> exists l :: l in given && l.source + "->" + l.target == k && HasKey(nodes, l.source) && HasKey(nodes, l.target)
    {
      ShownKeyIff(shown, AsEntries(MergedLinks(given, Keys(ns))), k);
      if HasKey(shown, k) {
        var l := LinkOfKey(nodes, ns, given, k);
      }
      if l :| l in given && l.source + "->" + l.target == k && HasKey(nodes, l.source) && HasKey(nodes, l.target) {
        KeyOfLink(nodes, ns, given, l);
      }
    }
  }

  lemma LinkOfKey(nodes: seq<Entry>, ns: seq<Entry>, given: seq<LinkEntry>, k: string) returns (l: LinkEntry)
    requires Shows(nodes, ns) && exists e :: e in AsEntries(MergedLinks(given, Keys(ns))) && e.key == k
    ensures l in given && l.source + "->" + l.target == k && HasKey(nodes, l.source) && HasKey(nodes, l.target)
  {
    var ls := MergedLinks(given, Keys(ns));
    hide MergedLinks, Shows, Keys, HasKey, AsEntry, BothEndsIn;
    var e :| e in AsEntries(ls) && e.key == k;
    var i :| 0 <= i < |ls| && AsEntries(ls)[i] == e;
    l := ls[i];
    assert l in ls;
    LinkSpelledOut(nodes, ns, l);
  }

  lemma KeyOfLink(nodes: seq<Entry>, ns: seq<Entry>, given: seq<LinkEntry>, l: LinkEntry)
    requires Shows(nodes, ns) && l in given && HasKey(nodes, l.source) && HasKey(nodes, l.target)
    ensures exists e :: e in AsEntries(MergedLinks(given, Keys(ns))) && e.key == l.source + "->" + l.target
  {
    var ls := MergedLinks(given, Keys(ns));
    hide MergedLinks, Shows, Keys, HasKey, AsEntry, BothEndsIn;
    LinkSpelledOut(nodes, ns, l);
    var i :| 0 <= i < |ls| && ls[i] == l;
    assert AsEntries(ls)[i] in AsEntries(ls);
  }

  /** What a link object holds: the fields given, with its two ends under their names. */
  lemma LinkFields(l: LinkEntry)
    ensures AsEntry(l).fields == l.fields["source" := l.source]["target" := l.target]
  {
  }

  lemma LinkSpelledOut(nodes: seq<Entry>, ns: seq<Entry>, l: LinkEntry)
    requires Shows(nodes, ns)
    ensures AsEntry(l).key == l.source + "->" + l.target
    ensures BothEndsIn(l, Keys(ns)) <==> HasKey(nodes, l.source) && HasKey(nodes, l.target)
  {
    ShownKeyIff(nodes, ns, l.source);
    ShownKeyIff(nodes, ns, l.target);
    hide Shows, Keys, HasKey;
  }

  class GraphData {
    const nodes: ItemArray
    const links: ItemArray

    ghost predicate Valid()
      reads this, nodes, links
    {
      && nodes != links
      && DuplicateFree(nodes.items) && DuplicateFree(links.items)
      && forall x | x in nodes.items :: x !in links.items
    }

    constructor ()
      ensures Valid() && nodes.items == [] && links.items == []
    {
      nodes := new ItemArray();
      links := new ItemArray();
    }

    /** The effect that runs when the merged data changes: nodes first, then links. */
    method Update(newNodes: seq<Entry>, newLinks: seq<LinkEntry>)
      requires Valid()
      modifies nodes, links, nodes.items, links.items
      ensures Valid()
      ensures Shows(Snapshot(nodes.items), newNodes) && Shows(Snapshot(links.items), AsEntries(newLinks))
      ensures Survivors(old(nodes.items), Keys(newNodes)) <= nodes.items
      ensures Survivors(old(links.items), Keys(AsEntries(newLinks))) <= links.items
      ensures old(Shows(Snapshot(nodes.items), newNodes) && Shows(Snapshot(links.items), AsEntries(newLinks))) ==>
                && nodes.items == old(nodes.items) && links.items == old(links.items)
                && Snapshot(nodes.items) == old(Snapshot(nodes.items)) && Snapshot(links.items) == old(Snapshot(links.items))
    {
      hide Keys, Last, Survivors, DuplicateFree, Copies, KeysOf, KeySet, AsEntries, Shows, Without, AsEntry, Snapshot;
      ghost var linksBefore := Snapshot(links.items);
      ghost var addedNodes := nodes.Reconcile(newNodes);
      assert Snapshot(links.items) == linksBefore;
      ghost var nodesAfter := Snapshot(nodes.items);
      assert forall x | x in nodes.items :: x !in links.items;
      ghost var addedLinks := links.Reconcile(AsEntries(newLinks));
      assert Snapshot(nodes.items) == nodesAfter;
    }

    /** The merged data as the component computes it, then the effect: no displayed link dangles. */
    method ShowMerged(graph: seq<NodeEntry>, graphLinks: seq<LinkEntry>, interfaces: seq<Entry>, interfaceLinks: seq<LinkEntry>)
      requires Valid()
      modifies nodes, links, nodes.items, links.items
      ensures Valid() && Shows(Snapshot(nodes.items), MergedNodes(graph, interfaces))
      ensures Shows(Snapshot(links.items), AsEntries(MergedLinks(graphLinks + interfaceLinks, Keys(MergedNodes(graph, interfaces)))))
      ensures ShowsNodes(Snapshot(nodes.items), graph, interfaces)
      ensures ShowsLinks(Snapshot(links.items), Snapshot(nodes.items), graphLinks + interfaceLinks)
      ensures NoDanglingLink(Snapshot(nodes.items), Snapshot(links.items))
    {
      hide Keys, Shows, NoDanglingLink, MergedNodes, BothEndsIn, LastOfItsKey, ShowsNodes, ShowsLinks;
      var newNodes := MergedNodes(graph, interfaces);
      var newLinks := MergedLinks(graphLinks + interfaceLinks, Keys(newNodes));
      Update(newNodes, newLinks);
      NodesSpelledOut(Snapshot(nodes.items), graph, interfaces);
      LinksSpelledOut(Snapshot(links.items), Snapshot(nodes.items), newNodes, graphLinks + interfaceLinks);
      NoDanglingLinkIff(Snapshot(nodes.items), newNodes, Snapshot(links.items), newLinks);
      assert forall i | 0 <= i < |newLinks| :: newLinks[i] in newLinks;
    }

    /** The refresh handler: the same diff, but on links that were not filtered. */
    method Refresh(graph: seq<NodeEntry>, graphLinks: seq<LinkEntry>, interfaces: seq<Entry>, interfaceLinks: seq<LinkEntry>)
      requires Valid()
      modifies nodes, links, nodes.items, links.items
      ensures Valid() && Shows(Snapshot(nodes.items), MergedNodes(graph, interfaces))
      ensures Shows(Snapshot(links.items), AsEntries(graphLinks + interfaceLinks)) && ShowsNodes(Snapshot(nodes.items), graph, interfaces)
      ensures NoDanglingLink(Snapshot(nodes.items), Snapshot(links.items)) <==>
              var ls := graphLinks + interfaceLinks;
              forall i | 0 <= i < |ls| && LastOfItsKey(ls, i) :: BothEndsIn(ls[i], Keys(MergedNodes(graph, interfaces)))
      ensures GraphIds(graphLinks + interfaceLinks) ==>
                (NoDanglingLink(Snapshot(nodes.items), Snapshot(links.items)) <==>
                 forall l | l in graphLinks + interfaceLinks :: BothEndsIn(l, Keys(MergedNodes(graph, interfaces))))
    {
      hide Keys, Shows, NoDanglingLink, MergedNodes, BothEndsIn, LastOfItsKey, GraphIds, ShowsNodes;
      var newNodes, newLinks := MergedNodes(graph, interfaces), graphLinks + interfaceLinks;
      Update(newNodes, newLinks);
      NodesSpelledOut(Snapshot(nodes.items), graph, interfaces);
      if GraphIds(newLinks) {
        LastSpeaksForAll(newLinks, Keys(newNodes));
      }
      NoDanglingLinkIff(Snapshot(nodes.items), newNodes, Snapshot(links.items), newLinks);
    }
  }

  /** `Object.assign(item, entry)` unless nothing differs. */
  method UpdateItem(es: seq<Entry>, i: nat, item: Item, ghost before: seq<Item>, ghost added: seq<Item>, ghost orig: map<Item, map<string, string>>)
    requires DuplicateFree(before) && item in before && i < |Keys(es)| && item.key == Keys(es)[i]
    requires Updated(es, i, before, orig) && Copies(es, added) && item !in added
    modifies item
    ensures Updated(es, i + 1, before, orig) && Copies(es, added)
  {
    var entry := Last(es, item.key);
    UpdatedOthers(es, i, before, orig, item);
    if item.fields != entry {
      item.fields := item.fields + entry;
    }
  }
}
