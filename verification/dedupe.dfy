/** The limited role's post-processing: `new Map(results.map(item => [item.id, item]))`
    and its values. A later item with a known id replaces the stored value but
    keeps the position the id was first given. */
module Dedupe {
  import opened Schema
  import opened FirstOccurrence

  function LocusIds(items: seq<Locus>): (r: seq<int>)
    ensures |r| == |items|
    ensures forall i :: 0 <= i < |items| ==> r[i] == items[i].id
  {
    seq(|items|, i requires 0 <= i < |items| => items[i].id)
  }

  lemma LocusIdsOfExtension(items: seq<Locus>, item: Locus)
    ensures LocusIds(items + [item]) == LocusIds(items) + [item.id]
  {
  }

  /** The last item with key `id`: the value a `Map` keeps for that key. */
  function LastWithId(items: seq<Locus>, id: int): (r: Locus)
    requires id in LocusIds(items)
    ensures r in items && r.id == id
    ensures exists k :: 0 <= k < |items| && items[k] == r && forall j :: k < j < |items| ==> items[j].id != id
  {
    var p := items[..|items| - 1];
    var last := items[|items| - 1];
    assert items == p + [last];
    if last.id == id then last
    else
      assert LocusIds(p) == LocusIds(items)[..|items| - 1];
      assert id in LocusIds(p) by {
        var k :| 0 <= k < |items| && LocusIds(items)[k] == id;
        assert k < |p|;
        assert LocusIds(p)[k] == id;
      }
      LastWithId(p, id)
  }

  /** The dedupe, stated declaratively: one item per distinct id, placed where
      the id first occurs, holding the last item with that id. */
  function DedupeSpec(items: seq<Locus>): seq<Locus> {
    var d := Distinct(LocusIds(items));
    seq(|d|, k requires 0 <= k < |d| => LastWithId(items, d[k]))
  }

  ghost predicate MapHolds(m: map<int, Locus>, order: seq<int>, xs: seq<Locus>) {
    && order == Distinct(LocusIds(xs))
    && (forall id :: id in m <==> id in order)
    && (forall id :: id in m ==> id in LocusIds(xs) && m[id] == LastWithId(xs, id))
  }

  /** `map.set(item.id, item)`: the value is replaced, and a new key is
      appended to the insertion order. */
  function SetItem(m: map<int, Locus>, order: seq<int>, item: Locus): (map<int, Locus>, seq<int>) {
    (m[item.id := item], if item.id in m then order else order + [item.id])
  }

  /** One more item changes only the value kept for its own id. */
  lemma LastWithIdOfExtension(xs: seq<Locus>, item: Locus, id: int)
    requires id in LocusIds(xs + [item])
    ensures id == item.id ==> LastWithId(xs + [item], id) == item
    ensures id != item.id ==> id in LocusIds(xs) && LastWithId(xs + [item], id) == LastWithId(xs, id)
  {
    var ys := xs + [item];
    LocusIdsOfExtension(xs, item);
    assert ys[..|ys| - 1] == xs;
  }

  lemma SetKeepsMap(m: map<int, Locus>, order: seq<int>, xs: seq<Locus>, item: Locus)
    requires MapHolds(m, order, xs)
    ensures MapHolds(SetItem(m, order, item).0, SetItem(m, order, item).1, xs + [item])
  {
    var ys := xs + [item];
    LocusIdsOfExtension(xs, item);
    DistinctOfExtension(LocusIds(xs), item.id);
    var (m', order') := SetItem(m, order, item);
    forall id | id in m'
      ensures id in LocusIds(ys) && m'[id] == LastWithId(ys, id)
    {
      LastWithIdOfExtension(xs, item, id);
    }
  }

  lemma MapValuesInOrder(m: map<int, Locus>, order: seq<int>, items: seq<Locus>)
    requires MapHolds(m, order, items)
    ensures forall k :: 0 <= k < |order| ==> order[k] in m
    ensures ValuesInOrder(m, order) == DedupeSpec(items)
  {
    assert forall k :: 0 <= k < |order| ==> order[k] in order;
  }

  /** The `Map` built from `[item.id, item]` pairs, read back in insertion order. */
  method DedupeById(items: seq<Locus>) returns (out: seq<Locus>)
    ensures out == DedupeSpec(items)
  {
    var m: map<int, Locus> := map[];
    var order: seq<int> := [];
    var i := 0;
    while i < |items|
      invariant 0 <= i <= |items|
      invariant MapHolds(m, order, items[..i])
    {
      SetKeepsMap(m, order, items[..i], items[i]);
      assert items[..i + 1] == items[..i] + [items[i]];
      m, order := SetItem(m, order, items[i]).0, SetItem(m, order, items[i]).1;
      i := i + 1;
    }
    assert items[..i] == items;
    MapValuesInOrder(m, order, items);
    out := ValuesInOrder(m, order);
  }

  /** Shape of the deduplicated list: ids pairwise distinct, exactly the ids of
      the input, in first-occurrence order, each item taken from the input. */
  lemma {:induction false} DedupeSpecShape(items: seq<Locus>)
    ensures var out := DedupeSpec(items);
            && |out| <= |items|
            && (forall i, j :: 0 <= i < j < |out| ==> out[i].id != out[j].id)
            && (forall id :: id in LocusIds(items) <==> exists k :: 0 <= k < |out| && out[k].id == id)
            && (forall i, j :: 0 <= i < j < |out| ==>
                  FirstIndex(LocusIds(items), out[i].id) < FirstIndex(LocusIds(items), out[j].id))
            && (forall k :: 0 <= k < |out| ==> out[k] in items)
  {
    var out := DedupeSpec(items);
    var d := Distinct(LocusIds(items));
    assert forall k :: 0 <= k < |out| ==> out[k].id == d[k];
    DistinctKeepsFirstOccurrenceOrder(LocusIds(items));
    forall id | id in LocusIds(items)
      ensures exists k :: 0 <= k < |out| && out[k].id == id
    {
      var k :| 0 <= k < |d| && d[k] == id;
      assert out[k].id == id;
    }
  }

  /** Items sharing an id are the same record, as rows selecting only the columns
      of a table keyed by that id are. */
  predicate SameIdSameRecord(items: seq<Locus>) {
    forall i, j :: 0 <= i < |items| && 0 <= j < |items| && items[i].id == items[j].id ==> items[i] == items[j]
  }

  /** When duplicates are identical, keeping the last one is keeping the first:
      the output is the input with every repeat of an id removed. */
  lemma DedupeKeepsFirstRecord(items: seq<Locus>)
    requires SameIdSameRecord(items)
    ensures var out := DedupeSpec(items);
            forall k :: 0 <= k < |out| ==> out[k] == items[FirstIndex(LocusIds(items), out[k].id)]
  {
    var out := DedupeSpec(items);
    forall k | 0 <= k < |out|
      ensures out[k] == items[FirstIndex(LocusIds(items), out[k].id)]
    {
      var d := Distinct(LocusIds(items));
      assert out[k] == LastWithId(items, d[k]);
      var f := FirstIndex(LocusIds(items), out[k].id);
      var j :| 0 <= j < |items| && items[j] == out[k];
      assert items[f].id == out[k].id;
    }
  }

  /** Without repeated ids the dedupe changes nothing. */
  lemma {:induction false} DedupeOfDistinctIsIdentity(items: seq<Locus>)
    requires NoRepeats(LocusIds(items))
    ensures DedupeSpec(items) == items
  {
    var ids := LocusIds(items);
    assert Distinct(ids) == ids by { DistinctOfUnique(ids); }
    forall k | 0 <= k < |items|
      ensures LastWithId(items, ids[k]) == items[k]
    {
      var r := LastWithId(items, ids[k]);
      var j :| 0 <= j < |items| && items[j] == r;
      assert ids[j] == ids[k];
      assert j == k;
    }
  }
}
