/** The admin sideload: the rows of the single joined query folded into one
    object per locus, each carrying the list of its members found in the rows. */
module Sideload {
  import opened Wrappers
  import opened Schema
  import opened FirstOccurrence
  import Store

  /** A row of the sideload query: the locus columns plus four member columns,
      null where the left join found no member. */
  datatype SideloadRow = SideloadRow(
    locus: Locus,
    memberId: Option<int>,
    regionId: Option<int>,
    memberLocusId: Option<int>,
    membershipStatus: Option<string>)

  /** A member as it appears under `locusMembers`. */
  datatype MemberOut = MemberOut(id: int, regionId: Option<int>, locusId: Option<int>, membershipStatus: Option<string>)

  /** A locus object of the response: the locus columns only (the four member
      columns are deleted) and the `locusMembers` list. */
  datatype SideloadedLocus = SideloadedLocus(locus: Locus, locusMembers: seq<MemberOut>)

  /** The select list of the sideload query. `memberId` is taken to be the
      member's key `locusMemberId`. */
  function SelectRow(row: Store.Row): SideloadRow {
    match row.member
    case None => SideloadRow(row.locus, None, None, None, None)
    case Some(m) => SideloadRow(row.locus, Some(m.locusMemberId), m.regionId, m.locusId, m.membershipStatus)
  }

  /** The joined row a sideload row was selected from: a member is present
      exactly when its key is. */
  function Unselect(srow: SideloadRow): Store.Row {
    if srow.memberId.Some? then
      Store.Row(srow.locus, Some(LocusMember(srow.memberId.value, srow.regionId, srow.memberLocusId, srow.membershipStatus)))
    else Store.Row(srow.locus, None)
  }

  /** The select list keeps every column of the joined rows: each row can be
      read back from its result row, and a row without a member has all four
      member columns null. */
  function SelectRows(rows: seq<Store.Row>): (r: seq<SideloadRow>)
    ensures |r| == |rows|
    ensures forall i :: 0 <= i < |rows| ==> Unselect(r[i]) == rows[i]
    ensures forall i :: 0 <= i < |rows| ==> r[i].locus == rows[i].locus
    ensures forall i :: 0 <= i < |rows| ==> (r[i].memberId.Some? <==> rows[i].member.Some?)
    ensures forall i :: 0 <= i < |rows| && rows[i].member.None? ==>
      r[i].regionId.None? && r[i].memberLocusId.None? && r[i].membershipStatus.None?
  {
    seq(|rows|, i requires 0 <= i < |rows| => SelectRow(rows[i]))
  }

  /** `if (row.memberId)`: a null key and the key 0 are both falsy. */
  predicate HasMember(row: SideloadRow) {
    row.memberId.Some? && row.memberId.value != 0
  }

  function MemberOf(row: SideloadRow): MemberOut
    requires HasMember(row)
  {
    MemberOut(row.memberId.value, row.regionId, row.memberLocusId, row.membershipStatus)
  }

  function RowIds(rows: seq<SideloadRow>): (r: seq<int>)
    ensures |r| == |rows|
    ensures forall i :: 0 <= i < |rows| ==> r[i] == rows[i].locus.id
  {
    seq(|rows|, i requires 0 <= i < |rows| => rows[i].locus.id)
  }

  lemma RowIdsOfExtension(rows: seq<SideloadRow>, row: SideloadRow)
    ensures RowIds(rows + [row]) == RowIds(rows) + [row.locus.id]
  {
  }

  /** Row `row` lists a member under locus `id`. */
  predicate ListsUnder(row: SideloadRow, id: int) {
    row.locus.id == id && HasMember(row)
  }

  /** The positions of the rows that list a member under `id`: all of them,
      and only them, in increasing order. */
  function Positions(rows: seq<SideloadRow>, id: int): (ps: seq<int>)
    ensures forall k :: 0 <= k < |ps| ==> 0 <= ps[k] < |rows| && ListsUnder(rows[ps[k]], id)
    ensures forall k, k' :: 0 <= k < k' < |ps| ==> ps[k] < ps[k']
    ensures forall i :: 0 <= i < |rows| && ListsUnder(rows[i], id) ==> i in ps
  {
    if |rows| == 0 then []
    else
      var p := rows[..|rows| - 1];
      assert forall k :: 0 <= k < |p| ==> p[k] == rows[k];
      var rest := Positions(p, id);
      if ListsUnder(rows[|rows| - 1], id) then rest + [|rows| - 1] else rest
  }

  /** The members the rows carry for locus `id`: one per listing row, in row
      order. */
  function MembersFor(rows: seq<SideloadRow>, id: int): (r: seq<MemberOut>)
    ensures |r| <= |rows|
    ensures forall m :: m in r <==>
      exists k :: 0 <= k < |rows| && rows[k].locus.id == id && HasMember(rows[k]) && MemberOf(rows[k]) == m
  {
    if |rows| == 0 then []
    else
      var p := rows[..|rows| - 1];
      var last := rows[|rows| - 1];
      assert forall k :: 0 <= k < |p| ==> p[k] == rows[k];
      var rest := MembersFor(p, id);
      if last.locus.id == id && HasMember(last) then rest + [MemberOf(last)] else rest
  }

  /** A locus's list holds one member per listing row, in row order: its k-th
      entry comes from the k-th row that lists a member under the locus. */
  lemma {:induction false} MembersForInRowOrder(rows: seq<SideloadRow>, id: int)
    ensures |MembersFor(rows, id)| == |Positions(rows, id)|
    ensures forall k :: 0 <= k < |MembersFor(rows, id)| ==>
      MembersFor(rows, id)[k] == MemberOf(rows[Positions(rows, id)[k]])
  {
    if |rows| > 0 {
      var p := rows[..|rows| - 1];
      assert forall k :: 0 <= k < |p| ==> p[k] == rows[k];
      MembersForInRowOrder(p, id);
      if ListsUnder(rows[|rows| - 1], id) {
        assert Positions(rows, id) == Positions(p, id) + [|rows| - 1];
        assert MembersFor(rows, id) == MembersFor(p, id) + [MemberOf(rows[|rows| - 1])];
      } else {
        assert Positions(rows, id) == Positions(p, id);
        assert MembersFor(rows, id) == MembersFor(p, id);
      }
    }
  }

  lemma {:induction false} NoRowsNoMembers(rows: seq<SideloadRow>, id: int)
    requires id !in RowIds(rows)
    ensures MembersFor(rows, id) == []
  {
    if |rows| > 0 {
      var p := rows[..|rows| - 1];
      assert RowIds(p) == RowIds(rows)[..|rows| - 1];
      assert RowIds(rows)[|rows| - 1] == rows[|rows| - 1].locus.id;
      NoRowsNoMembers(p, id);
    }
  }

  /** The locus columns of the first row with key `id`. */
  function FirstLocus(rows: seq<SideloadRow>, id: int): Locus
    requires id in RowIds(rows)
  {
    rows[FirstIndex(RowIds(rows), id)].locus
  }

  function GroupOf(rows: seq<SideloadRow>, id: int): SideloadedLocus
    requires id in RowIds(rows)
  {
    SideloadedLocus(FirstLocus(rows, id), MembersFor(rows, id))
  }

  /** The grouping, stated declaratively: one object per distinct locus id in
      order of first occurrence, holding the first row's locus columns and every
      member the rows carry for that id. */
  function GroupSpec(rows: seq<SideloadRow>): seq<SideloadedLocus> {
    var d := Distinct(RowIds(rows));
    seq(|d|, k requires 0 <= k < |d| => GroupOf(rows, d[k]))
  }

  /** One more row changes only the object of its own id. */
  lemma GroupOfExtension(rows: seq<SideloadRow>, row: SideloadRow, id: int)
    requires id in RowIds(rows + [row])
    ensures id != row.locus.id ==> id in RowIds(rows) && GroupOf(rows + [row], id) == GroupOf(rows, id)
    ensures id == row.locus.id && id in RowIds(rows) ==>
      GroupOf(rows + [row], id) == GroupOf(rows, id).(locusMembers :=
        GroupOf(rows, id).locusMembers + if HasMember(row) then [MemberOf(row)] else [])
    ensures id == row.locus.id && id !in RowIds(rows) ==>
      GroupOf(rows + [row], id) == SideloadedLocus(row.locus, if HasMember(row) then [MemberOf(row)] else [])
  {
    var xs := rows + [row];
    RowIdsOfExtension(rows, row);
    assert xs[..|xs| - 1] == rows;
    if id in RowIds(rows) {
      FirstIndexOfExtension(RowIds(rows), row.locus.id, id);
      assert FirstLocus(xs, id) == FirstLocus(rows, id);
    } else {
      NoRowsNoMembers(rows, id);
      assert FirstIndex(RowIds(xs), id) == |rows|;
    }
  }

  /** What the map and its insertion order hold after the rows `xs`. */
  ghost predicate MapHolds(lociMap: map<int, SideloadedLocus>, order: seq<int>, xs: seq<SideloadRow>) {
    && order == Distinct(RowIds(xs))
    && (forall id :: id in lociMap <==> id in order)
    && (forall id :: id in lociMap ==> id in RowIds(xs) && lociMap[id] == GroupOf(xs, id))
  }

  /** The body of the `forEach` callback for one row. */
  function AddRow(lociMap: map<int, SideloadedLocus>, order: seq<int>, row: SideloadRow)
    : (map<int, SideloadedLocus>, seq<int>)
  {
    var id := row.locus.id;
    var (m1, o1) :=
      if id !in lociMap then (lociMap[id := SideloadedLocus(row.locus, [])], order + [id])
      else (lociMap, order);
    if HasMember(row) then (m1[id := m1[id].(locusMembers := m1[id].locusMembers + [MemberOf(row)])], o1)
    else (m1, o1)
  }

  /** What one step does to the map: it appends the row's id to the order when
      the id is new, creates that id's object from the row's locus columns if
      needed, adds the row's member when its key is truthy, and leaves every
      other key alone. */
  lemma AddRowEffect(lociMap: map<int, SideloadedLocus>, order: seq<int>, row: SideloadRow, id: int)
    ensures AddRow(lociMap, order, row).1 == if row.locus.id in lociMap then order else order + [row.locus.id]
    ensures id in AddRow(lociMap, order, row).0 <==> id in lociMap || id == row.locus.id
    ensures id != row.locus.id && id in lociMap ==> AddRow(lociMap, order, row).0[id] == lociMap[id]
    ensures id == row.locus.id ==>
              var base := if id in lociMap then lociMap[id] else SideloadedLocus(row.locus, []);
              var added := if HasMember(row) then [MemberOf(row)] else [];
              AddRow(lociMap, order, row).0[id] == base.(locusMembers := base.locusMembers + added)
  {
  }

  lemma AddRowKeepsMap(lociMap: map<int, SideloadedLocus>, order: seq<int>, xs: seq<SideloadRow>, row: SideloadRow)
    requires MapHolds(lociMap, order, xs)
    ensures MapHolds(AddRow(lociMap, order, row).0, AddRow(lociMap, order, row).1, xs + [row])
  {
    RowIdsOfExtension(xs, row);
    DistinctOfExtension(RowIds(xs), row.locus.id);
    var (m, o) := AddRow(lociMap, order, row);
    AddRowEffect(lociMap, order, row, row.locus.id);
    forall id
      ensures id in m <==> id in o
    {
      AddRowEffect(lociMap, order, row, id);
    }
    forall id | id in m
      ensures id in RowIds(xs + [row]) && m[id] == GroupOf(xs + [row], id)
    {
      AddRowEffect(lociMap, order, row, id);
      GroupOfExtension(xs, row, id);
    }
  }

  lemma MapValuesInOrder(lociMap: map<int, SideloadedLocus>, order: seq<int>, rows: seq<SideloadRow>)
    requires MapHolds(lociMap, order, rows)
    ensures forall k :: 0 <= k < |order| ==> order[k] in lociMap
    ensures ValuesInOrder(lociMap, order) == GroupSpec(rows)
  {
    assert forall k :: 0 <= k < |order| ==> order[k] in order;
  }

  /** The `forEach` over the rows with a `Map` from locus id to locus object;
      the map's insertion order is kept alongside it, as JavaScript does, and
      `Array.from(lociMap.values())` lists the objects in that order. */
  method GroupLoci(rows: seq<SideloadRow>) returns (out: seq<SideloadedLocus>)
    ensures out == GroupSpec(rows)
  {
    var lociMap: map<int, SideloadedLocus> := map[];
    var order: seq<int> := [];
    var i := 0;
    while i < |rows|
      invariant 0 <= i <= |rows|
      invariant MapHolds(lociMap, order, rows[..i])
    {
      AddRowKeepsMap(lociMap, order, rows[..i], rows[i]);
      assert rows[..i + 1] == rows[..i] + [rows[i]];
      lociMap, order := AddRow(lociMap, order, rows[i]).0, AddRow(lociMap, order, rows[i]).1;
      i := i + 1;
    }
    assert rows[..i] == rows;
    MapValuesInOrder(lociMap, order, rows);
    out := ValuesInOrder(lociMap, order);
  }

  /** Shape of the grouped response: ids pairwise distinct, in first-occurrence
      order, exactly the ids of the rows, never more objects than rows; each
      object holds its id's first row's locus columns and that id's members. */
  lemma {:induction false} GroupSpecShape(rows: seq<SideloadRow>)
    ensures var g := GroupSpec(rows);
            && |g| <= |rows|
            && (forall i, j :: 0 <= i < j < |g| ==> g[i].locus.id != g[j].locus.id)
            && (forall id :: id in RowIds(rows) <==> exists k :: 0 <= k < |g| && g[k].locus.id == id)
            && (forall i, j :: 0 <= i < j < |g| ==>
                  FirstIndex(RowIds(rows), g[i].locus.id) < FirstIndex(RowIds(rows), g[j].locus.id))
            && (forall k :: 0 <= k < |g| ==>
                  && g[k].locus == rows[FirstIndex(RowIds(rows), g[k].locus.id)].locus
                  && g[k].locusMembers == MembersFor(rows, g[k].locus.id))
  {
    var g := GroupSpec(rows);
    var d := Distinct(RowIds(rows));
    assert forall k :: 0 <= k < |g| ==> g[k].locus.id == d[k];
    DistinctKeepsFirstOccurrenceOrder(RowIds(rows));
    forall id | id in RowIds(rows)
      ensures exists k :: 0 <= k < |g| && g[k].locus.id == id
    {
      var k :| 0 <= k < |d| && d[k] == id;
      assert g[k].locus.id == id;
    }
  }

  /** The select list as written: `memberId` reads a property the member table
      does not have (its key is `locusMemberId`), so no row carries a member key. */
  function SelectRowAsWritten(row: Store.Row): SideloadRow {
    match row.member
    case None => SideloadRow(row.locus, None, None, None, None)
    case Some(m) => SideloadRow(row.locus, None, m.regionId, m.locusId, m.membershipStatus)
  }

  function SelectRowsAsWritten(rows: seq<Store.Row>): (r: seq<SideloadRow>)
    ensures |r| == |rows|
    ensures forall i :: 0 <= i < |rows| ==> r[i] == SelectRowAsWritten(rows[i])
  {
    seq(|rows|, i requires 0 <= i < |rows| => SelectRowAsWritten(rows[i]))
  }

  lemma {:induction false} NoKeysNoMembers(rows: seq<SideloadRow>, id: int)
    requires forall k :: 0 <= k < |rows| ==> rows[k].memberId.None?
    ensures MembersFor(rows, id) == []
  {
    if |rows| > 0 {
      NoKeysNoMembers(rows[..|rows| - 1], id);
    }
  }

  /** As written, every sideloaded locus has an empty `locusMembers`, whatever
      the member table holds. */
  lemma AsWrittenListsNoMembers(rows: seq<Store.Row>)
    ensures forall g :: g in GroupSpec(SelectRowsAsWritten(rows)) ==> g.locusMembers == []
  {
    var srows := SelectRowsAsWritten(rows);
    GroupSpecShape(srows);
    forall g | g in GroupSpec(srows)
      ensures g.locusMembers == []
    {
      var k :| 0 <= k < |GroupSpec(srows)| && GroupSpec(srows)[k] == g;
      NoKeysNoMembers(srows, g.locus.id);
    }
  }

  /** With the member key selected, every joined row whose member key is
      truthy puts that member under its locus. */
  lemma SideloadListsEveryMember(rows: seq<Store.Row>, i: nat)
    requires i < |rows| && rows[i].member.Some? && rows[i].member.value.locusMemberId != 0
    ensures var m := rows[i].member.value;
            exists g :: && g in GroupSpec(SelectRows(rows))
                        && g.locus.id == rows[i].locus.id
                        && MemberOut(m.locusMemberId, m.regionId, m.locusId, m.membershipStatus) in g.locusMembers
  {
    var srows := SelectRows(rows);
    var m := rows[i].member.value;
    var mo := MemberOut(m.locusMemberId, m.regionId, m.locusId, m.membershipStatus);
    GroupSpecShape(srows);
    var id := rows[i].locus.id;
    assert RowIds(srows)[i] == id;
    assert id in RowIds(srows);
    var k :| 0 <= k < |GroupSpec(srows)| && GroupSpec(srows)[k].locus.id == id;
    var g := GroupSpec(srows)[k];
    assert HasMember(srows[i]) && MemberOf(srows[i]) == mo;
    assert mo in MembersFor(srows, id);
  }
}
