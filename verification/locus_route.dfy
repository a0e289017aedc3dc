/** `GET /api/locus` end to end: build the plan, run it against the tables, and
    finish in one of three branches (sideload grouping, rows as returned, or
    rows deduplicated by id for the limited role). */
module LocusRoute {
  import opened Wrappers
  import opened Schema
  import opened Auth
  import opened LocusPlan
  import opened Store
  import opened Sideload
  import opened Dedupe
  import opened FirstOccurrence

  /** The JSON the handler sends: plain locus objects, locus objects with
      `locusMembers`, or the catch-all 500. */
  datatype Response =
    | Loci(loci: seq<Locus>)
    | SideloadedLoci(items: seq<SideloadedLocus>)
    | InternalError

  /** `baseSelect`: only the locus columns of each row are returned. */
  function SelectLoci(rows: seq<Row>): (r: seq<Locus>)
    ensures |r| == |rows|
    ensures forall i :: 0 <= i < |rows| ==> r[i] == rows[i].locus
  {
    seq(|rows|, i requires 0 <= i < |rows| => rows[i].locus)
  }

  /** Some member of locus `id` lies in one of the limited role's regions. */
  ghost predicate AllowListedMember(db: Db, id: int) {
    exists m :: m in db.members && m.locusId == Some(id) && m.regionId.Some? && m.regionId.value in LimitedRegionIds
  }

  /** Every row the limited role's query returns comes with one of its
      allow-listed members. */
  lemma LimitedRowsAreAllowListed(db: Db, params: Params)
    requires RequestFits(Limited, params)
    ensures forall row :: row in Evaluate(db, BuildPlan(Limited, params)).rows ==> AllowListedMember(db, row.locus.id)
  {
    var plan := BuildPlan(Limited, params);
    var rows := Evaluate(db, plan).rows;
    var q := RegionIn(LimitedRegionIds);
    assert q in plan.memberPreds;
    assert q in plan.where;
    forall row | row in rows
      ensures AllowListedMember(db, row.locus.id)
    {
      MemberFilterActsAsInnerJoin(db, plan, q, row);
    }
  }

  /** With no member in an allow-listed region the limited role sees nothing,
      and that is an empty answer, not an error. */
  lemma LimitedSeesNothingWithoutAllowListedMembers(db: Db, params: Params)
    requires forall m :: m in db.members ==> m.regionId.None? || m.regionId.value !in LimitedRegionIds
    requires RequestFits(Limited, params)
    ensures forall row :: row !in Evaluate(db, BuildPlan(Limited, params)).rows
  {
    LimitedRowsAreAllowListed(db, params);
  }

  /** Every member listed under a sideloaded locus is a member of that locus in
      the tables that passes the member filters. */
  lemma SideloadMembersBelong(db: Db, params: Params, g: SideloadedLocus, mo: MemberOut)
    requires RequestFits(Admin, params)
    requires g in GroupSpec(SelectRows(Evaluate(db, BuildPlan(Admin, params)).rows))
    requires mo in g.locusMembers
    ensures exists m :: && m in db.members
                        && m.locusId == Some(g.locus.id)
                        && mo == MemberOut(m.locusMemberId, m.regionId, m.locusId, m.membershipStatus)
                        && forall q :: q in BuildPlan(Admin, params).memberPreds ==> Holds(q, Row(g.locus, Some(m)))
  {
    var plan := BuildPlan(Admin, params);
    var rows := Evaluate(db, plan).rows;
    var srows := SelectRows(rows);
    GroupSpecShape(srows);
    var k :| 0 <= k < |GroupSpec(srows)| && GroupSpec(srows)[k] == g;
    assert mo in MembersFor(srows, g.locus.id);
    var i :| 0 <= i < |srows| && srows[i].locus.id == g.locus.id && HasMember(srows[i]) && MemberOf(srows[i]) == mo;
    var row := rows[i];
    assert srows[i] == SelectRow(row);
    assert row in BaseRows(db, plan.joined);
    var m := row.member.value;
    assert Satisfies(plan.where, row);
    forall q | q in plan.memberPreds
      ensures Holds(q, Row(g.locus, Some(m)))
    {
      assert q in plan.where;
      assert !OnLocus(q);
    }
  }

  /** The limited role's answer has no repeated id and only loci with an
      allow-listed member. */
  lemma LimitedResultShape(db: Db, params: Params)
    requires RequestFits(Limited, params)
    ensures var out := DedupeSpec(SelectLoci(Evaluate(db, BuildPlan(Limited, params)).rows));
            && (forall i, j :: 0 <= i < j < |out| ==> out[i].id != out[j].id)
            && (forall l :: l in out ==> AllowListedMember(db, l.id))
  {
    var rows := Evaluate(db, BuildPlan(Limited, params)).rows;
    var items := SelectLoci(rows);
    DedupeSpecShape(items);
    LimitedRowsAreAllowListed(db, params);
    forall l | l in DedupeSpec(items)
      ensures AllowListedMember(db, l.id)
    {
      var k :| 0 <= k < |DedupeSpec(items)| && DedupeSpec(items)[k] == l;
      assert l in items;
      var i :| 0 <= i < |items| && items[i] == l;
      assert rows[i] in rows;
    }
  }

  /** The handler. A store failure of any kind is the 500 branch; the ones
      modelled are PostgreSQL refusing a LIMIT or OFFSET that is negative or
      beyond `bigint`, and an id or region id beyond `integer`. */
  method ListLoci(db: Db, role: Role, params: Params) returns (resp: Response)
    ensures resp.InternalError? <==> !RequestFits(role, params)
    ensures resp.SideloadedLoci? <==>
              !resp.InternalError? && role == Admin && params.sideload == Some("locusMembers")
    ensures resp.SideloadedLoci? ==>
              resp.items == GroupSpec(SelectRows(Evaluate(db, BuildPlan(role, params)).rows))
    ensures resp.SideloadedLoci? ==> |resp.items| <= BuildPlan(role, params).limit
    ensures resp.Loci? && role != Limited ==>
              resp.loci == SelectLoci(Evaluate(db, BuildPlan(role, params)).rows)
    ensures resp.Loci? && role == Limited ==>
              resp.loci == DedupeSpec(SelectLoci(Evaluate(db, BuildPlan(role, params)).rows))
    ensures resp.Loci? && role == Limited ==>
              forall i, j :: 0 <= i < j < |resp.loci| ==> resp.loci[i].id != resp.loci[j].id
    ensures resp.Loci? && role == Limited ==>
              forall l :: l in resp.loci ==> AllowListedMember(db, l.id)
  {
    var plan := BuildPlan(role, params);
    var result := Evaluate(db, plan);
    if result.Rejected? {
      return InternalError;
    }
    var rows := result.rows;
    if plan.branch == Sideload {
      var items := GroupLoci(SelectRows(rows));
      GroupSpecShape(SelectRows(rows));
      resp := SideloadedLoci(items);
    } else if role == Limited {
      var loci := DedupeById(SelectLoci(rows));
      LimitedResultShape(db, params);
      resp := Loci(loci);
    } else {
      resp := Loci(SelectLoci(rows));
    }
  }

  /** In a well-formed store two rows with the same locus id carry the same
      locus columns, so the limited role's dedupe keeps the first row of each
      locus and loses nothing but repeats. */
  lemma LimitedDedupeKeepsFirstRow(db: Db, params: Params)
    requires WellFormed(db)
    requires RequestFits(Limited, params)
    ensures var items := SelectLoci(Evaluate(db, BuildPlan(Limited, params)).rows);
            var out := DedupeSpec(items);
            forall k :: 0 <= k < |out| ==> out[k] == items[FirstIndex(LocusIds(items), out[k].id)]
  {
    var plan := BuildPlan(Limited, params);
    var rows := Evaluate(db, plan).rows;
    ScannedLociAreRecords(db, plan.joined, rows);
    DedupeKeepsFirstRecord(SelectLoci(rows));
  }

  /** Rows read from a well-formed store that share a locus id carry the same
      locus columns. */
  lemma ScannedLociAreRecords(db: Db, joined: bool, rows: seq<Row>)
    requires WellFormed(db)
    requires forall row :: row in rows ==> row in BaseRows(db, joined)
    ensures SameIdSameRecord(SelectLoci(rows))
  {
    var items := SelectLoci(rows);
    forall i, j | 0 <= i < |items| && 0 <= j < |items| && items[i].id == items[j].id
      ensures items[i] == items[j]
    {
      assert rows[i] in rows && rows[j] in rows;
      var a :| 0 <= a < |db.loci| && db.loci[a] == items[i];
      var b :| 0 <= b < |db.loci| && db.loci[b] == items[j];
      assert a == b;
    }
  }

  /** A locus with every optional column null. */
  function BareLocus(id: int): Locus {
    Locus(id, None, None, None, None, None, None, None, None)
  }

  /** A locus with exactly two members joins to two rows, in member order. */
  lemma JoinOfTwo(l: Locus, members: seq<LocusMember>, m1: LocusMember, m2: LocusMember)
    requires MembersOfLocus(members, l.id) == [m1, m2]
    ensures JoinOne(l, members) == [Row(l, Some(m1)), Row(l, Some(m2))]
  {
    assert [m1, m2][1..] == [m2] && [m2][1..] == [];
    assert PairWith(l, [m2]) == [Row(l, Some(m2))];
  }

  /** The joined rows of the normal-role example. */
  lemma NormalExampleRows(l: Locus, m1: LocusMember, m2: LocusMember)
    requires l == BareLocus(1)
    requires m1 == LocusMember(10, Some(5), Some(1), None) && m2 == LocusMember(11, Some(5), Some(1), None)
    ensures LeftJoin([l], [m1, m2]) == [Row(l, Some(m1)), Row(l, Some(m2))]
  {
    assert MembersOfLocus([m1, m2], 1) == [m1, m2];
    JoinOfTwo(l, [m1, m2], m1, m2);
    assert [l][1..] == [];
  }

  /** Both joined rows of the normal-role example pass the region filter and
      are already in key order. */
  lemma NormalExampleFilterSort(rows: seq<Row>, where: seq<Pred>)
    requires rows == [Row(BareLocus(1), Some(LocusMember(10, Some(5), Some(1), None))),
                      Row(BareLocus(1), Some(LocusMember(11, Some(5), Some(1), None)))]
    requires where == [RegionIn([5])]
    ensures Filter(rows, where) == rows
    ensures SortRows(rows, ById, Asc) == rows
  {
    assert Filter(rows[1..], where) == [rows[1]] + Filter(rows[1..][1..], where);
    assert SortRows(rows[1..], ById, Asc) == [rows[1]];
  }

  lemma NormalExamplePlan(params: Params)
    requires params == NoParams.(regionId := Some(One(5)))
    ensures BuildPlan(Normal, params) == Plan([], [RegionIn([5])], [RegionIn([5])], true, ById, Asc, 1000, 0, Flat)
  {
    assert ToLower("asc") != "desc" by {
      assert ToLower("asc")[0] == 'a';
    }
  }

  lemma NormalExampleWellFormed(db: Db)
    requires db == Db([BareLocus(1)], [LocusMember(10, Some(5), Some(1), None), LocusMember(11, Some(5), Some(1), None)])
    ensures WellFormed(db)
  {
  }

  lemma NormalExampleAccepted(plan: Plan)
    requires plan == Plan([], [RegionIn([5])], [RegionIn([5])], true, ById, Asc, 1000, 0, Flat)
    ensures StoreAccepts(plan)
  {
    assert AllInt4([5]);
  }

  /** Both joined rows of the normal-role example match its query, in key
      order. */
  lemma NormalExampleMatches(db: Db, plan: Plan, rows: seq<Row>)
    requires db == Db([BareLocus(1)], [LocusMember(10, Some(5), Some(1), None), LocusMember(11, Some(5), Some(1), None)])
    requires plan == Plan([], [RegionIn([5])], [RegionIn([5])], true, ById, Asc, 1000, 0, Flat)
    requires rows == [Row(BareLocus(1), Some(LocusMember(10, Some(5), Some(1), None))),
                      Row(BareLocus(1), Some(LocusMember(11, Some(5), Some(1), None)))]
    ensures SortRows(Filter(BaseRows(db, plan.joined), plan.where), plan.sortField, plan.direction) == rows
  {
    NormalExampleRows(db.loci[0], db.members[0], db.members[1]);
    NormalExampleFilterSort(rows, plan.where);
  }

  /** A first page larger than the sorted matches is all of them. */
  lemma WholeFirstPage(db: Db, plan: Plan, rows: seq<Row>)
    requires StoreAccepts(plan) && plan.offset == 0 && plan.limit >= |rows|
    requires SortRows(Filter(BaseRows(db, plan.joined), plan.where), plan.sortField, plan.direction) == rows
    ensures Evaluate(db, plan) == Rows(rows)
  {
    assert Window(rows, 0, plan.limit) == rows;
  }

  /** The store's answer to the normal-role example: both joined rows. */
  lemma NormalExampleEvaluate(db: Db, plan: Plan, rows: seq<Row>)
    requires db == Db([BareLocus(1)], [LocusMember(10, Some(5), Some(1), None), LocusMember(11, Some(5), Some(1), None)])
    requires plan == Plan([], [RegionIn([5])], [RegionIn([5])], true, ById, Asc, 1000, 0, Flat)
    requires rows == [Row(BareLocus(1), Some(LocusMember(10, Some(5), Some(1), None))),
                      Row(BareLocus(1), Some(LocusMember(11, Some(5), Some(1), None)))]
    ensures Evaluate(db, plan) == Rows(rows)
    ensures SelectLoci(rows) == [BareLocus(1), BareLocus(1)]
  {
    NormalExampleAccepted(plan);
    NormalExampleMatches(db, plan, rows);
    WholeFirstPage(db, plan, rows);
  }

  /** The normal role filtering on a region gets a locus once per matching
      member: the left join is not deduplicated. */
  lemma NormalRoleRepeatsLoci(db: Db, params: Params)
    requires db == Db([BareLocus(1)], [LocusMember(10, Some(5), Some(1), None), LocusMember(11, Some(5), Some(1), None)])
    requires params == NoParams.(regionId := Some(One(5)))
    ensures WellFormed(db)
    ensures Evaluate(db, BuildPlan(Normal, params)).Rows?
    ensures SelectLoci(Evaluate(db, BuildPlan(Normal, params)).rows) == [BareLocus(1), BareLocus(1)]
  {
    NormalExampleWellFormed(db);
    NormalExamplePlan(params);
    var rows := [Row(BareLocus(1), Some(LocusMember(10, Some(5), Some(1), None))),
                 Row(BareLocus(1), Some(LocusMember(11, Some(5), Some(1), None)))];
    NormalExampleEvaluate(db, BuildPlan(Normal, params), rows);
  }

  lemma SideloadExampleMembers(members: seq<LocusMember>)
    requires members == [LocusMember(10, None, Some(1), None), LocusMember(11, None, Some(1), None)]
    ensures MembersOfLocus(members, 1) == members
    ensures MembersOfLocus(members, 2) == []
  {
    assert members[1..][1..] == [];
  }

  /** The joined rows of the sideload example, in table order. */
  lemma SideloadExampleJoin(l1: Locus, l2: Locus, m1: LocusMember, m2: LocusMember)
    requires l1 == BareLocus(1) && l2 == BareLocus(2)
    requires m1 == LocusMember(10, None, Some(1), None) && m2 == LocusMember(11, None, Some(1), None)
    ensures LeftJoin([l1, l2], [m1, m2]) == [Row(l1, Some(m1)), Row(l1, Some(m2)), Row(l2, None)]
  {
    var members := [m1, m2];
    SideloadExampleMembers(members);
    JoinOfTwo(l1, members, m1, m2);
    assert JoinOne(l2, members) == [Row(l2, None)];
    assert [l1, l2][1..] == [l2] && [l2][1..] == [];
    assert LeftJoin([l2], members) == [Row(l2, None)] + LeftJoin([], members);
  }

  lemma SideloadExamplePlan(params: Params)
    requires params == NoParams.(sideload := Some("locusMembers"), rows := Some(2))
    ensures BuildPlan(Admin, params) == Plan([], [], [], true, ById, Asc, 2, 0, Sideload)
  {
    assert ToLower("asc") != "desc" by {
      assert ToLower("asc")[0] == 'a';
    }
  }

  /** Sorting the rows with keys 1, 1, 2 and keeping two leaves only rows of locus 1. */
  lemma SideloadExamplePage(joinedRows: seq<Row>, page: seq<Row>)
    requires joinedRows == [Row(BareLocus(1), Some(LocusMember(10, None, Some(1), None))),
                            Row(BareLocus(1), Some(LocusMember(11, None, Some(1), None))),
                            Row(BareLocus(2), None)]
    requires page == Window(SortRows(joinedRows, ById, Asc), 0, 2)
    ensures |page| == 2 && page[0].locus.id == 1 && page[1].locus.id == 1
  {
    var sorted := SortRows(joinedRows, ById, Asc);
    assert |sorted| == 3 by {
      assert |multiset(sorted)| == |multiset(joinedRows)|;
    }
    forall k | 0 <= k < 2
      ensures page[k].locus.id == 1
    {
      var row := page[k];
      assert row == sorted[k];
      assert row in multiset(joinedRows) by {
        assert row in sorted;
      }
    }
  }

  /** Grouping two rows of the same locus gives one object. */
  lemma OneLocusGroup(srows: seq<SideloadRow>)
    requires |srows| == 2 && srows[0].locus.id == 1 && srows[1].locus.id == 1
    ensures |GroupSpec(srows)| == 1
  {
    assert RowIds(srows) == [1, 1];
    assert RowIds(srows)[..1] == [1];
    assert Distinct(RowIds(srows)[..1]) == [1];
    assert Distinct(RowIds(srows)) == [1];
  }

  lemma SideloadExampleWellFormed(db: Db)
    requires db == Db([BareLocus(1), BareLocus(2)], [LocusMember(10, None, Some(1), None), LocusMember(11, None, Some(1), None)])
    ensures WellFormed(db)
  {
  }

  /** The store's answer to the sideload example: the first two of the sorted
      joined rows. */
  lemma SideloadExampleEvaluate(db: Db, plan: Plan, joinedRows: seq<Row>)
    requires db == Db([BareLocus(1), BareLocus(2)], [LocusMember(10, None, Some(1), None), LocusMember(11, None, Some(1), None)])
    requires plan == Plan([], [], [], true, ById, Asc, 2, 0, Sideload)
    requires joinedRows == [Row(BareLocus(1), Some(LocusMember(10, None, Some(1), None))),
                            Row(BareLocus(1), Some(LocusMember(11, None, Some(1), None))),
                            Row(BareLocus(2), None)]
    ensures Evaluate(db, plan) == Rows(Window(SortRows(joinedRows, ById, Asc), 0, 2))
  {
    SideloadExampleJoin(db.loci[0], db.loci[1], db.members[0], db.members[1]);
    EmptyWhereKeepsAll(joinedRows);
  }

  /** The sideload example's rows, sorted, paged and grouped: one locus. */
  lemma SideloadExampleGroups(joinedRows: seq<Row>)
    requires joinedRows == [Row(BareLocus(1), Some(LocusMember(10, None, Some(1), None))),
                            Row(BareLocus(1), Some(LocusMember(11, None, Some(1), None))),
                            Row(BareLocus(2), None)]
    ensures |GroupSpec(SelectRows(Window(SortRows(joinedRows, ById, Asc), 0, 2)))| == 1
  {
    var page := Window(SortRows(joinedRows, ById, Asc), 0, 2);
    SideloadExamplePage(joinedRows, page);
    OneLocusGroup(SelectRows(page));
  }

  /** The sideload branch pages over joined rows, not loci: a page of two rows
      can hold a single locus although two loci match. */
  lemma SideloadPageCanHoldFewerLoci(db: Db, params: Params)
    requires db == Db([BareLocus(1), BareLocus(2)], [LocusMember(10, None, Some(1), None), LocusMember(11, None, Some(1), None)])
    requires params == NoParams.(sideload := Some("locusMembers"), rows := Some(2))
    ensures WellFormed(db)
    ensures Evaluate(db, BuildPlan(Admin, params)).Rows?
    ensures |GroupSpec(SelectRows(Evaluate(db, BuildPlan(Admin, params)).rows))| == 1
  {
    SideloadExampleWellFormed(db);
    SideloadExamplePlan(params);
    var joinedRows := [Row(BareLocus(1), Some(LocusMember(10, None, Some(1), None))),
                       Row(BareLocus(1), Some(LocusMember(11, None, Some(1), None))),
                       Row(BareLocus(2), None)];
    SideloadExampleEvaluate(db, BuildPlan(Admin, params), joinedRows);
    SideloadExampleGroups(joinedRows);
  }
}
