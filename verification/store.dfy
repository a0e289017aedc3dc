/** The relational store as the handler uses it: `rnc_locus`, optionally left
    joined with `rnc_locus_members` on `locus_id = id`, filtered by a
    conjunction of predicates, ordered by one locus column, then cut to the
    rows after OFFSET, at most LIMIT of them. ORDER BY applies before LIMIT and
    OFFSET whatever order the builder calls are chained in. */
module Store {
  import opened Wrappers
  import opened Schema
  import opened LocusPlan
  import opened FirstOccurrence

  /** One row of the (possibly joined) scan: a locus and one of its members, or
      null member columns. */
  datatype Row = Row(locus: Locus, member: Option<LocusMember>)

  /** What the left join pairs a locus with: each member whose `locusId` is the
      locus's id, or null columns when there is no such member. */
  predicate JoinedWith(members: seq<LocusMember>, row: Row) {
    match row.member
    case Some(m) => m in members && m.locusId == Some(row.locus.id)
    case None => forall m :: m in members ==> m.locusId != Some(row.locus.id)
  }

  /** How many copies of `row` the left join makes from one copy of its locus:
      one per copy of a matching member, one member-less row when the locus has
      no member, and none for a pairing the join does not make. */
  function JoinCount(members: seq<LocusMember>, row: Row): nat {
    if !JoinedWith(members, row) then 0
    else match row.member
      case Some(m) => multiset(members)[m]
      case None => 1
  }

  /** The locus paired with each of `ms` in turn. */
  function PairWith(l: Locus, ms: seq<LocusMember>): (r: seq<Row>)
    ensures forall row :: row in r <==> row.locus == l && row.member.Some? && row.member.value in ms
  {
    if |ms| == 0 then []
    else
      assert forall m :: m in ms <==> m == ms[0] || m in ms[1..];
      [Row(l, Some(ms[0]))] + PairWith(l, ms[1..])
  }

  lemma {:induction false} PairWithCounts(l: Locus, ms: seq<LocusMember>)
    ensures forall row :: multiset(PairWith(l, ms))[row] ==
                          if row.locus == l && row.member.Some? then multiset(ms)[row.member.value] else 0
  {
    if |ms| > 0 {
      assert ms == [ms[0]] + ms[1..];
      PairWithCounts(l, ms[1..]);
    }
  }

  /** The joined rows of one locus, its members in table order. */
  function JoinOne(l: Locus, members: seq<LocusMember>): (r: seq<Row>)
    ensures |r| > 0
    ensures forall row :: row in r <==> row.locus == l && JoinedWith(members, row)
  {
    var ms := MembersOfLocus(members, l.id);
    if |ms| == 0 then [Row(l, None)]
    else
      assert ms[0] in ms;
      PairWith(l, ms)
  }

  /** A locus's joined rows hold each of its members as often as the member
      table does, or a single member-less row when it has none, and nothing
      else. */
  lemma JoinOneCounts(l: Locus, members: seq<LocusMember>)
    ensures forall row :: multiset(JoinOne(l, members))[row] == if row.locus == l then JoinCount(members, row) else 0
  {
    var ms := MembersOfLocus(members, l.id);
    MembersOfLocusCounts(members, l.id);
    if |ms| > 0 {
      PairWithCounts(l, ms);
      assert ms[0] in ms;
    }
  }

  lemma MultiplyOneMore(n: int, c: int)
    ensures (n + 1) * c == n * c + c
  {
  }

  /** The count of the join of a non-empty locus list from the joins of its head
      and of its tail. */
  lemma JoinCountOfCons(loci: seq<Locus>, members: seq<LocusMember>, head: seq<Row>, rest: seq<Row>)
    requires |loci| > 0
    requires forall row :: multiset(head)[row] == if row.locus == loci[0] then JoinCount(members, row) else 0
    requires forall row :: multiset(rest)[row] == multiset(loci[1..])[row.locus] * JoinCount(members, row)
    ensures forall row :: multiset(head + rest)[row] == multiset(loci)[row.locus] * JoinCount(members, row)
  {
    assert loci == [loci[0]] + loci[1..];
    forall row
      ensures multiset(head + rest)[row] == multiset(loci)[row.locus] * JoinCount(members, row)
    {
      var c := JoinCount(members, row);
      var n := multiset(loci[1..])[row.locus];
      assert multiset(head + rest)[row] == multiset(head)[row] + n * c;
      if row.locus == loci[0] {
        assert multiset(loci)[row.locus] == n + 1;
        MultiplyOneMore(n, c);
      } else {
        assert multiset(loci)[row.locus] == n;
      }
    }
  }

  /** `rnc_locus LEFT JOIN rnc_locus_members ON locus_id = id`: every locus
      appears, once per member it has, or once with null member columns. The
      join is a bag: only the ORDER BY that follows gives its rows an order. */
  function LeftJoin(loci: seq<Locus>, members: seq<LocusMember>): (r: seq<Row>)
    ensures forall row :: row in r <==> row.locus in loci && JoinedWith(members, row)
  {
    if |loci| == 0 then []
    else
      assert forall l :: l in loci <==> l == loci[0] || l in loci[1..];
      JoinOne(loci[0], members) + LeftJoin(loci[1..], members)
  }

  /** Bag semantics of the join: a row occurs once for every copy of its locus
      times every copy of its member, and a member-less row once per copy of a
      locus without members. */
  lemma {:induction false} LeftJoinCounts(loci: seq<Locus>, members: seq<LocusMember>)
    ensures forall row :: multiset(LeftJoin(loci, members))[row] == multiset(loci)[row.locus] * JoinCount(members, row)
  {
    if |loci| > 0 {
      JoinOneCounts(loci[0], members);
      LeftJoinCounts(loci[1..], members);
      JoinCountOfCons(loci, members, JoinOne(loci[0], members), LeftJoin(loci[1..], members));
    }
  }

  /** The locus table read alone: one member-less row per locus. */
  function LociOnly(loci: seq<Locus>): (r: seq<Row>)
    ensures forall row :: row in r <==> row.locus in loci && row.member.None?
  {
    if |loci| == 0 then []
    else
      assert forall l :: l in loci <==> l == loci[0] || l in loci[1..];
      [Row(loci[0], None)] + LociOnly(loci[1..])
  }

  lemma {:induction false} LociOnlyCounts(loci: seq<Locus>)
    ensures forall row :: multiset(LociOnly(loci))[row] == if row.member.None? then multiset(loci)[row.locus] else 0
  {
    if |loci| > 0 {
      assert loci == [loci[0]] + loci[1..];
      LociOnlyCounts(loci[1..]);
    }
  }

  /** The rows the query reads before filtering: the join when it is asked for,
      otherwise the locus table with no member columns at all. */
  function BaseRows(db: Db, joined: bool): (r: seq<Row>)
    ensures forall row :: row in r ==> row.locus in db.loci
    ensures joined ==> forall row :: row in r <==> row.locus in db.loci && JoinedWith(db.members, row)
    ensures !joined ==> forall row :: row in r <==> row.locus in db.loci && row.member.None?
  {
    if joined then LeftJoin(db.loci, db.members) else LociOnly(db.loci)
  }

  /** How often the scan yields each row: as the join's bag semantics say when
      joined, otherwise once per copy of the locus with no member columns. */
  lemma BaseRowsCounts(db: Db, joined: bool)
    ensures joined ==> forall row :: multiset(BaseRows(db, joined))[row] == multiset(db.loci)[row.locus] * JoinCount(db.members, row)
    ensures !joined ==> forall row :: multiset(BaseRows(db, joined))[row] == if row.member.None? then multiset(db.loci)[row.locus] else 0
  {
    if joined {
      LeftJoinCounts(db.loci, db.members);
    } else {
      LociOnlyCounts(db.loci);
    }
  }

  /** Under both primary keys the join never yields the same row twice: each
      locus comes once per member of its own, or once with null columns. */
  lemma JoinRowsOccurOnce(loci: seq<Locus>, members: seq<LocusMember>)
    requires LocusIdsUnique(loci) && MemberIdsUnique(members)
    ensures NoRepeats(LeftJoin(loci, members))
  {
    var r := LeftJoin(loci, members);
    LeftJoinCounts(loci, members);
    forall row: Row
      ensures multiset(r)[row] <= 1
    {
      NoRepeatsCountsOnce(loci, row.locus);
      var c := JoinCount(members, row);
      if row.member.Some? {
        NoRepeatsCountsOnce(members, row.member.value);
      }
      assert c <= 1;
      var n := multiset(loci)[row.locus];
      assert n * c <= 1 by {
        if n == 0 || c == 0 {
          assert n * c == 0;
        }
      }
    }
    CountsOnceNoRepeats(r);
  }

  /** SQL truth of one predicate. A comparison with a NULL column is not true,
      so a row with null member columns fails every member predicate. */
  predicate Holds(p: Pred, row: Row) {
    match p
    case IdIn(ids) => row.locus.id in ids
    case AssemblyIs(a) => row.locus.assemblyId == Some(a)
    case RegionIn(regions) =>
      row.member.Some? && row.member.value.regionId.Some? && row.member.value.regionId.value in regions
    case StatusIs(s) => row.member.Some? && row.member.value.membershipStatus == Some(s)
  }

  /** `and(...preds)`; the empty conjunction is no WHERE clause at all. */
  predicate Satisfies(preds: seq<Pred>, row: Row) {
    forall p :: p in preds ==> Holds(p, row)
  }

  /** The rows passing the WHERE clause, each as often as it occurs. */
  function Filter(rows: seq<Row>, preds: seq<Pred>): (r: seq<Row>)
    ensures forall row :: multiset(r)[row] == if Satisfies(preds, row) then multiset(rows)[row] else 0
    ensures forall row :: row in r <==> row in rows && Satisfies(preds, row)
  {
    if |rows| == 0 then []
    else
      assert rows == [rows[0]] + rows[1..];
      var rest := Filter(rows[1..], preds);
      if Satisfies(preds, rows[0]) then [rows[0]] + rest else rest
  }

  /** An empty conjunction filters nothing out. */
  lemma {:induction false} EmptyWhereKeepsAll(rows: seq<Row>)
    ensures Filter(rows, []) == rows
  {
    if |rows| > 0 {
      EmptyWhereKeepsAll(rows[1..]);
      assert Satisfies([], rows[0]);
    }
  }

  /** The value a row is ordered by; the key column is never null. */
  function Key(row: Row, field: SortField): Option<int> {
    match field
    case ById => Some(row.locus.id)
    case ByLocusStart => row.locus.locusStart
    case ByLocusStop => row.locus.locusStop
    case ByMemberCount => row.locus.memberCount
  }

  /** PostgreSQL's default order on a nullable integer: NULL sorts as larger
      than every value, so NULLS LAST ascending and NULLS FIRST descending. */
  predicate KeyLe(dir: Direction, a: Option<int>, b: Option<int>) {
    match dir
    case Asc => b.None? || (a.Some? && a.value <= b.value)
    case Desc => a.None? || (b.Some? && b.value <= a.value)
  }

  predicate Before(field: SortField, dir: Direction, x: Row, y: Row) {
    KeyLe(dir, Key(x, field), Key(y, field))
  }

  /** Every row's key is at or before the key of every later row. */
  predicate Ordered(rows: seq<Row>, field: SortField, dir: Direction) {
    forall i, j :: 0 <= i < j < |rows| ==> Before(field, dir, rows[i], rows[j])
  }

  /** The key order is total and transitive for either direction, so an order
      exists for every multiset of rows; only ties are left open. */
  lemma KeyOrderIsTotalPreorder(dir: Direction, a: Option<int>, b: Option<int>, c: Option<int>)
    ensures KeyLe(dir, a, b) || KeyLe(dir, b, a)
    ensures KeyLe(dir, a, b) && KeyLe(dir, b, c) ==> KeyLe(dir, a, c)
  {
  }

  /** In an ordered sequence every later row comes after the first. */
  lemma TailAfterHead(s: seq<Row>, field: SortField, dir: Direction)
    requires Ordered(s, field, dir) && |s| > 0
    ensures forall y :: y in multiset(s[1..]) ==> Before(field, dir, s[0], y)
  {
    forall y | y in multiset(s[1..])
      ensures Before(field, dir, s[0], y)
    {
      assert y in s[1..];
      var k :| 0 <= k < |s[1..]| && s[1..][k] == y;
      assert s[k + 1] == y;
    }
  }

  /** A row at or before every row of an ordered sequence can lead it. */
  lemma ConsOrdered(a: Row, t: seq<Row>, field: SortField, dir: Direction)
    requires Ordered(t, field, dir)
    requires forall y :: y in multiset(t) ==> Before(field, dir, a, y)
    ensures Ordered([a] + t, field, dir)
  {
    var r := [a] + t;
    forall i, j | 0 <= i < j < |r|
      ensures Before(field, dir, r[i], r[j])
    {
      assert r[j] == t[j - 1];
      if i == 0 {
        assert t[j - 1] in multiset(t);
      } else {
        assert r[i] == t[i - 1];
      }
    }
  }

  function Insert(x: Row, s: seq<Row>, field: SortField, dir: Direction): (r: seq<Row>)
    requires Ordered(s, field, dir)
    ensures multiset(r) == multiset(s) + multiset{x}
    ensures Ordered(r, field, dir)
  {
    if |s| == 0 then [x]
    else if Before(field, dir, x, s[0]) then
      assert forall y :: y in multiset(s) ==> Before(field, dir, x, y) by {
        forall y | y in multiset(s)
          ensures Before(field, dir, x, y)
        {
          var k :| 0 <= k < |s| && s[k] == y;
          KeyOrderIsTotalPreorder(dir, Key(x, field), Key(s[0], field), Key(y, field));
        }
      }
      ConsOrdered(x, s, field, dir);
      [x] + s
    else
      assert s == [s[0]] + s[1..];
      var t := Insert(x, s[1..], field, dir);
      TailAfterHead(s, field, dir);
      KeyOrderIsTotalPreorder(dir, Key(x, field), Key(s[0], field), Key(x, field));
      ConsOrdered(s[0], t, field, dir);
      [s[0]] + t
  }

  /** ORDER BY the sort key: a permutation of the input in key order. */
  function SortRows(rows: seq<Row>, field: SortField, dir: Direction): (r: seq<Row>)
    ensures multiset(r) == multiset(rows)
    ensures Ordered(r, field, dir)
  {
    if |rows| == 0 then []
    else
      assert rows == [rows[0]] + rows[1..];
      Insert(rows[0], SortRows(rows[1..], field, dir), field, dir)
  }

  /** OFFSET then LIMIT: the rows after the first `offset`, at most `limit`. */
  function Window(s: seq<Row>, offset: int, limit: int): (r: seq<Row>)
    requires offset >= 0 && limit >= 0
    ensures |r| <= limit
    ensures |r| == if offset >= |s| then 0 else if limit < |s| - offset then limit else |s| - offset
    ensures forall i :: 0 <= i < |r| ==> r[i] == s[offset + i]
    ensures forall row :: row in r ==> row in s
  {
    if offset >= |s| then []
    else if limit < |s| - offset then s[offset..offset + limit]
    else s[offset..]
  }

  /** A slice of an ordered sequence is ordered. */
  lemma WindowKeepsOrder(s: seq<Row>, offset: int, limit: int, field: SortField, dir: Direction)
    requires offset >= 0 && limit >= 0
    requires Ordered(s, field, dir)
    ensures Ordered(Window(s, offset, limit), field, dir)
  {
    var r := Window(s, offset, limit);
    forall i, j | 0 <= i < j < |r|
      ensures Before(field, dir, r[i], r[j])
    {
      assert r[i] == s[offset + i] && r[j] == s[offset + j];
    }
  }

  /** PostgreSQL refuses a query whose LIMIT, OFFSET or bound values do not fit
      their types; otherwise the query answers with rows. */
  datatype StoreResult = Rejected | Rows(rows: seq<Row>)

  /** Run a plan against the tables. Among rows with equal keys the order is the
      store's choice; this definition fixes one, and the lemmas below rely only on
      the key order. */
  function Evaluate(db: Db, plan: Plan): (r: StoreResult)
    ensures r.Rejected? <==> !StoreAccepts(plan)
    ensures r.Rows? ==> |r.rows| <= plan.limit
    ensures r.Rows? ==> forall row :: row in r.rows ==> row in BaseRows(db, plan.joined) && Satisfies(plan.where, row)
    ensures r.Rows? ==> Ordered(r.rows, plan.sortField, plan.direction)
  {
    if !StoreAccepts(plan) then Rejected
    else
      var matching := Filter(BaseRows(db, plan.joined), plan.where);
      var sorted := SortRows(matching, plan.sortField, plan.direction);
      WindowKeepsOrder(sorted, plan.offset, plan.limit, plan.sortField, plan.direction);
      var page := Window(sorted, plan.offset, plan.limit);
      assert forall row :: row in page ==> row in multiset(matching);
      Rows(page)
  }

  /** The rows a plan matches, before ordering and paging. */
  function Matching(db: Db, plan: Plan): seq<Row> {
    Filter(BaseRows(db, plan.joined), plan.where)
  }

  /** The page is a window of SOME ordering of the matching rows: a permutation
      of them sorted by the key. */
  lemma {:induction false} EvaluateIsPageOfOrderedMatches(db: Db, plan: Plan)
    requires StoreAccepts(plan)
    ensures exists s :: && multiset(s) == multiset(Matching(db, plan))
                        && Ordered(s, plan.sortField, plan.direction)
                        && Evaluate(db, plan).rows == Window(s, plan.offset, plan.limit)
  {
    var s := SortRows(Matching(db, plan), plan.sortField, plan.direction);
    assert Evaluate(db, plan).rows == Window(s, plan.offset, plan.limit);
  }

  /** A first page at least as large as the match set holds every matching row,
      with its multiplicity. */
  lemma FirstPageHoldsAllMatches(db: Db, plan: Plan)
    requires StoreAccepts(plan)
    requires plan.offset == 0 && plan.limit >= |Matching(db, plan)|
    ensures multiset(Evaluate(db, plan).rows) == multiset(Matching(db, plan))
  {
    var s := SortRows(Matching(db, plan), plan.sortField, plan.direction);
    assert |s| == |Matching(db, plan)| by {
      assert |multiset(s)| == |multiset(Matching(db, plan))|;
    }
    assert Window(s, 0, plan.limit) == s;
  }

  /** A WHERE clause on member columns turns the left join into an inner join:
      every row returned carries a real member of that locus, so a locus with no
      member passing the filter is dropped. */
  lemma MemberFilterActsAsInnerJoin(db: Db, plan: Plan, q: Pred, row: Row)
    requires q in plan.where && !OnLocus(q)
    requires Evaluate(db, plan).Rows? && row in Evaluate(db, plan).rows
    ensures row.member.Some?
    ensures row.member.value in db.members && row.member.value.locusId == Some(row.locus.id)
    ensures Holds(q, row)
  {
  }
}
