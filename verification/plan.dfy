/** The first half of `GET /api/locus`: from the caller's role and the parsed query
    parameters to a query plan (predicates, join, sort, page window, branch). */
module LocusPlan {
  import opened Wrappers
  import opened Auth
  import Schema

  /** An integer query parameter after parsing: given once, or repeated. */
  datatype IntParam = One(v: int) | Many(vs: seq<int>)

  /** The list a parameter becomes: a repeated parameter as is, a single one
      wrapped in a one-element list. */
  function Values(p: IntParam): (r: seq<int>)
    ensures p.One? ==> r == [p.v]
    ensures p.Many? ==> r == p.vs
  {
    match p
    case One(v) => [v]
    case Many(vs) => vs
  }

  /** The query string after parsing. `None` is an absent parameter; an empty
      `id` or `regionId` parses to `None`, since the handler only tests them for
      truthiness. Strings keep the empty string, which the handler treats as
      absent (it is falsy). */
  datatype Params = Params(
    id: Option<IntParam>,
    assemblyId: Option<string>,
    regionId: Option<IntParam>,
    membershipStatus: Option<string>,
    sideload: Option<string>,
    page: Option<int>,
    rows: Option<int>,
    sortBy: Option<string>,
    sortOrder: Option<string>)

  /** The parameters of a bare `GET /api/locus`. */
  const NoParams: Params := Params(None, None, None, None, None, None, None, None, None)

  const DEFAULT_PAGE: int := 1
  const DEFAULT_ROWS: int := 1000

  /** The region ids the limited role is confined to. */
  const LimitedRegionIds: seq<int> := [86118093, 86696489, 88186467]

  /** JavaScript truthiness of a string parameter. */
  predicate Given(s: Option<string>) {
    s.Some? && s.value != ""
  }

  /** A filter on one column of the locus table or of the member table. */
  datatype Pred =
    | IdIn(ids: seq<int>)
    | AssemblyIs(assembly: string)
    | RegionIn(regions: seq<int>)
    | StatusIs(status: string)

  predicate OnLocus(p: Pred) {
    p.IdIn? || p.AssemblyIs?
  }

  /** The predicates on locus columns: an id list when `id` is given, an
      assembly equality when `assemblyId` is given, nothing else. */
  function LocusConditions(params: Params): (r: seq<Pred>)
    ensures forall q :: q in r ==> OnLocus(q)
    ensures forall ids :: IdIn(ids) in r <==> params.id.Some? && ids == Values(params.id.value)
    ensures forall a :: AssemblyIs(a) in r <==> Given(params.assemblyId) && a == params.assemblyId.value
    ensures |r| <= 2
  {
    (if params.id.Some? then [IdIn(Values(params.id.value))] else [])
    + (if Given(params.assemblyId) then [AssemblyIs(params.assemblyId.value)] else [])
  }

  /** The predicates on member columns. The limited role always gets the fixed
      region list and its own `regionId` is ignored; other roles get a region
      list only when they give `regionId`. Every role gets a status equality
      when it gives `membershipStatus`. */
  function MemberConditions(role: Role, params: Params): (r: seq<Pred>)
    ensures forall q :: q in r ==> !OnLocus(q)
    ensures role == Limited ==> forall ids :: RegionIn(ids) in r <==> ids == LimitedRegionIds
    ensures role != Limited ==>
      forall ids :: RegionIn(ids) in r <==> params.regionId.Some? && ids == Values(params.regionId.value)
    ensures forall s :: StatusIs(s) in r <==> Given(params.membershipStatus) && s == params.membershipStatus.value
    ensures |r| <= 2
  {
    var region :=
      if role == Limited then [RegionIn(LimitedRegionIds)]
      else if params.regionId.Some? then [RegionIn(Values(params.regionId.value))]
      else [];
    region + (if Given(params.membershipStatus) then [StatusIs(params.membershipStatus.value)] else [])
  }

  /** The caller's `regionId` makes no difference to the limited role. */
  lemma LimitedIgnoresRegionId(params: Params, regionId: Option<IntParam>)
    ensures MemberConditions(Limited, params) == MemberConditions(Limited, params.(regionId := regionId))
  {
  }

  datatype SortField = ById | ByLocusStart | ByLocusStop | ByMemberCount

  /** The property name a sort field is requested by. */
  function FieldName(f: SortField): string {
    match f
    case ById => "id"
    case ByLocusStart => "locusStart"
    case ByLocusStop => "locusStop"
    case ByMemberCount => "memberCount"
  }

  const SortableFields: seq<string> := ["id", "locusStart", "locusStop", "memberCount"]

  /** `sortBy` names the sort column when it is on the whitelist; otherwise, and
      by default, the sort is on `id`. */
  function SortFieldOf(sortBy: Option<string>): (f: SortField)
    ensures var name := sortBy.GetOr("id");
            && (name in SortableFields ==> FieldName(f) == name)
            && (name !in SortableFields ==> f == ById)
  {
    match sortBy.GetOr("id")
    case "locusStart" => ByLocusStart
    case "locusStop" => ByLocusStop
    case "memberCount" => ByMemberCount
    case _ => ById
  }

  datatype Direction = Asc | Desc

  function LowerChar(c: char): char {
    if 'A' <= c <= 'Z' then (c as int + 32) as char else c
  }

  /** `toLowerCase` on ASCII letters. No character outside ASCII lower-cases to
      one of the letters of "desc", so comparing with "desc" is unaffected. */
  function ToLower(s: string): (r: string)
    ensures |r| == |s|
    ensures forall i :: 0 <= i < |s| ==> r[i] == LowerChar(s[i])
  {
    seq(|s|, i requires 0 <= i < |s| => LowerChar(s[i]))
  }

  /** Descending exactly when `sortOrder` lower-cases to "desc"; ascending for
      any other value and by default. */
  function DirectionOf(sortOrder: Option<string>): (d: Direction)
    ensures d == Desc <==> sortOrder.Some? && ToLower(sortOrder.value) == "desc"
  {
    if ToLower(sortOrder.GetOr("asc")) == "desc" then Desc else Asc
  }

  /** Case does not matter in `sortOrder`. */
  lemma DirectionIgnoresCase()
    ensures DirectionOf(Some("DESC")) == Desc
    ensures DirectionOf(Some("Desc")) == Desc
    ensures DirectionOf(Some("descending")) == Asc
  {
    assert ToLower("DESC") == "desc";
    assert ToLower("Desc") == "desc";
    assert |ToLower("descending")| == 10;
  }

  /** The three ways the handler can finish. */
  datatype Branch =
    | Sideload     // admin asking for `locusMembers`: one joined query, grouped
    | Flat         // any other admin or normal request: rows as returned
    | FlatDedupe   // the limited role: rows deduplicated by id

  function BranchOf(role: Role, sideload: Option<string>): (b: Branch)
    ensures b == Sideload <==> role == Admin && sideload == Some("locusMembers")
    ensures b == FlatDedupe <==> role == Limited
  {
    if role == Admin && sideload == Some("locusMembers") then Sideload
    else if role == Limited then FlatDedupe
    else Flat
  }

  datatype Plan = Plan(
    locusPreds: seq<Pred>,
    memberPreds: seq<Pred>,
    where: seq<Pred>,    // the conjunction sent to the store; empty means no filter
    joined: bool,        // whether the member table is left-joined on `locusId = id`
    sortField: SortField,
    direction: Direction,
    limit: int,
    offset: int,
    branch: Branch)

  /** The WHERE clause the handler passes. The sideload query and the limited
      arm conjoin both lists; the other arm conjoins the member list only when it
      is non-empty. All three are the same conjunction. */
  function WhereClause(role: Role, branch: Branch, locusPreds: seq<Pred>, memberPreds: seq<Pred>): (r: seq<Pred>)
    ensures r == locusPreds + memberPreds
  {
    if branch == Sideload then locusPreds + memberPreds
    else if role == Limited then locusPreds + memberPreds
    else locusPreds + (if |memberPreds| > 0 then memberPreds else [])
  }

  /** PostgreSQL's `bigint`, the type LIMIT and OFFSET are bound as. */
  const INT8_MAX: int := 0x7FFF_FFFF_FFFF_FFFF

  /** Every value can be bound to an `integer` parameter. */
  predicate AllInt4(vs: seq<int>) {
    forall v :: v in vs ==> Schema.IsInt4(v)
  }

  /** The values a predicate binds fit the column it compares: `id` and
      `region_id` are `integer`; a string compared with a `varchar` column is
      bound without a length. */
  predicate PredFits(p: Pred) {
    match p
    case IdIn(ids) => AllInt4(ids)
    case RegionIn(regions) => AllInt4(regions)
    case AssemblyIs(_) => true
    case StatusIs(_) => true
  }

  /** PostgreSQL runs the query only when LIMIT and OFFSET are non-negative
      `bigint` values and every bound value fits its column; anything else is
      an error raised before a row is read. */
  predicate StoreAccepts(plan: Plan) {
    && 0 <= plan.limit <= INT8_MAX
    && 0 <= plan.offset <= INT8_MAX
    && forall p :: p in plan.where ==> PredFits(p)
  }

  /** The same condition read off the request: the page window, the ids, and
      the region ids unless the role is limited (its own are ignored). */
  predicate RequestFits(role: Role, params: Params) {
    var k := params.rows.GetOr(DEFAULT_ROWS);
    var offset := (params.page.GetOr(DEFAULT_PAGE) - 1) * k;
    && 0 <= k <= INT8_MAX
    && 0 <= offset <= INT8_MAX
    && (params.id.Some? ==> AllInt4(Values(params.id.value)))
    && (role != Limited && params.regionId.Some? ==> AllInt4(Values(params.regionId.value)))
  }

  /** The predicates of a request bind only fitting values exactly when its
      ids do and, outside the limited role, its region ids do. */
  lemma WhereFits(role: Role, params: Params)
    ensures (forall p :: p in LocusConditions(params) + MemberConditions(role, params) ==> PredFits(p)) <==>
            && (params.id.Some? ==> AllInt4(Values(params.id.value)))
            && (role != Limited && params.regionId.Some? ==> AllInt4(Values(params.regionId.value)))
  {
    var where := LocusConditions(params) + MemberConditions(role, params);
    assert AllInt4(LimitedRegionIds);
    if params.id.Some? {
      assert IdIn(Values(params.id.value)) in where;
    }
    if role != Limited && params.regionId.Some? {
      assert RegionIn(Values(params.regionId.value)) in where;
    }
  }

  /** The plan the handler builds before it touches the store. */
  function BuildPlan(role: Role, params: Params): (plan: Plan)
    ensures plan.locusPreds == LocusConditions(params)
    ensures plan.memberPreds == MemberConditions(role, params)
    ensures plan.where == plan.locusPreds + plan.memberPreds
    ensures plan.branch == BranchOf(role, params.sideload)
    ensures plan.sortField == SortFieldOf(params.sortBy)
    ensures plan.direction == DirectionOf(params.sortOrder)
    ensures plan.limit == params.rows.GetOr(DEFAULT_ROWS)
    ensures plan.offset == (params.page.GetOr(DEFAULT_PAGE) - 1) * plan.limit
    ensures StoreAccepts(plan) <==> RequestFits(role, params)
    ensures plan.branch == Sideload ==> plan.joined
    ensures plan.branch != Sideload ==> (plan.joined <==> |plan.memberPreds| > 0 || role == Limited)
  {
    var rows := params.rows.GetOr(DEFAULT_ROWS);
    var page := params.page.GetOr(DEFAULT_PAGE);
    var locusPreds := LocusConditions(params);
    var memberPreds := MemberConditions(role, params);
    var branch := BranchOf(role, params.sideload);
    WhereFits(role, params);
    Plan(
      locusPreds,
      memberPreds,
      WhereClause(role, branch, locusPreds, memberPreds),
      branch == Sideload || |memberPreds| > 0 || role == Limited,
      SortFieldOf(params.sortBy),
      DirectionOf(params.sortOrder),
      rows,
      (page - 1) * rows,
      branch)
  }

  /** With no paging parameters the first 1000 rows are asked for. */
  lemma DefaultPaging(role: Role, params: Params)
    requires params.page.None? && params.rows.None?
    ensures BuildPlan(role, params).offset == 0
    ensures BuildPlan(role, params).limit == 1000
  {
  }

  /** Page `n` of size `k` starts after the first `(n - 1) * k` rows. */
  lemma PageWindow(role: Role, params: Params, n: int, k: int)
    requires params.page == Some(n) && params.rows == Some(k)
    ensures BuildPlan(role, params).offset == (n - 1) * k
    ensures BuildPlan(role, params).limit == k
  {
  }

  /** The page number is not clamped: a page below 1 with a positive size gives a
      negative offset. */
  lemma NonPositivePage(role: Role, params: Params)
    requires params.page.Some? && params.page.value <= 0
    requires params.rows.GetOr(DEFAULT_ROWS) > 0
    ensures BuildPlan(role, params).offset < 0
  {
    var p := params.page.value;
    var k := params.rows.GetOr(DEFAULT_ROWS);
    assert (p - 1) * k <= -k by {
      assert (p - 1) * k == p * k - k;
      assert p * k <= 0;
    }
  }

  /** The limited role can neither sideload nor widen its region list. */
  lemma LimitedPlanIgnoresSideloadAndRegion(params: Params, sideload: Option<string>, regionId: Option<IntParam>)
    ensures var plan := BuildPlan(Limited, params.(sideload := sideload, regionId := regionId));
            && plan == BuildPlan(Limited, params)
            && plan.branch == FlatDedupe
            && plan.joined
            && RegionIn(LimitedRegionIds) in plan.memberPreds
  {
    LimitedIgnoresRegionId(params, regionId);
  }

  /** Without member filters and outside the limited role, a flat request reads
      the locus table alone. */
  lemma UnfilteredReadsLociOnly(role: Role, params: Params)
    requires role != Limited && params.regionId.None? && !Given(params.membershipStatus)
    requires BranchOf(role, params.sideload) != Sideload
    ensures !BuildPlan(role, params).joined
  {
  }
}
