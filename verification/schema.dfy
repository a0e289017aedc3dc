/** The two tables `rnc_locus` and `rnc_locus_members`: record shapes, keys,
    the foreign reference from a member to its locus, and the two relations
    (a locus has many members, a member has at most one locus). */
module Schema {
  import opened Wrappers

  /** PostgreSQL `integer` columns are signed 32-bit. */
  const INT4_MIN: int := -0x8000_0000
  const INT4_MAX: int := 0x7FFF_FFFF
  /** The declared length of every `varchar` column. */
  const VARCHAR_MAX: nat := 255

  predicate IsInt4(x: int) {
    INT4_MIN <= x <= INT4_MAX
  }

  predicate NullableInt4(x: Option<int>) {
    x.None? || IsInt4(x.value)
  }

  predicate NullableVarchar(s: Option<string>) {
    s.None? || |s.value| <= VARCHAR_MAX
  }

  /** A row of `rnc_locus`. Every column but the key is nullable; `locusName` is
      `text` and so has no length bound. `memberCount` is a stored number that
      nothing ties to the member rows. */
  datatype Locus = Locus(
    id: int,
    assemblyId: Option<string>,
    locusName: Option<string>,
    publicLocusName: Option<string>,
    chromosome: Option<string>,
    strand: Option<string>,
    locusStart: Option<int>,
    locusStop: Option<int>,
    memberCount: Option<int>)

  /** A row of `rnc_locus_members`. The key column is `id` in the database but
      the program exposes it as `locusMemberId`. */
  datatype LocusMember = LocusMember(
    locusMemberId: int,
    regionId: Option<int>,
    locusId: Option<int>,
    membershipStatus: Option<string>)

  /** Both tables, each in the order the store happens to scan it. */
  datatype Db = Db(loci: seq<Locus>, members: seq<LocusMember>)

  predicate LocusColumnsFit(l: Locus) {
    && IsInt4(l.id)
    && NullableVarchar(l.assemblyId)
    && NullableVarchar(l.publicLocusName)
    && NullableVarchar(l.chromosome)
    && NullableVarchar(l.strand)
    && NullableInt4(l.locusStart)
    && NullableInt4(l.locusStop)
    && NullableInt4(l.memberCount)
  }

  predicate MemberColumnsFit(m: LocusMember) {
    && IsInt4(m.locusMemberId)
    && NullableInt4(m.regionId)
    && NullableInt4(m.locusId)
    && NullableVarchar(m.membershipStatus)
  }

  /** `id` is the primary key of `rnc_locus`. */
  predicate LocusIdsUnique(loci: seq<Locus>) {
    forall i, j :: 0 <= i < j < |loci| ==> loci[i].id != loci[j].id
  }

  /** `locusMemberId` is the primary key of `rnc_locus_members`. */
  predicate MemberIdsUnique(members: seq<LocusMember>) {
    forall i, j :: 0 <= i < j < |members| ==> members[i].locusMemberId != members[j].locusMemberId
  }

  predicate LocusExists(loci: seq<Locus>, id: int) {
    exists l :: l in loci && l.id == id
  }

  /** `locusId` references `rnc_locus.id`: a non-null reference resolves. */
  predicate ReferencesResolve(db: Db) {
    forall m :: m in db.members && m.locusId.Some? ==> LocusExists(db.loci, m.locusId.value)
  }

  /** Everything the store enforces about the two tables. */
  predicate WellFormed(db: Db) {
    && (forall l :: l in db.loci ==> LocusColumnsFit(l))
    && (forall m :: m in db.members ==> MemberColumnsFit(m))
    && LocusIdsUnique(db.loci)
    && MemberIdsUnique(db.members)
    && ReferencesResolve(db)
  }

  /** The `many(rncLocusMembers)` relation: the members whose reference is `id`,
      in table order. A member with a null reference belongs to no locus. */
  function MembersOfLocus(members: seq<LocusMember>, id: int): (r: seq<LocusMember>)
    ensures forall m :: m in r <==> m in members && m.locusId == Some(id)
    ensures |r| <= |members|
  {
    if |members| == 0 then []
    else
      var rest := MembersOfLocus(members[1..], id);
      assert forall m :: m in members <==> m == members[0] || m in members[1..];
      if members[0].locusId == Some(id) then [members[0]] + rest else rest
  }

  /** The relation keeps every member of the locus as often as the table holds
      it, and no other member. */
  lemma {:induction false} MembersOfLocusCounts(members: seq<LocusMember>, id: int)
    ensures forall m :: multiset(MembersOfLocus(members, id))[m] ==
                        if m.locusId == Some(id) then multiset(members)[m] else 0
  {
    if |members| > 0 {
      assert members == [members[0]] + members[1..];
      MembersOfLocusCounts(members[1..], id);
    }
  }

  /** The first locus with key `id`, if any. */
  function FindLocus(loci: seq<Locus>, id: int): (r: Option<Locus>)
    ensures r.Some? ==> r.value in loci && r.value.id == id
    ensures r.None? <==> !LocusExists(loci, id)
  {
    if |loci| == 0 then None
    else if loci[0].id == id then Some(loci[0])
    else
      assert forall l :: l in loci && l != loci[0] ==> l in loci[1..];
      FindLocus(loci[1..], id)
  }

  /** The `one(rncLocus)` relation of a member: the locus its `locusId` names. */
  function LocusOf(db: Db, m: LocusMember): (r: Option<Locus>)
    ensures m.locusId.None? ==> r.None?
    ensures r.Some? ==> r.value in db.loci && m.locusId == Some(r.value.id)
    ensures WellFormed(db) && m in db.members && m.locusId.Some? ==> r.Some?
  {
    match m.locusId
    case None => None
    case Some(id) => FindLocus(db.loci, id)
  }

  /** Under the primary key, a key names exactly one locus. */
  lemma {:induction false} FindLocusUnique(loci: seq<Locus>, l: Locus)
    requires LocusIdsUnique(loci)
    requires l in loci
    ensures FindLocus(loci, l.id) == Some(l)
  {
    if loci[0] != l {
      assert loci[0].id != l.id by {
        var k :| 0 <= k < |loci| && loci[k] == l;
        assert k != 0;
      }
      assert l in loci[1..];
      assert LocusIdsUnique(loci[1..]) by {
        forall i, j | 0 <= i < j < |loci[1..]|
          ensures loci[1..][i].id != loci[1..][j].id
        {
          assert loci[1..][i] == loci[i + 1] && loci[1..][j] == loci[j + 1];
        }
      }
      FindLocusUnique(loci[1..], l);
    }
  }

  /** Many-to-one: in a well-formed store a member with a reference belongs to
      exactly the locus carrying that key, and no other. */
  lemma MemberHasOneLocus(db: Db, m: LocusMember, l: Locus)
    requires WellFormed(db)
    requires m in db.members
    requires l in db.loci
    ensures m.locusId == Some(l.id) <==> LocusOf(db, m) == Some(l)
  {
    FindLocusUnique(db.loci, l);
  }

  /** `memberCount` is only a stored number: a well-formed store may claim five
      members for a locus that has none. */
  lemma MemberCountUnconstrained()
    ensures var db := Db([Locus(1, None, None, None, None, None, None, None, Some(5))], []);
            && WellFormed(db)
            && db.loci[0].memberCount == Some(5)
            && |MembersOfLocus(db.members, db.loci[0].id)| == 0
  {
  }
}
