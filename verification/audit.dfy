/** The discrepancy audit: every pairing is left-joined to its mentor and to its
    mentoree in the member table, and the cohort rules are applied again to the
    joined rows. A side that matches no member fails its rule. */
module Audit {
  import opened Options
  import opened Sequences
  import opened Members
  import opened Cohorts
  import opened Pairing

  /** One row of the two left joins: the pairing, the member matched as mentor and
      the member matched as mentoree, each missing when no member has that uuid. */
  datatype AuditRow = AuditRow(pairing: Mentorship, mentor: Option<Member>, mentoree: Option<Member>)

  /** The two lists the audit returns. */
  datatype Discrepancies = Discrepancies(invalidMentors: seq<AuditRow>, invalidMentorees: seq<AuditRow>)

  function HasUuid(u: string): Member -> bool {
    (m: Member) => m.uuid == u
  }

  /** No member carries uuid `u`. */
  predicate Dangling(members: seq<Member>, u: string) {
    forall m :: m in members ==> m.uuid != u
  }

  function Wrap(ms: seq<Member>): (r: seq<Option<Member>>)
    ensures |r| == |ms|
    ensures forall o :: o in r <==> o.Some? && o.value in ms
  {
    if ms == [] then []
    else
      assert forall m :: m in ms <==> m == ms[0] || m in ms[1..];
      [Some(ms[0])] + Wrap(ms[1..])
  }

  lemma {:induction false} WrapCounts(ms: seq<Member>, m: Member)
    ensures multiset(Wrap(ms))[Some(m)] == multiset(ms)[m]
  {
    if ms != [] {
      WrapCounts(ms[1..], m);
      assert ms == [ms[0]] + ms[1..];
    }
  }

  /** The right-hand side of a left join on uuid `u`: every member with that uuid in
      table order, or a single missing entry when there is none. */
  function LeftMatches(members: seq<Member>, u: string): (r: seq<Option<Member>>)
    ensures r != []
    ensures forall o :: o in r <==>
      (o.None? && Dangling(members, u)) || (o.Some? && o.value in members && o.value.uuid == u)
  {
    var found := Select(members, HasUuid(u));
    assert found == [] <==> Dangling(members, u) by {
      if found != [] {
        assert found[0] in found;
      }
    }
    if found == [] then [None] else Wrap(found)
  }

  /** How often each entry occurs in the left join: a dangling uuid gives exactly one
      missing entry; otherwise there is one entry per matching member, and each
      matching member occurs as often as it does in the table. */
  lemma LeftMatchesCounts(members: seq<Member>, u: string)
    ensures Dangling(members, u) ==> LeftMatches(members, u) == [None]
    ensures !Dangling(members, u) ==> |LeftMatches(members, u)| == |Select(members, HasUuid(u))|
    ensures forall m: Member :: m.uuid == u ==>
      multiset(LeftMatches(members, u))[Some(m)] == multiset(members)[m]
  {
    var found := Select(members, HasUuid(u));
    assert found == [] <==> Dangling(members, u) by {
      if found != [] {
        assert found[0] in found;
      }
    }
    forall m: Member | m.uuid == u
      ensures multiset(LeftMatches(members, u))[Some(m)] == multiset(members)[m]
    {
      SelectMultiset(members, HasUuid(u), m);
      WrapCounts(found, m);
      if found == [] {
        assert m !in members;
      }
    }
  }

  /** The rows of pairing `p` with a fixed mentor entry, one per mentoree entry. */
  function WithMentor(p: Mentorship, mentor: Option<Member>, mentorees: seq<Option<Member>>)
    : (rows: seq<AuditRow>)
    ensures forall r :: r in rows <==> r.pairing == p && r.mentor == mentor && r.mentoree in mentorees
  {
    if mentorees == [] then []
    else
      assert forall o :: o in mentorees <==> o == mentorees[0] || o in mentorees[1..];
      [AuditRow(p, mentor, mentorees[0])] + WithMentor(p, mentor, mentorees[1..])
  }

  /** The rows of pairing `p`: for each mentor entry in order, one per mentoree entry. */
  function Cross(p: Mentorship, mentors: seq<Option<Member>>, mentorees: seq<Option<Member>>)
    : (rows: seq<AuditRow>)
    ensures forall r :: r in rows <==> r.pairing == p && r.mentor in mentors && r.mentoree in mentorees
  {
    if mentors == [] then []
    else
      assert forall o :: o in mentors <==> o == mentors[0] || o in mentors[1..];
      WithMentor(p, mentors[0], mentorees) + Cross(p, mentors[1..], mentorees)
  }

  /** Both left joins, in pairing order. */
  function MergeRows(pairs: seq<Mentorship>, members: seq<Member>): (rows: seq<AuditRow>)
    ensures forall r :: r in rows <==> (r.pairing in pairs
      && r.mentor in LeftMatches(members, r.pairing.mentorUuid)
      && r.mentoree in LeftMatches(members, r.pairing.mentoreeUuid))
  {
    if pairs == [] then []
    else
      var p := pairs[0];
      assert forall q :: q in pairs <==> q == p || q in pairs[1..];
      Cross(p, LeftMatches(members, p.mentorUuid), LeftMatches(members, p.mentoreeUuid))
      + MergeRows(pairs[1..], members)
  }

  /** The mentor rule on a joined row: a missing mentor fails it. */
  predicate MentorHolds(r: AuditRow) {
    r.mentor.Some? && IsMentor(r.mentor.value)
  }

  /** The mentoree rule on a joined row: a missing mentoree fails it. */
  predicate MentoreeHolds(r: AuditRow) {
    r.mentoree.Some? && IsMentoree(r.mentoree.value)
  }

  function FailsMentor(r: AuditRow): bool {
    !MentorHolds(r)
  }

  function FailsMentoree(r: AuditRow): bool {
    !MentoreeHolds(r)
  }

  /** `check_discrepancies`: the joined rows whose mentor breaks the mentor rule and
      those whose mentoree breaks the mentoree rule. */
  function CheckDiscrepancies(pairs: seq<Mentorship>, members: seq<Member>): (d: Discrepancies)
    ensures forall r :: r in d.invalidMentors ==> r.pairing in pairs && !MentorHolds(r)
    ensures forall r :: r in d.invalidMentorees ==> r.pairing in pairs && !MentoreeHolds(r)
  {
    var rows := MergeRows(pairs, members);
    Discrepancies(Select(rows, FailsMentor), Select(rows, FailsMentoree))
  }

  /** A row reported for its mentor joins a uuid that matches no member, or a
      member that breaks the mentor rule. */
  lemma ReportedMentorFails(pairs: seq<Mentorship>, members: seq<Member>, r: AuditRow)
    requires r in CheckDiscrepancies(pairs, members).invalidMentors
    ensures Dangling(members, r.pairing.mentorUuid)
         || exists m :: m in members && m.uuid == r.pairing.mentorUuid && !IsMentor(m)
  {
    assert r in MergeRows(pairs, members);
    if r.mentor.Some? {
      assert r.mentor.value in members;
    }
  }

  /** A pairing whose mentor uuid matches no member, or a member that breaks the
      mentor rule, gets a row among the invalid mentors. */
  lemma FailingMentorReported(pairs: seq<Mentorship>, members: seq<Member>, p: Mentorship)
    requires p in pairs
    requires Dangling(members, p.mentorUuid)
          || exists m :: m in members && m.uuid == p.mentorUuid && !IsMentor(m)
    ensures exists r :: r in CheckDiscrepancies(pairs, members).invalidMentors && r.pairing == p
  {
    var rows := MergeRows(pairs, members);
    var mentorees := LeftMatches(members, p.mentoreeUuid);
    assert mentorees[0] in mentorees;
    var mentor: Option<Member>;
    if Dangling(members, p.mentorUuid) {
      mentor := None;
    } else {
      var m :| m in members && m.uuid == p.mentorUuid && !IsMentor(m);
      mentor := Some(m);
    }
    assert mentor in LeftMatches(members, p.mentorUuid);
    var row := AuditRow(p, mentor, mentorees[0]);
    assert row in rows && FailsMentor(row);
    assert row in CheckDiscrepancies(pairs, members).invalidMentors;
  }

  /** A pairing is reported among the invalid mentors exactly when its mentor uuid
      matches no member or matches a member that breaks the mentor rule. */
  lemma InvalidMentorIff(pairs: seq<Mentorship>, members: seq<Member>, p: Mentorship)
    requires p in pairs
    ensures (exists r :: r in CheckDiscrepancies(pairs, members).invalidMentors && r.pairing == p)
      <==> (Dangling(members, p.mentorUuid)
           || exists m :: m in members && m.uuid == p.mentorUuid && !IsMentor(m))
  {
    if exists r :: r in CheckDiscrepancies(pairs, members).invalidMentors && r.pairing == p {
      var r :| r in CheckDiscrepancies(pairs, members).invalidMentors && r.pairing == p;
      ReportedMentorFails(pairs, members, r);
    }
    if Dangling(members, p.mentorUuid)
       || exists m :: m in members && m.uuid == p.mentorUuid && !IsMentor(m) {
      FailingMentorReported(pairs, members, p);
    }
  }

  /** A row reported for its mentoree joins a uuid that matches no member, or a
      member older than 30. */
  lemma ReportedMentoreeFails(pairs: seq<Mentorship>, members: seq<Member>, r: AuditRow)
    requires r in CheckDiscrepancies(pairs, members).invalidMentorees
    ensures Dangling(members, r.pairing.mentoreeUuid)
         || exists m :: m in members && m.uuid == r.pairing.mentoreeUuid && !IsMentoree(m)
  {
    assert r in MergeRows(pairs, members);
    if r.mentoree.Some? {
      assert r.mentoree.value in members;
    }
  }

  /** A pairing whose mentoree uuid matches no member, or a member older than 30,
      gets a row among the invalid mentorees. */
  lemma FailingMentoreeReported(pairs: seq<Mentorship>, members: seq<Member>, p: Mentorship)
    requires p in pairs
    requires Dangling(members, p.mentoreeUuid)
          || exists m :: m in members && m.uuid == p.mentoreeUuid && !IsMentoree(m)
    ensures exists r :: r in CheckDiscrepancies(pairs, members).invalidMentorees && r.pairing == p
  {
    var rows := MergeRows(pairs, members);
    var mentors := LeftMatches(members, p.mentorUuid);
    assert mentors[0] in mentors;
    var mentoree: Option<Member>;
    if Dangling(members, p.mentoreeUuid) {
      mentoree := None;
    } else {
      var m :| m in members && m.uuid == p.mentoreeUuid && !IsMentoree(m);
      mentoree := Some(m);
    }
    assert mentoree in LeftMatches(members, p.mentoreeUuid);
    var row := AuditRow(p, mentors[0], mentoree);
    assert row in rows && FailsMentoree(row);
    assert row in CheckDiscrepancies(pairs, members).invalidMentorees;
  }

  /** A pairing is reported among the invalid mentorees exactly when its mentoree uuid
      matches no member or matches a member older than 30. */
  lemma InvalidMentoreeIff(pairs: seq<Mentorship>, members: seq<Member>, p: Mentorship)
    requires p in pairs
    ensures (exists r :: r in CheckDiscrepancies(pairs, members).invalidMentorees && r.pairing == p)
      <==> (Dangling(members, p.mentoreeUuid)
           || exists m :: m in members && m.uuid == p.mentoreeUuid && !IsMentoree(m))
  {
    if exists r :: r in CheckDiscrepancies(pairs, members).invalidMentorees && r.pairing == p {
      var r :| r in CheckDiscrepancies(pairs, members).invalidMentorees && r.pairing == p;
      ReportedMentoreeFails(pairs, members, r);
    }
    if Dangling(members, p.mentoreeUuid)
       || exists m :: m in members && m.uuid == p.mentoreeUuid && !IsMentoree(m) {
      FailingMentoreeReported(pairs, members, p);
    }
  }

  /** Every pairing names, as mentor, a member that keeps the mentor rule and, as
      mentoree, a member that keeps the mentoree rule. */
  predicate PairsFollowCohorts(pairs: seq<Mentorship>, members: seq<Member>) {
    forall p :: p in pairs ==>
      && (exists m :: m in members && m.uuid == p.mentorUuid && IsMentor(m))
      && (exists m :: m in members && m.uuid == p.mentoreeUuid && IsMentoree(m))
  }

  /** With unique member uuids, a pairing table drawn from the cohorts gives an empty
      audit on both sides. */
  lemma AuditCleanOnCohortPairs(pairs: seq<Mentorship>, members: seq<Member>)
    requires UniqueUuids(members)
    requires PairsFollowCohorts(pairs, members)
    ensures CheckDiscrepancies(pairs, members) == Discrepancies([], [])
  {
    var d := CheckDiscrepancies(pairs, members);
    if d.invalidMentors != [] {
      var r := d.invalidMentors[0];
      assert r in d.invalidMentors;
      InvalidMentorIff(pairs, members, r.pairing);
      SameUuidSameMember(members, r.pairing.mentorUuid);
      assert false;
    }
    if d.invalidMentorees != [] {
      var r := d.invalidMentorees[0];
      assert r in d.invalidMentorees;
      InvalidMentoreeIff(pairs, members, r.pairing);
      SameUuidSameMember(members, r.pairing.mentoreeUuid);
      assert false;
    }
  }

  /** With unique uuids, two members with the same uuid are the same member. */
  lemma SameUuidSameMember(members: seq<Member>, u: string)
    requires UniqueUuids(members)
    ensures forall m, n :: m in members && n in members && m.uuid == u && n.uuid == u ==> m == n
  {
    forall m, n | m in members && n in members && m.uuid == u && n.uuid == u
      ensures m == n
    {
      var i :| 0 <= i < |members| && members[i] == m;
      var j :| 0 <= j < |members| && members[j] == n;
    }
  }
}
