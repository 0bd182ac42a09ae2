/** The whole run: normalise the raw records, split them into cohorts, pair the
    cohorts round-robin, and compute the two reports and the audit over the result. */
module Pipeline {
  import opened Options
  import opened Sequences
  import opened Members
  import opened Cohorts
  import opened Pairing
  import opened Analytics
  import opened Audit

  /** Every pairing of `pairs` takes its mentor from `mentors` and its mentoree from
      `mentorees`. */
  lemma PairsDrawnFromCohorts(members: seq<Member>, mentors: seq<Member>, mentorees: seq<Member>,
                              pairs: seq<Mentorship>)
    requires multiset(mentors) == multiset(Select(members, IsMentor))
    requires multiset(mentorees) == multiset(Select(members, IsMentoree))
    requires forall i :: 0 <= i < |pairs| ==>
      (exists k :: 0 <= k < |mentors| && pairs[i].mentorUuid == mentors[k].uuid)
      && (exists k :: 0 <= k < |mentorees| && pairs[i].mentoreeUuid == mentorees[k].uuid)
    ensures PairsFollowCohorts(pairs, members)
  {
    forall p | p in pairs
      ensures exists m :: m in members && m.uuid == p.mentorUuid && IsMentor(m)
      ensures exists m :: m in members && m.uuid == p.mentoreeUuid && IsMentoree(m)
    {
      var i :| 0 <= i < |pairs| && pairs[i] == p;
      var k :| 0 <= k < |mentors| && p.mentorUuid == mentors[k].uuid;
      assert mentors[k] in multiset(mentors);
      assert mentors[k] in Select(members, IsMentor);
      var l :| 0 <= l < |mentorees| && p.mentoreeUuid == mentorees[l].uuid;
      assert mentorees[l] in multiset(mentorees);
      assert mentorees[l] in Select(members, IsMentoree);
    }
  }

  /** The cohort lists as arrays the pairing step can sort in place. */
  method ToArray(s: seq<Member>) returns (a: array<Member>)
    ensures fresh(a)
    ensures a[..] == s
  {
    a := new Member[|s|](i requires 0 <= i < |s| => s[i]);
  }

  /** The two reports and the audit, computed once the pairing table is built. */
  datatype Reports = Reports(medianAge: Option<real>, byGender: map<string, nat>, audit: Discrepancies)

  /** One run of the pipeline over the fetched records, with `ids` supplying the
      pairing uuids. An empty pairing table gives a table without columns, the
      first join on it fails and the run stops before any report; otherwise the
      reports are the queries over the result, and when member uuids are unique
      the audit finds nothing. */
  method RunPipeline(raws: seq<RawRecord>, ids: seq<string>)
    returns (members: seq<Member>, skipped: seq<Skip>, pairs: seq<Mentorship>,
             warning: Option<Warning>, reports: Option<Reports>)
    requires |ids| >= |raws|
    ensures members == NormalizeAll(raws) && skipped == SkipsOf(raws)
    ensures pairs == [] <==> Select(members, IsMentor) == [] || Select(members, IsMentoree) == []
    ensures pairs != [] ==> |pairs| == |Select(members, IsMentoree)|
    ensures PairsFollowCohorts(pairs, members)
    ensures reports.None? <==> pairs == []
    ensures reports.Some? ==>
      reports.value == Reports(MedianAgeOfMaleMentorees(members, pairs),
                               TotalMentoreesByGender(pairs, members),
                               CheckDiscrepancies(pairs, members))
    ensures reports.Some? && UniqueUuids(members) ==> reports.value.audit == Discrepancies([], [])
  {
    members, skipped := CreateMembers(raws);
    var mentors, mentorees := FilterMentorsAndMentorees(members);
    var mentorArray := ToArray(mentors);
    var mentoreeArray := ToArray(mentorees);
    pairs, warning := AssignMentorships(mentorArray, mentoreeArray, ids);
    if mentorArray.Length > 0 && mentoreeArray.Length > 0 {
      var n := mentorArray.Length;
      forall i | 0 <= i < |pairs|
        ensures exists k :: 0 <= k < n && pairs[i].mentorUuid == mentorArray[..][k].uuid
        ensures exists k :: 0 <= k < |pairs| && pairs[i].mentoreeUuid == mentoreeArray[..][k].uuid
      {
        assert pairs[i].mentorUuid == mentorArray[..][i % n].uuid;
      }
      PairsDrawnFromCohorts(members, mentorArray[..], mentoreeArray[..], pairs);
    }
    if pairs == [] {
      reports := None;
    } else {
      var audit := CheckDiscrepancies(pairs, members);
      if UniqueUuids(members) {
        AuditCleanOnCohortPairs(pairs, members);
      }
      reports := Some(Reports(MedianAgeOfMaleMentorees(members, pairs),
                              TotalMentoreesByGender(pairs, members), audit));
    }
  }
}
