/** Record normalisation: raw user records from the data source become member
    records, one per well-formed input record, in input order. */
module Members {
  import opened Options
  import opened Timestamps

  /** A raw user record as the data source returns it. Each required key is
      `None` when the record lacks it; nested keys are flattened to one field each. */
  datatype RawRecord = RawRecord(
    loginUuid: Option<string>,       // login.uuid
    firstName: Option<string>,       // name.first
    lastName: Option<string>,        // name.last
    email: Option<string>,           // email
    age: Option<int>,                // dob.age
    gender: Option<string>,          // gender
    idValue: Option<string>,         // id.value
    registeredDate: Option<string>,  // registered.date, ISO-8601 text
    streetNumber: Option<string>,    // location.street.number, as text
    streetName: Option<string>,      // location.street.name
    postcode: Option<string>,        // location.postcode, as text
    city: Option<string>)            // location.city

  /** The required keys, in the order the record is read. */
  datatype Key = LoginUuid | FirstName | LastName | Email | Age | Gender | IdValue
               | RegisteredDate | StreetNumber | StreetName | Postcode | City

  predicate Present(r: RawRecord, k: Key) {
    match k
    case LoginUuid => r.loginUuid.Some?
    case FirstName => r.firstName.Some?
    case LastName => r.lastName.Some?
    case Email => r.email.Some?
    case Age => r.age.Some?
    case Gender => r.gender.Some?
    case IdValue => r.idValue.Some?
    case RegisteredDate => r.registeredDate.Some?
    case StreetNumber => r.streetNumber.Some?
    case StreetName => r.streetName.Some?
    case Postcode => r.postcode.Some?
    case City => r.city.Some?
  }

  /** The position of each key in the order the record is read. */
  function ReadOrder(k: Key): nat {
    match k
    case LoginUuid => 0
    case FirstName => 1
    case LastName => 2
    case Email => 3
    case Age => 4
    case Gender => 5
    case IdValue => 6
    case RegisteredDate => 7
    case StreetNumber => 8
    case StreetName => 9
    case Postcode => 10
    case City => 11
  }

  predicate HasAllKeys(r: RawRecord) {
    && r.loginUuid.Some? && r.firstName.Some? && r.lastName.Some? && r.email.Some?
    && r.age.Some? && r.gender.Some? && r.idValue.Some? && r.registeredDate.Some?
    && r.streetNumber.Some? && r.streetName.Some? && r.postcode.Some? && r.city.Some?
  }

  /** The first required key, in reading order, that the record lacks. */
  function FirstMissing(r: RawRecord): (k: Option<Key>)
    ensures k.None? <==> HasAllKeys(r)
    ensures k.Some? ==> !Present(r, k.value)
  {
    if r.loginUuid.None? then Some(LoginUuid)
    else if r.firstName.None? then Some(FirstName)
    else if r.lastName.None? then Some(LastName)
    else if r.email.None? then Some(Email)
    else if r.age.None? then Some(Age)
    else if r.gender.None? then Some(Gender)
    else if r.idValue.None? then Some(IdValue)
    else if r.registeredDate.None? then Some(RegisteredDate)
    else if r.streetNumber.None? then Some(StreetNumber)
    else if r.streetName.None? then Some(StreetName)
    else if r.postcode.None? then Some(Postcode)
    else if r.city.None? then Some(City)
    else None
  }

  /** The key reported missing is the first one lacking in reading order: every key
      read before it is present. */
  lemma FirstMissingIsFirst(r: RawRecord)
    requires FirstMissing(r).Some?
    ensures forall j :: ReadOrder(j) < ReadOrder(FirstMissing(r).value) ==> Present(r, j)
  {
  }

  /** Why a record was skipped: the first key found missing, or a date that does not parse. */
  datatype SkipReason = MissingKey(key: Key) | UnparsableDate(text: string)

  /** A skipped record: its position in the input and the reason. */
  datatype Skip = Skip(index: nat, reason: SkipReason)

  /** A normalised member record. */
  datatype Member = Member(
    uuid: string,
    fullname: string,
    email: string,
    age: int,
    gender: string,
    id: string,
    registered: Timestamp,
    address: string)

  /** No two members share a uuid. */
  predicate UniqueUuids(members: seq<Member>) {
    forall i, j :: 0 <= i < |members| && 0 <= j < |members| && members[i].uuid == members[j].uuid ==> i == j
  }

  /** The `Member` constructor applied to the keys of one raw record. */
  function Normalize(r: RawRecord): (res: Result<Member, SkipReason>)
    ensures res.Ok? <==> HasAllKeys(r) && Parse(r.registeredDate.value).Some?
    ensures res.Err? && res.error.MissingKey? ==> !Present(r, res.error.key)
    ensures res.Err? && res.error.UnparsableDate? ==>
      HasAllKeys(r) && res.error.text == r.registeredDate.value && Parse(res.error.text).None?
  {
    match FirstMissing(r)
    case Some(k) => Err(MissingKey(k))
    case None =>
      var street := r.streetNumber.value + " " + r.streetName.value;
      match Parse(r.registeredDate.value)
      case None => Err(UnparsableDate(r.registeredDate.value))
      case Some(t) =>
        Ok(Member(r.loginUuid.value, r.firstName.value + " " + r.lastName.value,
                  r.email.value, r.age.value, r.gender.value, r.idValue.value, t,
                  street + ", " + r.postcode.value + " " + r.city.value))
  }

  /** The derived fields: the full name is first and last name joined by a space,
      the address is "<number> <street>, <postcode> <city>", the registration date
      is the parsed timestamp, and the other fields are copied. */
  lemma NormalizedFields(r: RawRecord)
    requires Normalize(r).Ok?
    ensures var m := Normalize(r).value;
      && m.uuid == r.loginUuid.value
      && m.fullname == r.firstName.value + " " + r.lastName.value
      && m.email == r.email.value
      && m.age == r.age.value
      && m.gender == r.gender.value
      && m.id == r.idValue.value
      && Parse(r.registeredDate.value) == Some(m.registered)
      && m.address == r.streetNumber.value + " " + r.streetName.value + ", "
                      + r.postcode.value + " " + r.city.value
  {
  }

  /** What normalising each record of `raws` gives, in input order. */
  function Outcomes(raws: seq<RawRecord>): (outs: seq<Result<Member, SkipReason>>)
    ensures |outs| == |raws|
  {
    if raws == [] then [] else [Normalize(raws[0])] + Outcomes(raws[1..])
  }

  lemma {:induction false} OutcomeAt(raws: seq<RawRecord>, i: nat)
    requires i < |raws|
    ensures Outcomes(raws)[i] == Normalize(raws[i])
  {
    if i > 0 {
      OutcomeAt(raws[1..], i - 1);
    }
  }

  lemma {:induction false} OutcomesConcat(a: seq<RawRecord>, b: seq<RawRecord>)
    ensures Outcomes(a + b) == Outcomes(a) + Outcomes(b)
  {
    if a == [] {
      assert a + b == b;
    } else {
      assert (a + b)[1..] == a[1..] + b;
      OutcomesConcat(a[1..], b);
    }
  }

  /** The members among a list of outcomes, in order. */
  function Kept(outs: seq<Result<Member, SkipReason>>): (members: seq<Member>)
    ensures |members| <= |outs|
  {
    if outs == [] then []
    else (if outs[0].Ok? then [outs[0].value] else []) + Kept(outs[1..])
  }

  /** The skip reports among a list of outcomes: one per failure, with its position,
      in order. */
  function Rejected(outs: seq<Result<Member, SkipReason>>): seq<Skip> {
    if outs == [] then []
    else
      var last := |outs| - 1;
      Rejected(outs[..last]) + (if outs[last].Err? then [Skip(last, outs[last].error)] else [])
  }

  /** The members the well-formed records of `raws` become, in input order. */
  function NormalizeAll(raws: seq<RawRecord>): (members: seq<Member>)
    ensures |members| <= |raws|
  {
    Kept(Outcomes(raws))
  }

  /** The skip reports for `raws`: one per record that does not normalise, with its
      index, in input order. */
  function SkipsOf(raws: seq<RawRecord>): seq<Skip> {
    Rejected(Outcomes(raws))
  }

  lemma {:induction false} KeptConcat(a: seq<Result<Member, SkipReason>>, b: seq<Result<Member, SkipReason>>)
    ensures Kept(a + b) == Kept(a) + Kept(b)
  {
    if a == [] {
      assert a + b == b;
    } else {
      assert (a + b)[0] == a[0];
      assert (a + b)[1..] == a[1..] + b;
      KeptConcat(a[1..], b);
    }
  }

  /** Normalisation is record by record: a batch's members are its parts' members. */
  lemma NormalizeAllConcat(a: seq<RawRecord>, b: seq<RawRecord>)
    ensures NormalizeAll(a + b) == NormalizeAll(a) + NormalizeAll(b)
  {
    OutcomesConcat(a, b);
    KeptConcat(Outcomes(a), Outcomes(b));
  }

  /** A bad record is dropped and nothing else changes: the records after it are
      still processed. */
  lemma BadRecordIsSkipped(a: seq<RawRecord>, bad: RawRecord, b: seq<RawRecord>)
    requires Normalize(bad).Err?
    ensures NormalizeAll(a + [bad] + b) == NormalizeAll(a + b)
  {
    assert NormalizeAll([bad]) == [] by {
      assert Outcomes([bad])[1..] == [];
    }
    NormalizeAllConcat(a, [bad]);
    NormalizeAllConcat(a + [bad], b);
    NormalizeAllConcat(a, b);
  }

  lemma {:induction false} KeptMembers(outs: seq<Result<Member, SkipReason>>, m: Member)
    ensures m in Kept(outs) <==> exists i :: 0 <= i < |outs| && outs[i] == Ok(m)
  {
    if outs != [] {
      KeptMembers(outs[1..], m);
      if exists i :: 0 <= i < |outs| && outs[i] == Ok(m) {
        var i :| 0 <= i < |outs| && outs[i] == Ok(m);
        if i > 0 {
          assert outs[1..][i - 1] == outs[i];
        }
      }
      if exists i :: 0 <= i < |outs| - 1 && outs[1..][i] == Ok(m) {
        var i :| 0 <= i < |outs| - 1 && outs[1..][i] == Ok(m);
        assert outs[i + 1] == outs[1..][i];
      }
    }
  }

  /** A member comes out exactly when some input record normalises to it. */
  lemma NormalizeAllMembers(raws: seq<RawRecord>, m: Member)
    ensures m in NormalizeAll(raws) <==> exists i :: 0 <= i < |raws| && Normalize(raws[i]) == Ok(m)
  {
    var outs := Outcomes(raws);
    KeptMembers(outs, m);
    if exists i :: 0 <= i < |outs| && outs[i] == Ok(m) {
      var i :| 0 <= i < |outs| && outs[i] == Ok(m);
      OutcomeAt(raws, i);
    }
    if exists i :: 0 <= i < |raws| && Normalize(raws[i]) == Ok(m) {
      var i :| 0 <= i < |raws| && Normalize(raws[i]) == Ok(m);
      OutcomeAt(raws, i);
    }
  }

  /** Every member's registration date is a real calendar instant. */
  lemma NormalizedDatesValid(raws: seq<RawRecord>)
    ensures forall m :: m in NormalizeAll(raws) ==> Valid(m.registered)
  {
    forall m | m in NormalizeAll(raws)
      ensures Valid(m.registered)
    {
      NormalizeAllMembers(raws, m);
      var i :| 0 <= i < |raws| && Normalize(raws[i]) == Ok(m);
      NormalizedFields(raws[i]);
    }
  }

  lemma {:induction false} KeptAndRejected(outs: seq<Result<Member, SkipReason>>)
    ensures |Kept(outs)| + |Rejected(outs)| == |outs|
  {
    if outs != [] {
      var last := |outs| - 1;
      KeptAndRejected(outs[..last]);
      assert outs == outs[..last] + [outs[last]];
      KeptConcat(outs[..last], [outs[last]]);
      assert [outs[last]][1..] == [];
    }
  }

  /** Every record is accounted for exactly once: as a member or as a skip. */
  lemma EveryRecordAccountedFor(raws: seq<RawRecord>)
    ensures |NormalizeAll(raws)| + |SkipsOf(raws)| == |raws|
  {
    KeptAndRejected(Outcomes(raws));
  }

  /** Each report names a failing outcome and its reason. */
  lemma {:induction false} RejectedNamesFailures(outs: seq<Result<Member, SkipReason>>)
    ensures forall k :: 0 <= k < |Rejected(outs)| ==>
      Rejected(outs)[k].index < |outs| && outs[Rejected(outs)[k].index] == Err(Rejected(outs)[k].reason)
  {
    if outs != [] {
      var last := |outs| - 1;
      var init := outs[..last];
      RejectedNamesFailures(init);
      var before := Rejected(init);
      assert forall k :: 0 <= k < |before| ==> outs[before[k].index] == init[before[k].index];
    }
  }

  /** Reports come in increasing input order, and below the input length. */
  lemma {:induction false} RejectedInOrder(outs: seq<Result<Member, SkipReason>>)
    ensures forall k :: 0 <= k < |Rejected(outs)| ==> Rejected(outs)[k].index < |outs|
    ensures forall k, l :: 0 <= k < l < |Rejected(outs)| ==>
      Rejected(outs)[k].index < Rejected(outs)[l].index
  {
    if outs != [] {
      var last := |outs| - 1;
      RejectedInOrder(outs[..last]);
    }
  }

  /** Every failing outcome is reported. */
  lemma {:induction false} RejectedComplete(outs: seq<Result<Member, SkipReason>>)
    ensures forall i :: 0 <= i < |outs| && outs[i].Err? ==>
      exists k :: 0 <= k < |Rejected(outs)| && Rejected(outs)[k].index == i
  {
    if outs != [] {
      var last := |outs| - 1;
      var init := outs[..last];
      RejectedComplete(init);
      var before := Rejected(init);
      var here := if outs[last].Err? then [Skip(last, outs[last].error)] else [];
      assert Rejected(outs) == before + here;
      forall i | 0 <= i < |outs| && outs[i].Err?
        ensures exists k :: 0 <= k < |Rejected(outs)| && Rejected(outs)[k].index == i
      {
        if i < last {
          assert init[i] == outs[i];
          var k :| 0 <= k < |before| && before[k].index == i;
          assert Rejected(outs)[k] == before[k];
          assert 0 <= k < |Rejected(outs)| && Rejected(outs)[k].index == i;
        } else {
          assert here == [Skip(last, outs[last].error)];
          var k := |before|;
          assert Rejected(outs)[k] == here[0];
          assert 0 <= k < |Rejected(outs)| && Rejected(outs)[k].index == i;
        }
      }
    }
  }

  /** One more outcome adds its member or its report at the end. */
  lemma StepOutcomes(outs: seq<Result<Member, SkipReason>>, index: nat)
    requires index < |outs|
    ensures Kept(outs[..index + 1])
         == Kept(outs[..index]) + (if outs[index].Ok? then [outs[index].value] else [])
    ensures Rejected(outs[..index + 1])
         == Rejected(outs[..index]) + (if outs[index].Err? then [Skip(index, outs[index].error)] else [])
  {
    var o := outs[index];
    assert outs[..index + 1] == outs[..index] + [o];
    assert outs[..index + 1][..index] == outs[..index];
    KeptConcat(outs[..index], [o]);
    assert [o][1..] == [];
  }

  /** The skip reports are exact: each names a record that does not normalise and
      the reason, they are in input order, and every such record is reported. */
  lemma SkipsAreExact(raws: seq<RawRecord>)
    ensures forall k :: 0 <= k < |SkipsOf(raws)| ==>
      SkipsOf(raws)[k].index < |raws|
      && Normalize(raws[SkipsOf(raws)[k].index]) == Err(SkipsOf(raws)[k].reason)
    ensures forall k, l :: 0 <= k < l < |SkipsOf(raws)| ==>
      SkipsOf(raws)[k].index < SkipsOf(raws)[l].index
    ensures forall i :: 0 <= i < |raws| && Normalize(raws[i]).Err? ==>
      exists k :: 0 <= k < |SkipsOf(raws)| && SkipsOf(raws)[k].index == i
  {
    var outs := Outcomes(raws);
    RejectedNamesFailures(outs);
    RejectedInOrder(outs);
    RejectedComplete(outs);
    forall k | 0 <= k < |SkipsOf(raws)|
      ensures Normalize(raws[SkipsOf(raws)[k].index]) == Err(SkipsOf(raws)[k].reason)
    {
      OutcomeAt(raws, SkipsOf(raws)[k].index);
    }
    forall i | 0 <= i < |raws| && Normalize(raws[i]).Err?
      ensures exists k :: 0 <= k < |SkipsOf(raws)| && SkipsOf(raws)[k].index == i
    {
      OutcomeAt(raws, i);
      assert outs[i].Err?;
      var k :| 0 <= k < |Rejected(outs)| && Rejected(outs)[k].index == i;
      assert SkipsOf(raws)[k].index == i;
    }
  }

  /** `create_members`: every record is read in turn; one that lacks a key or
      whose date does not parse is reported and skipped, and the loop goes on. */
  method CreateMembers(raws: seq<RawRecord>) returns (members: seq<Member>, skipped: seq<Skip>)
    ensures members == NormalizeAll(raws)
    ensures skipped == SkipsOf(raws)
    ensures |members| + |skipped| == |raws|
  {
    ghost var outs := Outcomes(raws);
    members, skipped := [], [];
    var index := 0;
    while index < |raws|
      invariant index <= |raws|
      invariant members == Kept(outs[..index])
      invariant skipped == Rejected(outs[..index])
    {
      var outcome := Normalize(raws[index]);
      OutcomeAt(raws, index);
      StepOutcomes(outs, index);
      if outcome.Ok? {
        members := members + [outcome.value];
      } else {
        skipped := skipped + [Skip(index, outcome.error)];
      }
      index := index + 1;
    }
    assert outs[..index] == outs;
    EveryRecordAccountedFor(raws);
  }
}
