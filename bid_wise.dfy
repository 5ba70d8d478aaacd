/** Bid-Wise team registration: a duplicate check on the leader's email,
    then validation of the leader's fields and of the members, then one
    insert of the submission projected onto the stored shape. The bidWise
    table is a sequence of registrations. */
module BidWise {
  import opened Store
  import opened Reply
  import opened Decimal

  /** A request body field: absent (None) or a string. */
  type Field = Option<string>

  datatype LeaderInput = LeaderInput(fullName: Field, email: Field, contact: Field, scholarId: Field)
  datatype MemberInput = MemberInput(fullName: Field, email: Field, contact: Field, scholarId: Field)
  datatype Submission = Submission(
    eventId: Field, teamName: Field, college: Field,
    leader: Option<LeaderInput>, members: Option<seq<MemberInput>>)

  datatype Leader = Leader(fullName: string, email: string, contact: string, scholarId: string)
  datatype Member = Member(fullName: string, email: string, scholarId: string)
  datatype Registration = Registration(
    eventId: Field, teamName: Field, college: Field, leader: Leader, members: seq<Member>)

  function LeaderEmail(r: Registration): string { r.leader.email }

  const AlreadyRegistered := "You have already registered for this event."
  const TeamSizeMessage := "Team must have 2\U{2013}4 members."
  const Submitted := "Registration submitted successfully!"
  const Deleted := "Registration deleted successfully."
  const SomethingWrong := "Something went wrong!"
  /** The TypeError thrown by reading leader.email when leader is absent. */
  const NoLeaderError := "Cannot read properties of undefined (reading 'email')"

  /** JavaScript truthiness of a string field: present and not empty. */
  predicate Truthy(v: Field)
  {
    v.Some? && v.value != ""
  }

  function Text(v: Field): string
  {
    if v.Some? then v.value else ""
  }

  const RequiredLeaderFields: seq<string> := ["fullName", "email", "contact", "scholarId"]

  /** leader[field] */
  function LeaderField(l: LeaderInput, name: string): Field
  {
    if name == "fullName" then l.fullName
    else if name == "email" then l.email
    else if name == "contact" then l.contact
    else if name == "scholarId" then l.scholarId
    else None
  }

  predicate LeaderComplete(l: LeaderInput)
  {
    forall i :: 0 <= i < |RequiredLeaderFields| ==> Truthy(LeaderField(l, RequiredLeaderFields[i]))
  }

  /** RequiredLeaderFields[i] is the first required leader field that is missing or empty. */
  predicate FirstMissingLeaderField(l: LeaderInput, i: nat)
  {
    && i < |RequiredLeaderFields|
    && !Truthy(LeaderField(l, RequiredLeaderFields[i]))
    && forall j :: 0 <= j < i ==> Truthy(LeaderField(l, RequiredLeaderFields[j]))
  }

  predicate MemberComplete(m: MemberInput)
  {
    Truthy(m.fullName) && Truthy(m.email) && Truthy(m.scholarId)
  }

  predicate MembersComplete(ms: seq<MemberInput>)
  {
    forall i :: 0 <= i < |ms| ==> MemberComplete(ms[i])
  }

  /** ms[i] is the first member lacking a required field. */
  predicate FirstIncompleteMember(ms: seq<MemberInput>, i: nat)
  {
    && i < |ms|
    && !MemberComplete(ms[i])
    && forall j :: 0 <= j < i ==> MemberComplete(ms[j])
  }

  predicate TeamSizeOk(members: Option<seq<MemberInput>>)
  {
    members.Some? && 2 <= |members.value| <= 4
  }

  function LeaderMessage(field: string): string
  {
    "Leader " + field + " is required."
  }

  /** The error thrown for the member at 0-based index i names it 1-based. */
  function MemberMessage(i: nat): string
  {
    "Member " + DecimalString(i + 1) + " is missing fields."
  }

  /** findFirst({ where: { leader: { email } } }) finds a registration. */
  predicate Registered(regs: seq<Registration>, email: Field)
  {
    email.Some? && Find(regs, LeaderEmail, email.value).Some?
  }

  /** The submission gets past the duplicate check and the leader checks. */
  predicate LeaderAccepted(regs: seq<Registration>, s: Submission)
  {
    s.leader.Some? && !Registered(regs, s.leader.value.email) && LeaderComplete(s.leader.value)
  }

  /** The submission passes every check before the insert. */
  predicate Admissible(regs: seq<Registration>, s: Submission)
  {
    LeaderAccepted(regs, s) && TeamSizeOk(s.members) && MembersComplete(s.members.value)
  }

  function ProjectMember(m: MemberInput): Member
  {
    Member(Text(m.fullName), Text(m.email), Text(m.scholarId))
  }

  /** The data written by bidWise.create: the leader's four fields, and each
      member's fullName, email and scholarId, in order. */
  function Project(s: Submission, l: LeaderInput, ms: seq<MemberInput>): Registration
  {
    Registration(
      s.eventId, s.teamName, s.college,
      Leader(Text(l.fullName), Text(l.email), Text(l.contact), Text(l.scholarId)),
      seq(|ms|, i requires 0 <= i < |ms| => ProjectMember(ms[i])))
  }

  /** The four named checks of the leader loop, spelled out field by field. */
  lemma CompleteLeaderFields(l: LeaderInput)
    requires LeaderComplete(l)
    ensures Truthy(l.fullName) && Truthy(l.email) && Truthy(l.contact) && Truthy(l.scholarId)
  {
    assert Truthy(LeaderField(l, RequiredLeaderFields[0]));
    assert Truthy(LeaderField(l, RequiredLeaderFields[1]));
    assert Truthy(LeaderField(l, RequiredLeaderFields[2]));
    assert Truthy(LeaderField(l, RequiredLeaderFields[3]));
  }

  /** The projection loses nothing that was validated: on an admissible
      submission every stored string is the submitted one, member by member. */
  lemma ProjectionKeepsValidatedFields(s: Submission, l: LeaderInput, ms: seq<MemberInput>)
    requires LeaderComplete(l) && MembersComplete(ms)
    ensures var r := Project(s, l, ms);
      && Some(r.leader.fullName) == l.fullName && Some(r.leader.email) == l.email
      && Some(r.leader.contact) == l.contact && Some(r.leader.scholarId) == l.scholarId
      && |r.members| == |ms|
      && forall k :: 0 <= k < |ms| ==>
           && Some(r.members[k].fullName) == ms[k].fullName
           && Some(r.members[k].email) == ms[k].email
           && Some(r.members[k].scholarId) == ms[k].scholarId
  {
    CompleteLeaderFields(l);
  }

  /** The leader loop: check the required fields in order, stop at the first
      one that is missing or empty. */
  method MissingLeaderField(l: LeaderInput) returns (missing: Option<nat>)
    ensures missing.None? ==> LeaderComplete(l)
    ensures missing.Some? ==> FirstMissingLeaderField(l, missing.value)
  {
    var i := 0;
    while i < |RequiredLeaderFields|
      invariant 0 <= i <= |RequiredLeaderFields|
      invariant forall j :: 0 <= j < i ==> Truthy(LeaderField(l, RequiredLeaderFields[j]))
    {
      if !Truthy(LeaderField(l, RequiredLeaderFields[i])) {
        return Some(i);
      }
      i := i + 1;
    }
    return None;
  }

  /** The members.forEach check: the first member lacking fullName, email or
      scholarId throws. */
  method IncompleteMember(ms: seq<MemberInput>) returns (index: Option<nat>)
    ensures index.None? ==> MembersComplete(ms)
    ensures index.Some? ==> FirstIncompleteMember(ms, index.value)
  {
    var i := 0;
    while i < |ms|
      invariant 0 <= i <= |ms|
      invariant forall j :: 0 <= j < i ==> MemberComplete(ms[j])
    {
      if !MemberComplete(ms[i]) {
        return Some(i);
      }
      i := i + 1;
    }
    return None;
  }

  class BidWiseTable {
    var regs: seq<Registration>

    /** At most one registration per leader email. */
    ghost predicate Valid()
      reads this
    {
      Unique(regs, LeaderEmail)
    }

    constructor ()
      ensures Valid() && regs == []
    {
      regs := [];
    }

    /** checkBidWise and getSingleBidWise: the registration whose leader has
        this email, or null. */
    function Check(email: string): (r: Option<Registration>)
      reads this
      ensures r.Some? ==> r.value in regs && r.value.leader.email == email
      ensures r.None? <==> forall i :: 0 <= i < |regs| ==> regs[i].leader.email != email
    {
      Find(regs, LeaderEmail, email)
    }

    /** createBidWise. storeError is the message of a rejected insert, if the
        store rejects it; mailDelivered is the confirmation email's outcome,
        which the handler ignores. */
    method Create(s: Submission, storeError: Option<string>, mailDelivered: bool)
      returns (out: Outcome<Registration>)
      requires Valid()
      modifies this
      ensures Valid()
      ensures !out.Ok? ==> regs == old(regs)
      ensures s.leader.None? ==> out == ServerError(NoLeaderError)
      ensures s.leader.Some? && Registered(old(regs), s.leader.value.email) ==>
        out == Duplicate(AlreadyRegistered)
      ensures s.leader.Some? && !Registered(old(regs), s.leader.value.email) && !LeaderComplete(s.leader.value) ==>
        exists i: nat :: FirstMissingLeaderField(s.leader.value, i) && out == Invalid(LeaderMessage(RequiredLeaderFields[i]))
      ensures LeaderAccepted(old(regs), s) && !TeamSizeOk(s.members) ==>
        out == Invalid(TeamSizeMessage)
      ensures LeaderAccepted(old(regs), s) && TeamSizeOk(s.members) && !MembersComplete(s.members.value) ==>
        exists i: nat :: FirstIncompleteMember(s.members.value, i) && out == ServerError(MemberMessage(i))
      ensures Admissible(old(regs), s) && storeError.Some? ==>
        out == ServerError(if storeError.value != "" then storeError.value else SomethingWrong)
      ensures out.Ok? <==> Admissible(old(regs), s) && storeError.None?
      ensures out.Ok? ==>
        && out.message == Submitted
        && out.value == Project(s, s.leader.value, s.members.value)
        && regs == old(regs) + [out.value]
    {
      if s.leader.None? {
        return ServerError(NoLeaderError);
      }
      var l := s.leader.value;
      if l.email.Some? && Find(regs, LeaderEmail, l.email.value).Some? {
        return Duplicate(AlreadyRegistered);
      }
      var missing := MissingLeaderField(l);
      if missing.Some? {
        return Invalid(LeaderMessage(RequiredLeaderFields[missing.value]));
      }
      if s.members.None? || |s.members.value| < 2 || |s.members.value| > 4 {
        return Invalid(TeamSizeMessage);
      }
      var ms := s.members.value;
      var bad := IncompleteMember(ms);
      if bad.Some? {
        return ServerError(MemberMessage(bad.value));
      }
      if storeError.Some? {
        return ServerError(if storeError.value != "" then storeError.value else SomethingWrong);
      }
      var rec := Project(s, l, ms);
      CompleteLeaderFields(l);
      AppendKeepsUnique(regs, LeaderEmail, rec);
      regs := regs + [rec];
      out := Ok(Submitted, rec);
    }

    /** deleteBidWise: deleteMany by leader email; the answer carries the
        number of rows deleted. storeFails models the deleteMany being
        rejected, which the handler answers with a 500. */
    method Delete(email: string, storeFails: bool, mailDelivered: bool) returns (out: Outcome<nat>)
      requires Valid()
      modifies this
      ensures Valid()
      ensures storeFails ==> out == ServerError(SomethingWrong) && regs == old(regs)
      ensures !storeFails ==>
        && regs == Remove(old(regs), LeaderEmail, email)
        && out == Ok(Deleted, |old(regs)| - |regs|)
        && |regs| == |old(regs)| - (if Find(old(regs), LeaderEmail, email).Some? then 1 else 0)
    {
      if storeFails {
        return ServerError(SomethingWrong);
      }
      RemoveKeepsUnique(regs, LeaderEmail, email, LeaderEmail);
      if Find(regs, LeaderEmail, email).Some? {
        RemoveOne(regs, LeaderEmail, email);
      } else {
        RemoveAbsent(regs, LeaderEmail, email);
      }
      var before := |regs|;
      regs := Remove(regs, LeaderEmail, email);
      out := Ok(Deleted, before - |regs|);
    }
  }

  /** Registering the same admissible submission twice: the first succeeds
      and adds one row, the second is rejected as a duplicate and adds none. */
  method RegisterTwice(t: BidWiseTable, s: Submission)
    returns (first: Outcome<Registration>, second: Outcome<Registration>)
    requires t.Valid()
    requires Admissible(t.regs, s)
    modifies t
    ensures first.Ok? && second == Duplicate(AlreadyRegistered)
    ensures |t.regs| == |old(t.regs)| + 1
  {
    first := t.Create(s, None, true);
    var l := s.leader.value;
    CompleteLeaderFields(l);
    FindAppend(old(t.regs), LeaderEmail, l.email.value, first.value);
    second := t.Create(s, None, true);
  }
}
