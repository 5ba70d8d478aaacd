/** Adovation applications: three related tables (applications, their
    leaders, their members). An application is created together with its
    leader and members in one nested write; leaders are looked up by email. */
module Adovation {
  import opened Store
  import opened Reply

  /** A person as submitted for the leader or a member. */
  datatype Person = Person(fullName: string, email: string, contact: string, scholarId: string)

  datatype Submission = Submission(
    teamName: string, college: string, leader: Option<Person>, members: Option<seq<Person>>)

  datatype Application = Application(id: nat, teamName: string, college: string)
  /** A leader or member row, linked to its application by adovationId. */
  datatype PersonRow = PersonRow(fullName: string, email: string, contact: string, scholarId: string, adovationId: nat)

  /** What the nested create returns: the application with its leader and members. */
  datatype Created = Created(application: Application, leader: PersonRow, members: seq<PersonRow>)

  function AppId(a: Application): nat { a.id }
  function RowEmail(p: PersonRow): string { p.email }

  const AlreadySubmitted := "You have already submitted an application."
  const Registered := "Registration successful!"
  const SomethingWrong := "Something went wrong."
  const NoApplication := "No application found."
  const DeletedMessage := "Deleted successfully."

  function Row(p: Person, id: nat): PersonRow
  {
    PersonRow(p.fullName, p.email, p.contact, p.scholarId, id)
  }

  /** members.map(...) of the nested create, linked to application id. */
  function Rows(ms: seq<Person>, id: nat): (rows: seq<PersonRow>)
    ensures |rows| == |ms|
    ensures forall k :: 0 <= k < |ms| ==> rows[k] == Row(ms[k], id)
  {
    seq(|ms|, k requires 0 <= k < |ms| => Row(ms[k], id))
  }

  /** Every row of the three tables refers to an id below nextId, and leader
      emails are unique (the handler's own check keeps them so). */
  ghost predicate WellFormed(apps: seq<Application>, leaders: seq<PersonRow>, members: seq<PersonRow>, nextId: nat)
  {
    && Unique(apps, AppId)
    && Unique(leaders, RowEmail)
    && (forall i :: 0 <= i < |apps| ==> apps[i].id < nextId)
    && (forall i :: 0 <= i < |leaders| ==> leaders[i].adovationId < nextId)
    && (forall i :: 0 <= i < |members| ==> members[i].adovationId < nextId)
  }

  /** The rows linked to one application id. */
  function Linked(rows: seq<PersonRow>, id: nat): seq<PersonRow>
  {
    Select(rows, (p: PersonRow) => p.adovationId, id)
  }

  /** The rows of a fresh id are exactly the ones the nested create adds:
      one leader row and the members in order, all linked to the new
      application, and none before. */
  lemma {:induction false} NestedCreateLinks(leaders: seq<PersonRow>, members: seq<PersonRow>, nextId: nat,
                                             leader: Person, ms: seq<Person>)
    requires forall i :: 0 <= i < |leaders| ==> leaders[i].adovationId < nextId
    requires forall i :: 0 <= i < |members| ==> members[i].adovationId < nextId
    ensures Linked(leaders + [Row(leader, nextId)], nextId) == [Row(leader, nextId)]
    ensures Linked(members + Rows(ms, nextId), nextId) == Rows(ms, nextId)
  {
    NoneLinked(leaders, nextId);
    SelectAppend(leaders, (p: PersonRow) => p.adovationId, nextId, Row(leader, nextId));
    NoneLinked(members, nextId);
    LinkedAppendAll(members, Rows(ms, nextId), nextId);
  }

  lemma {:induction false} NoneLinked(rows: seq<PersonRow>, id: nat)
    requires forall i :: 0 <= i < |rows| ==> rows[i].adovationId < id
    ensures Linked(rows, id) == []
  {
    if |rows| > 0 {
      NoneLinked(rows[1..], id);
    }
  }

  lemma {:induction false} LinkedAppendAll(rows: seq<PersonRow>, added: seq<PersonRow>, id: nat)
    requires forall k :: 0 <= k < |added| ==> added[k].adovationId == id
    ensures Linked(rows + added, id) == Linked(rows, id) + added
  {
    if |added| > 0 {
      var init := added[..|added| - 1];
      var last := added[|added| - 1];
      LinkedAppendAll(rows, init, id);
      assert rows + added == (rows + init) + [last];
      assert added == init + [last];
      SelectAppend(rows + init, (p: PersonRow) => p.adovationId, id, last);
    } else {
      assert rows + added == rows;
    }
  }

  class AdovationTables {
    var apps: seq<Application>
    var leaders: seq<PersonRow>
    var members: seq<PersonRow>
    var nextId: nat

    ghost predicate Valid()
      reads this
    {
      WellFormed(apps, leaders, members, nextId)
    }

    constructor ()
      ensures Valid() && apps == [] && leaders == [] && members == []
    {
      apps, leaders, members := [], [], [];
      nextId := 0;
    }

    /** checkAdovationApplication: true exactly when a leader has this email. */
    function Check(email: string): (r: bool)
      reads this
      ensures r <==> exists i :: 0 <= i < |leaders| && leaders[i].email == email
    {
      Find(leaders, RowEmail, email).Some?
    }

    /** createAdovationApplication. storeFails models the nested create being
        rejected; it is one write, so then no table changes. */
    method Create(s: Submission, storeFails: bool) returns (out: Outcome<Created>)
      requires Valid()
      modifies this
      ensures Valid()
      ensures !out.Ok? ==>
        apps == old(apps) && leaders == old(leaders) && members == old(members) && nextId == old(nextId)
      ensures s.leader.None? ==> out == ServerError(SomethingWrong)
      ensures s.leader.Some? && Find(old(leaders), RowEmail, s.leader.value.email).Some? ==>
        out == Duplicate(AlreadySubmitted)
      ensures s.leader.Some? && Find(old(leaders), RowEmail, s.leader.value.email).None?
              && (s.members.None? || storeFails) ==>
        out == ServerError(SomethingWrong)
      ensures out.Ok? <==>
        s.leader.Some? && Find(old(leaders), RowEmail, s.leader.value.email).None? && s.members.Some? && !storeFails
      ensures out.Ok? ==>
        var id := old(nextId);
        && out.message == Registered
        && out.value == Created(Application(id, s.teamName, s.college), Row(s.leader.value, id), Rows(s.members.value, id))
        && apps == old(apps) + [out.value.application]
        && leaders == old(leaders) + [out.value.leader]
        && members == old(members) + out.value.members
        && nextId == id + 1
        && Linked(leaders, id) == [out.value.leader]
        && Linked(members, id) == out.value.members
    {
      if s.leader.None? {
        return ServerError(SomethingWrong);
      }
      var leader := s.leader.value;
      if Find(leaders, RowEmail, leader.email).Some? {
        return Duplicate(AlreadySubmitted);
      }
      if s.members.None? || storeFails {
        return ServerError(SomethingWrong);
      }
      var id := nextId;
      var app := Application(id, s.teamName, s.college);
      var created := Created(app, Row(leader, id), Rows(s.members.value, id));
      NestedCreateLinks(leaders, members, id, leader, s.members.value);
      AppendKeepsUnique(apps, AppId, app);
      AppendKeepsUnique(leaders, RowEmail, created.leader);
      apps, leaders, members := apps + [app], leaders + [created.leader], members + created.members;
      nextId := id + 1;
      out := Ok(Registered, created);
    }

    /** deleteAdovationApplication: find the leader by email, then delete the
        application it links to. The delete rejects when no application has
        that id, and the handler has no try/catch, so no response is sent. */
    method Delete(leaderEmail: string) returns (out: Outcome<Application>)
      requires Valid()
      modifies this
      ensures Valid()
      ensures leaders == old(leaders) && members == old(members) && nextId == old(nextId)
      ensures Find(old(leaders), RowEmail, leaderEmail).None? ==>
        out == NotFound(NoApplication) && apps == old(apps)
      ensures Find(old(leaders), RowEmail, leaderEmail).Some? ==>
        var id := Find(old(leaders), RowEmail, leaderEmail).value.adovationId;
        if Find(old(apps), AppId, id).None? then out == NoResponse && apps == old(apps)
        else out == Ok(DeletedMessage, Find(old(apps), AppId, id).value)
             && apps == Remove(old(apps), AppId, id)
             && |apps| == |old(apps)| - 1
    {
      var leader := Find(leaders, RowEmail, leaderEmail);
      if leader.None? {
        return NotFound(NoApplication);
      }
      var id := leader.value.adovationId;
      var app := Find(apps, AppId, id);
      if app.None? {
        return NoResponse;
      }
      RemoveKeepsUnique(apps, AppId, id, AppId);
      RemoveOne(apps, AppId, id);
      apps := Remove(apps, AppId, id);
      out := Ok(DeletedMessage, app.value);
    }
  }
}
