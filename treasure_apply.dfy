/** Treasure Hunt applications: one table keyed by email; create refuses an
    email that already applied, delete removes the email's application. */
module TreasureApply {
  import opened Store
  import opened Reply

  datatype Application = Application(
    email: string, name: string, phone: string, college: string, ideaBrief: string, teamName: string)

  function EmailOf(a: Application): string { a.email }

  const AlreadyApplied := "You have already applied."
  const Submitted := "Application submitted successfully!"
  const SomethingWrong := "Something went wrong!"
  const Deleted := "Application deleted successfully."
  const DeleteFailed := "Failed to delete application."

  class TreasureTable {
    var apps: seq<Application>

    /** At most one application per email. */
    ghost predicate Valid()
      reads this
    {
      Unique(apps, EmailOf)
    }

    constructor ()
      ensures Valid() && apps == []
    {
      apps := [];
    }

    /** checkTreasureApplication: the application with this email, or null. */
    function Check(email: string): (r: Option<Application>)
      reads this
      ensures r.Some? ==> r.value in apps && r.value.email == email
      ensures r.None? <==> forall i :: 0 <= i < |apps| ==> apps[i].email != email
    {
      Find(apps, EmailOf, email)
    }

    /** createTreasureApplication: the six submitted fields are stored as they
        are. storeFails models a rejected insert; mailDelivered is what the
        awaited sendEmail returned, which never throws and is not looked at. */
    method Create(a: Application, storeFails: bool, mailDelivered: bool) returns (out: Outcome<Application>)
      requires Valid()
      modifies this
      ensures Valid()
      ensures Find(old(apps), EmailOf, a.email).Some? ==> out == Duplicate(AlreadyApplied) && apps == old(apps)
      ensures Find(old(apps), EmailOf, a.email).None? && storeFails ==>
        out == ServerError(SomethingWrong) && apps == old(apps)
      ensures Find(old(apps), EmailOf, a.email).None? && !storeFails ==>
        out == Ok(Submitted, a) && apps == old(apps) + [a]
    {
      if Find(apps, EmailOf, a.email).Some? {
        return Duplicate(AlreadyApplied);
      }
      if storeFails {
        return ServerError(SomethingWrong);
      }
      AppendKeepsUnique(apps, EmailOf, a);
      apps := apps + [a];
      out := Ok(Submitted, a);
    }

    /** deleteTreasureApplication: delete by the unique email; a missing
        email makes the delete reject, which the handler reports as a 500. */
    method Delete(email: string, mailDelivered: bool) returns (out: Outcome<Application>)
      requires Valid()
      modifies this
      ensures Valid()
      ensures Find(old(apps), EmailOf, email).None? ==> out == ServerError(DeleteFailed) && apps == old(apps)
      ensures Find(old(apps), EmailOf, email).Some? ==>
        && out == Ok(Deleted, Find(old(apps), EmailOf, email).value)
        && apps == Remove(old(apps), EmailOf, email)
        && |apps| == |old(apps)| - 1
    {
      var found := Find(apps, EmailOf, email);
      if found.None? {
        return ServerError(DeleteFailed);
      }
      RemoveKeepsUnique(apps, EmailOf, email, EmailOf);
      RemoveOne(apps, EmailOf, email);
      apps := Remove(apps, EmailOf, email);
      out := Ok(Deleted, found.value);
    }
  }

  /** Applying twice with one email: the first is stored, the second is
      refused and stores nothing, whatever its other fields. */
  method ApplyTwice(t: TreasureTable, a: Application, b: Application)
    returns (first: Outcome<Application>, second: Outcome<Application>)
    requires t.Valid()
    requires t.Check(a.email).None?
    requires b.email == a.email
    modifies t
    ensures first == Ok(Submitted, a) && second == Duplicate(AlreadyApplied)
    ensures t.apps == old(t.apps) + [a]
  {
    first := t.Create(a, false, true);
    FindAppend(old(t.apps), EmailOf, a.email, a);
    second := t.Create(b, false, false);
  }
}
