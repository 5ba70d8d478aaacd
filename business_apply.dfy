/** Business Hackathon applications: one table keyed by email; create
    refuses an email that already applied, delete removes the email's
    application. */
module BusinessApply {
  import opened Store
  import opened Reply

  datatype Application = Application(
    name: string, email: string, phone: string, college: string, ideaBrief: string, teamName: string)

  function EmailOf(a: Application): string { a.email }

  const AlreadyApplied := "You have already applied."
  const Submitted := "Application submitted successfully!"
  const SomethingWrong := "Something went wrong!"
  const Deleted := "Application deleted successfully."

  class EventTable {
    var apps: seq<Application>

    /** At most one application per email. */
    ghost predicate Valid()
      reads this
    {
      Unique(apps, EmailOf)
    }

    constructor ()
      ensures Valid() && apps == []
    {
      apps := [];
    }

    /** checkEventApplication (findFirst) and getSingleEventApplication
        (findUnique): the application with this email, or null. */
    function Check(email: string): (r: Option<Application>)
      reads this
      ensures r.Some? ==> r.value in apps && r.value.email == email
      ensures r.None? <==> forall i :: 0 <= i < |apps| ==> apps[i].email != email
    {
      Find(apps, EmailOf, email)
    }

    /** createEventApplication. storeFails models a rejected insert;
        mailDelivered is the outcome of the email sent without await, which
        the answer does not wait for. */
    method Create(a: Application, storeFails: bool, mailDelivered: bool) returns (out: Outcome<Application>)
      requires Valid()
      modifies this
      ensures Valid()
      ensures Find(old(apps), EmailOf, a.email).Some? ==> out == Duplicate(AlreadyApplied) && apps == old(apps)
      ensures Find(old(apps), EmailOf, a.email).None? && storeFails ==>
        out == ServerError(SomethingWrong) && apps == old(apps)
      ensures Find(old(apps), EmailOf, a.email).None? && !storeFails ==>
        out == Ok(Submitted, a) && apps == old(apps) + [a]
    {
      if Find(apps, EmailOf, a.email).Some? {
        return Duplicate(AlreadyApplied);
      }
      if storeFails {
        return ServerError(SomethingWrong);
      }
      AppendKeepsUnique(apps, EmailOf, a);
      apps := apps + [a];
      out := Ok(Submitted, a);
    }

    /** deleteEventApplication: delete by the unique email. The handler has
        no try/catch, so a missing email leaves the request unanswered. */
    method Delete(email: string, mailDelivered: bool) returns (out: Outcome<Application>)
      requires Valid()
      modifies this
      ensures Valid()
      ensures Find(old(apps), EmailOf, email).None? ==> out == NoResponse && apps == old(apps)
      ensures Find(old(apps), EmailOf, email).Some? ==>
        && out == Ok(Deleted, Find(old(apps), EmailOf, email).value)
        && apps == Remove(old(apps), EmailOf, email)
        && |apps| == |old(apps)| - 1
    {
      var found := Find(apps, EmailOf, email);
      if found.None? {
        return NoResponse;
      }
      RemoveKeepsUnique(apps, EmailOf, email, EmailOf);
      RemoveOne(apps, EmailOf, email);
      apps := Remove(apps, EmailOf, email);
      out := Ok(Deleted, found.value);
    }
  }

  /** Deleting one email leaves every other email's lookup as it was, and the
      deleted email is no longer found. */
  method DeleteIsTargeted(t: EventTable, email: string, other: string)
    returns (out: Outcome<Application>)
    requires t.Valid()
    requires other != email
    modifies t
    ensures t.Check(email).None?
    ensures t.Check(other) == old(t.Check(other))
  {
    FindAfterRemove(t.apps, EmailOf, email, other);
    SelectRemoved(t.apps, EmailOf, email);
    out := t.Delete(email, true);
  }
}
