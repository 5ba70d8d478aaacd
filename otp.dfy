/** One-time codes per email address: sendOtp issues a code (superseding any
    earlier one and arming a five-minute expiry for this issuance),
    verifyOtp checks a submitted code and consumes it on a match.
    The otp table is a sequence of entries; the random code is a parameter
    and the timer is an explicit call to Expire. */
module Otp {
  import opened Store
  import opened Decimal
  import opened Reply

  datatype OtpEntry = OtpEntry(id: nat, email: string, otp: string)

  function EmailOf(e: OtpEntry): string { e.email }
  function IdOf(e: OtpEntry): nat { e.id }

  const OtpSent := "OTP sent successfully"
  const InternalError := "Internal server error"
  const OtpNotFound := "OTP not found"
  const OtpNotMatched := "OTP not matched"
  const OtpVerified := "OTP verified successfully"

  /** The table invariant: at most one entry per email, ids distinct and
      below the next id to hand out. */
  ghost predicate WellFormed(entries: seq<OtpEntry>, nextId: nat)
  {
    && Unique(entries, EmailOf)
    && Unique(entries, IdOf)
    && forall i :: 0 <= i < |entries| ==> entries[i].id < nextId
  }

  /** The table after a successful sendOtp: deleteMany by email, then create. */
  function AfterIssue(entries: seq<OtpEntry>, id: nat, email: string, otp: string): seq<OtpEntry>
  {
    Remove(entries, EmailOf, email) + [OtpEntry(id, email, otp)]
  }

  /** The code Math.floor(100000 + Math.random() * 900000) produces, as text,
      has six digits and no leading zero. */
  lemma CodeShape(code: nat)
    requires 100000 <= code <= 999999
    ensures |DecimalString(code)| == 6 && AllDigits(DecimalString(code))
    ensures DecimalString(code)[0] != '0'
  {
    assert Pow10(5) == 100000 && Pow10(6) == 1000000;
    DecimalLength(code, 5);
    DecimalLeadingDigit(code);
  }

  /** Issuing keeps the invariant. */
  lemma IssueKeepsWellFormed(entries: seq<OtpEntry>, nextId: nat, email: string, otp: string)
    requires WellFormed(entries, nextId)
    ensures WellFormed(AfterIssue(entries, nextId, email, otp), nextId + 1)
  {
    var rest := Remove(entries, EmailOf, email);
    var e := OtpEntry(nextId, email, otp);
    RemoveKeepsUnique(entries, EmailOf, email, EmailOf);
    RemoveKeepsUnique(entries, EmailOf, email, IdOf);
    AppendKeepsUnique(rest, EmailOf, e);
    AppendKeepsUnique(rest, IdOf, e);
  }

  /** A store failure after the deleteMany leaves a smaller table that still
      keeps the invariant. */
  lemma RemoveEmailKeepsWellFormed(entries: seq<OtpEntry>, nextId: nat, email: string)
    requires WellFormed(entries, nextId)
    ensures WellFormed(Remove(entries, EmailOf, email), nextId)
  {
    RemoveKeepsUnique(entries, EmailOf, email, EmailOf);
    RemoveKeepsUnique(entries, EmailOf, email, IdOf);
  }

  /** Deleting by id (consumption or expiry) keeps the invariant. */
  lemma RemoveIdKeepsWellFormed(entries: seq<OtpEntry>, nextId: nat, id: nat)
    requires WellFormed(entries, nextId)
    ensures WellFormed(Remove(entries, IdOf, id), nextId)
  {
    RemoveKeepsUnique(entries, IdOf, id, EmailOf);
    RemoveKeepsUnique(entries, IdOf, id, IdOf);
  }

  /** Supersession: after issuing, the email has exactly one entry, the new one. */
  lemma IssueSupersedes(entries: seq<OtpEntry>, id: nat, email: string, otp: string)
    ensures Select(AfterIssue(entries, id, email, otp), EmailOf, email) == [OtpEntry(id, email, otp)]
  {
    var rest := Remove(entries, EmailOf, email);
    SelectAppend(rest, EmailOf, email, OtpEntry(id, email, otp));
    SelectRemoved(entries, EmailOf, email);
  }

  /** Issuing for one email leaves the entries of every other email as they were. */
  lemma IssueKeepsOthers(entries: seq<OtpEntry>, id: nat, email: string, otp: string, other: string)
    requires other != email
    ensures Select(AfterIssue(entries, id, email, otp), EmailOf, other) == Select(entries, EmailOf, other)
  {
    var rest := Remove(entries, EmailOf, email);
    SelectAppend(rest, EmailOf, other, OtpEntry(id, email, otp));
    SelectAfterRemove(entries, EmailOf, email, other);
  }

  /** After issuing, the lookup by email finds the new entry. */
  lemma IssuedIsFound(entries: seq<OtpEntry>, id: nat, email: string, otp: string)
    ensures Find(AfterIssue(entries, id, email, otp), EmailOf, email) == Some(OtpEntry(id, email, otp))
  {
    var rest := Remove(entries, EmailOf, email);
    FindAppend(rest, EmailOf, email, OtpEntry(id, email, otp));
  }

  /** Consuming the entry found for an email leaves no entry for that email. */
  lemma ConsumedIsGone(entries: seq<OtpEntry>, nextId: nat, email: string)
    requires WellFormed(entries, nextId)
    requires Find(entries, EmailOf, email).Some?
    ensures Find(Remove(entries, IdOf, Find(entries, EmailOf, email).value.id), EmailOf, email).None?
  {
    var e := Find(entries, EmailOf, email).value;
    var rest := Remove(entries, IdOf, e.id);
    forall i | 0 <= i < |rest| ensures rest[i].email != email {
      var j :| 0 <= j < |entries| && entries[j] == rest[i];
      var k :| 0 <= k < |entries| && entries[k] == e;
      assert entries[j].id != entries[k].id;
      assert EmailOf(entries[j]) != EmailOf(entries[k]);
    }
  }

  /** A stale timer: once the email has been issued again, the id captured by
      the earlier issuance is no longer in the table, so its expiry deletes
      nothing and the newer code survives. */
  lemma StaleExpiryKeepsNewer(entries: seq<OtpEntry>, nextId: nat, old_: OtpEntry, otp: string)
    requires WellFormed(entries, nextId)
    requires old_ in entries
    ensures Remove(AfterIssue(entries, nextId, old_.email, otp), IdOf, old_.id)
         == AfterIssue(entries, nextId, old_.email, otp)
  {
    var after := AfterIssue(entries, nextId, old_.email, otp);
    var rest := Remove(entries, EmailOf, old_.email);
    forall i | 0 <= i < |after| ensures after[i].id != old_.id {
      if i < |rest| {
        assert after[i] == rest[i];
        var j :| 0 <= j < |entries| && entries[j] == rest[i];
        var k :| 0 <= k < |entries| && entries[k] == old_;
        assert j != k;
      }
    }
    RemoveAbsent(after, IdOf, old_.id);
  }

  class OtpStore {
    var entries: seq<OtpEntry>
    var nextId: nat

    ghost predicate Valid()
      reads this
    {
      WellFormed(entries, nextId)
    }

    constructor ()
      ensures Valid() && entries == []
    {
      entries := [];
      nextId := 0;
    }

    /** sendOtp. The answer carries the new entry's id, which the expiry
        timer keeps. The confirmation email's outcome (mailDelivered) is
        caught by the handler and changes nothing. deleteFails models the
        deleteMany being rejected (nothing changes), createFails the create
        being rejected after the deleteMany has already run. */
    method Issue(email: string, code: nat, deleteFails: bool, createFails: bool, mailDelivered: bool)
      returns (r: Outcome<nat>)
      requires Valid()
      requires 100000 <= code <= 999999
      modifies this
      ensures Valid()
      ensures deleteFails ==>
        r == ServerError(InternalError) && entries == old(entries) && nextId == old(nextId)
      ensures !deleteFails && createFails ==>
        r == ServerError(InternalError) && entries == Remove(old(entries), EmailOf, email) && nextId == old(nextId)
      ensures !deleteFails && !createFails ==>
        && r == Ok(OtpSent, old(nextId))
        && entries == AfterIssue(old(entries), old(nextId), email, DecimalString(code))
        && nextId == old(nextId) + 1
    {
      if deleteFails {
        return ServerError(InternalError);
      }
      var otp := DecimalString(code);
      RemoveEmailKeepsWellFormed(entries, nextId, email);
      IssueKeepsWellFormed(entries, nextId, email, otp);
      entries := Remove(entries, EmailOf, email);
      if createFails {
        return ServerError(InternalError);
      }
      entries := entries + [OtpEntry(nextId, email, otp)];
      r := Ok(OtpSent, nextId);
      nextId := nextId + 1;
    }

    /** verifyOtp: look up the email's entry, compare the codes as strings,
        and delete the entry only on a match. */
    method Verify(email: string, otp: string) returns (r: Outcome<()>)
      requires Valid()
      modifies this
      ensures Valid() && nextId == old(nextId)
      ensures match Find(old(entries), EmailOf, email)
        case None => r == Invalid(OtpNotFound) && entries == old(entries)
        case Some(e) =>
          if e.otp != otp then r == Invalid(OtpNotMatched) && entries == old(entries)
          else r == Ok(OtpVerified, ()) && entries == Remove(old(entries), IdOf, e.id)
    {
      var found := Find(entries, EmailOf, email);
      if found.None? {
        return Invalid(OtpNotFound);
      }
      var e := found.value;
      if e.otp != otp {
        return Invalid(OtpNotMatched);
      }
      r := Ok(OtpVerified, ());
      RemoveIdKeepsWellFormed(entries, nextId, e.id);
      entries := Remove(entries, IdOf, e.id);
    }

    /** The deferred callback of the issuance with this id for this email:
        if the email still has an entry, delete the entry with this id. */
    method Expire(email: string, id: nat)
      requires Valid()
      modifies this
      ensures Valid() && nextId == old(nextId)
      ensures Find(old(entries), EmailOf, email).None? ==> entries == old(entries)
      ensures Find(old(entries), EmailOf, email).Some? ==> entries == Remove(old(entries), IdOf, id)
    {
      var found := Find(entries, EmailOf, email);
      if found.None? {
        return;
      }
      RemoveIdKeepsWellFormed(entries, nextId, id);
      entries := Remove(entries, IdOf, id);
    }
  }

  /** Issue, then verify with the delivered code twice: the first succeeds,
      the second finds nothing. */
  method VerifyIsSingleUse(s: OtpStore, email: string, code: nat)
    returns (first: Outcome<()>, second: Outcome<()>)
    requires s.Valid()
    requires 100000 <= code <= 999999
    modifies s
    ensures first == Ok(OtpVerified, ()) && second == Invalid(OtpNotFound)
  {
    var issued := s.Issue(email, code, false, false, true);
    IssuedIsFound(old(s.entries), old(s.nextId), email, DecimalString(code));
    ghost var before := s.entries;
    first := s.Verify(email, DecimalString(code));
    ConsumedIsGone(before, s.nextId, email);
    second := s.Verify(email, DecimalString(code));
  }

  /** A wrong code does not consume the entry: the right one still works. */
  method MismatchDoesNotConsume(s: OtpStore, email: string, code: nat, wrong: string)
    returns (first: Outcome<()>, second: Outcome<()>)
    requires s.Valid()
    requires 100000 <= code <= 999999
    requires wrong != DecimalString(code)
    modifies s
    ensures first == Invalid(OtpNotMatched) && second == Ok(OtpVerified, ())
  {
    var issued := s.Issue(email, code, false, false, true);
    IssuedIsFound(old(s.entries), old(s.nextId), email, DecimalString(code));
    first := s.Verify(email, wrong);
    second := s.Verify(email, DecimalString(code));
  }

  /** Two issuances for one email: only the second code is accepted, and the
      first issuance's timer, when it fires, leaves the second code in place. */
  method Supersession(s: OtpStore, email: string, code1: nat, code2: nat)
    returns (withFirst: Outcome<()>, withSecond: Outcome<()>)
    requires s.Valid()
    requires 100000 <= code1 <= 999999 && 100000 <= code2 <= 999999
    requires code1 != code2
    modifies s
    ensures withFirst == Invalid(OtpNotMatched) && withSecond == Ok(OtpVerified, ())
  {
    var t1, t2 := DecimalString(code1), DecimalString(code2);
    DecimalInjective(code1, code2);
    var r1 := s.Issue(email, code1, false, false, true);
    ghost var mid, midNext := s.entries, s.nextId;
    var first := OtpEntry(r1.value, email, t1);
    IssuedIsFound(old(s.entries), old(s.nextId), email, t1);
    assert first in mid;
    var r2 := s.Issue(email, code2, false, false, true);
    ghost var after := s.entries;
    assert after == AfterIssue(mid, midNext, email, t2);
    StaleExpiryKeepsNewer(mid, midNext, first, t2);
    IssuedIsFound(mid, midNext, email, t2);
    s.Expire(email, r1.value);
    assert s.entries == after;
    withFirst := s.Verify(email, t1);
    withSecond := s.Verify(email, t2);
  }
}
