/** The OTP table: lookups by (user, method, purpose, status), creation of rows and
    saving a fetched row after its status was changed. */
module OtpStore {
  import opened Wrappers
  import opened OtpEntity

  /** The `where` clause of a lookup. */
  datatype Query = Query(key: OtpKey, status: OtpStatus)

  predicate Matches(r: Otp, q: Query) {
    r.Key() == q.key && r.status == q.status
  }

  /** `findOne`: the position of the first row satisfying the query, if any. */
  function FirstMatch(s: seq<Otp>, q: Query): (r: Option<nat>)
    ensures r.Some? ==> r.value < |s| && Matches(s[r.value], q)
    ensures r.Some? ==> forall j :: 0 <= j < r.value ==> !Matches(s[j], q)
    ensures r.None? <==> forall j :: 0 <= j < |s| ==> !Matches(s[j], q)
  {
    if |s| == 0 then None
    else if Matches(s[0], q) then Some(0)
    else
      match FirstMatch(s[1..], q)
      case None => None
      case Some(i) => Some(i + 1)
  }

  /** The row is the Active one of the tuple `key`: it matches the Active lookup of `key`. */
  predicate IsActiveFor(r: Otp, key: OtpKey) {
    Matches(r, Query(key, Active))
  }

  /** The single-active invariant: no two Active rows share a tuple. */
  ghost predicate AtMostOneActive(s: seq<Otp>) {
    forall i, j :: 0 <= i < |s| && 0 <= j < |s| && IsActiveFor(s[i], s[j].Key()) && s[j].status == Active
      ==> i == j
  }

  /** The table itself; a fetched row is identified by its position (its auto-increment id). */
  class OtpTable {
    var records: seq<Otp>

    constructor ()
      ensures records == []
    {
      records := [];
    }

    /** `Otp.create`: appends a row. */
    method Create(r: Otp)
      modifies this
      ensures records == old(records) + [r]
    {
      records := records + [r];
    }

    /** `save()` on a fetched row: writes the row back at its position. */
    method Save(i: nat, r: Otp)
      requires i < |records|
      modifies this
      ensures records == old(records)[i := r]
    {
      records := records[i := r];
    }
  }
}
