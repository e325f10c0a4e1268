/**
 * The time-clock handler with its two tables: the known logins and the
 * punch records keyed by (login id, day). `RegisterPunch` is one request:
 * resolve the user, read today's record, decide, and INSERT or UPDATE.
 */
module Ledger {
  import opened PunchClock

  type LoginId = nat

  /** A calendar day (the value of CURDATE() when the request is served). */
  type Day = int

  datatype PunchOutcome =
    | UserNotFound
    | Created
    | Filled(slot: Slot)
    | Rejected(why: Rejection)

  class PunchLedger {
    /** The login table: user name to login id. The handler only reads it. */
    var logins: map<string, LoginId>
    /** The punch table: one day record per (login id, day). */
    var records: map<(LoginId, Day), DayRecord>

    ghost predicate Valid()
      reads this
    {
      forall key :: key in records ==> WellFormed(records[key])
    }

    constructor (logins: map<string, LoginId>)
      ensures Valid()
      ensures this.logins == logins && records == map[]
    {
      this.logins := logins;
      records := map[];
    }

    /** The punches recorded so far for a key, in order; empty when it has no record. */
    ghost function PunchesOf(key: (LoginId, Day)): (p: seq<Minute>)
      reads this
      requires Valid()
      ensures key in records ==> 1 <= |p| <= 4
      ensures key !in records ==> p == []
    {
      if key in records then Punches(records[key]) else []
    }

    /**
     * Punch at minute t on the given day. An unknown user, an out-of-order
     * time and a full day leave the table as it was; otherwise exactly the
     * record of (user, day) changes, gaining t as its next punch.
     */
    method RegisterPunch(user: string, day: Day, t: Minute) returns (o: PunchOutcome)
      requires Valid()
      modifies this
      ensures Valid()
      ensures logins == old(logins)
      ensures user !in logins ==> o == UserNotFound && records == old(records)
      ensures user in logins ==>
        var key := (logins[user], day);
        var p := old(PunchesOf(key));
        && (p == [] ==> o == Created)
        && (p != [] && t <= p[|p| - 1] ==> o == Rejected(OutOfOrder))
        && (p != [] && p[|p| - 1] < t && |p| == 4 ==> o == Rejected(AllPunchesUsed))
        && (p != [] && p[|p| - 1] < t && |p| < 4 ==> o == Filled(SlotAt(|p|)))
        && (o.Rejected? ==> records == old(records))
        && (!o.Rejected? ==> records == old(records)[key := FromPunches(p + [t])])
    {
      if user !in logins {
        return UserNotFound;
      }
      var key := (logins[user], day);
      var today := if key in records then Some(records[key]) else None;
      AcceptedPunchAppends(today, t);
      var d := Decide(today, t);
      if key in records {
        DecideOnWellFormed(records[key], t);
      }
      if d.Insert? {
        records := records[key := d.rec];
        o := Created;
      } else if d.Update? {
        records := records[key := d.rec];
        o := Filled(d.slot);
      } else {
        o := Rejected(d.why);
      }
    }
  }
}
