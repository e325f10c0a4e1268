/**
 * The decision the time-clock handler makes for one punch: given the day
 * record already stored for (user, today), if any, and the time of the new
 * punch, either create the record, fill one more time column, or reject.
 *
 * A day record has four time columns, filled in the order
 * hora_entrada1, hora_saida1, hora_entrada2, hora_saida2.
 * `Decide` follows the handler's own tests (Python truthiness of each
 * column, `max` over the non-null columns); `Punches` gives the declarative
 * view of a record (the times punched so far, in order), and the lemmas
 * below show that on well-formed records the two agree.
 */
module PunchClock {

  /** A time of day in whole minutes since midnight, as parsed from "HH:MM". */
  type Minute = m: int | 0 <= m < 1440

  datatype Option<T> = None | Some(value: T)

  /** The four time columns of a day record, in the order they are filled. */
  datatype Slot = Entrada1 | Saida1 | Entrada2 | Saida2

  function Index(s: Slot): (i: nat)
    ensures i < 4
  {
    match s
    case Entrada1 => 0
    case Saida1 => 1
    case Entrada2 => 2
    case Saida2 => 3
  }

  function SlotAt(i: nat): (s: Slot)
    requires i < 4
    ensures Index(s) == i
  {
    if i == 0 then Entrada1 else if i == 1 then Saida1 else if i == 2 then Entrada2 else Saida2
  }

  /** One row of the punch table: the four nullable time columns of a (user, day). */
  datatype DayRecord = DayRecord(entrada1: Option<Minute>, saida1: Option<Minute>,
                                 entrada2: Option<Minute>, saida2: Option<Minute>)
  {
    function Slots(): (s: seq<Option<Minute>>)
      ensures |s| == 4
    {
      [entrada1, saida1, entrada2, saida2]
    }

    function Get(slot: Slot): (v: Option<Minute>)
      ensures v == Slots()[Index(slot)]
    {
      match slot
      case Entrada1 => entrada1
      case Saida1 => saida1
      case Entrada2 => entrada2
      case Saida2 => saida2
    }

    /** The record with one column replaced: the effect of an UPDATE of that column. */
    function Set(slot: Slot, v: Option<Minute>): (r: DayRecord)
      ensures r.Get(slot) == v
      ensures forall other: Slot :: other != slot ==> r.Get(other) == Get(other)
    {
      match slot
      case Entrada1 => this.(entrada1 := v)
      case Saida1 => this.(saida1 := v)
      case Entrada2 => this.(entrada2 := v)
      case Saida2 => this.(saida2 := v)
    }
  }

  /**
   * The record invariant: hora_entrada1 is set, the set columns form a
   * contiguous prefix, and the set times strictly increase along it.
   */
  predicate WellFormed(r: DayRecord) {
    var s := r.Slots();
    s[0].Some? &&
    forall i, j :: 0 <= i < j < 4 && s[j].Some? ==> s[i].Some? && s[i].value < s[j].value
  }

  predicate Increasing(p: seq<Minute>) {
    forall i, j :: 0 <= i < j < |p| ==> p[i] < p[j]
  }

  /** The longest prefix of set columns, as the times they hold. */
  function Prefix(s: seq<Option<Minute>>): (p: seq<Minute>)
    ensures |p| <= |s|
    ensures forall i :: 0 <= i < |p| ==> s[i] == Some(p[i])
    ensures |p| < |s| ==> s[|p|].None?
  {
    if s == [] || s[0].None? then [] else [s[0].value] + Prefix(s[1..])
  }

  /** The times punched so far on a record, in punch order. */
  function Punches(r: DayRecord): (p: seq<Minute>)
    ensures |p| <= 4
    ensures |p| >= 1 <==> r.entrada1.Some?
  {
    Prefix(r.Slots())
  }

  function At(p: seq<Minute>, i: nat): Option<Minute> {
    if i < |p| then Some(p[i]) else None
  }

  /** The record whose set columns hold exactly the given times, in order. */
  function FromPunches(p: seq<Minute>): (r: DayRecord)
    requires |p| <= 4
    ensures forall i :: 0 <= i < 4 ==> r.Slots()[i] == At(p, i)
  {
    DayRecord(At(p, 0), At(p, 1), At(p, 2), At(p, 3))
  }

  lemma PunchesOfFromPunches(p: seq<Minute>)
    requires |p| <= 4
    ensures Punches(FromPunches(p)) == p
  {
  }

  /** Well-formed records are exactly those built from one to four increasing times. */
  lemma WellFormedIffPunches(r: DayRecord)
    ensures WellFormed(r) <==>
      (1 <= |Punches(r)| && Increasing(Punches(r)) && FromPunches(Punches(r)) == r)
  {
    var s, p := r.Slots(), Punches(r);
    if WellFormed(r) {
      forall i, j | 0 <= i < j < |p| ensures p[i] < p[j] {
        assert s[j].Some?;
      }
      forall i | 0 <= i < 4 ensures s[i] == At(p, i) {
        if i >= |p| {
          assert s[|p|].None?;
        }
      }
      assert FromPunches(p).Slots() == s;
    }
    if 1 <= |p| && Increasing(p) && FromPunches(p) == r {
      forall i | 0 <= i < 4 ensures s[i] == At(p, i) {
        assert FromPunches(p).Slots()[i] == At(p, i);
      }
    }
  }

  /** Python truthiness of a TIME column: NULL and 00:00 (a zero interval) are both false. */
  predicate IsFalsy(v: Option<Minute>) {
    v.None? || v.value == 0
  }

  /** `max` over the set columns; None where there is none (where `max` of an empty list raises). */
  function MaxFilled(s: seq<Option<Minute>>): (m: Option<Minute>)
    ensures m.None? <==> forall i :: 0 <= i < |s| ==> s[i].None?
    ensures m.Some? ==> exists i :: 0 <= i < |s| && s[i] == m
    ensures m.Some? ==> forall i :: 0 <= i < |s| && s[i].Some? ==> s[i].value <= m.value
  {
    if s == [] then None
    else
      var rest := MaxFilled(s[1..]);
      assert forall i :: 1 <= i < |s| ==> s[i] == s[1..][i - 1];
      if s[0].None? || (rest.Some? && rest.value > s[0].value) then rest else s[0]
  }

  /** The latest time recorded on a day (the `max` of the handler): what a new punch is compared with. */
  function LatestTime(r: DayRecord): Option<Minute> {
    MaxFilled(r.Slots())
  }

  datatype Rejection = OutOfOrder | AllPunchesUsed

  /** What the handler does with a punch: INSERT a record, UPDATE one column, refuse, or fail. */
  datatype Decision =
    | Insert(rec: DayRecord)
    | Update(slot: Slot, rec: DayRecord)
    | Reject(why: Rejection)
    | ServerError

  /**
   * The punch decision of the handler, test for test: no record yet creates
   * one holding only hora_entrada1; otherwise a time not after the latest
   * recorded one is refused, and else the first column among hora_saida1,
   * hora_entrada2, hora_saida2 that is falsy receives the time. A stored
   * record with no time at all makes `max` raise (ServerError).
   */
  function Decide(today: Option<DayRecord>, t: Minute): (d: Decision)
    ensures today.None? <==> d.Insert?
    ensures today.None? ==> d.rec == FromPunches([t])
    ensures d.Update? ==>
      today.Some? && d.slot != Entrada1 && IsFalsy(today.value.Get(d.slot)) &&
      d.rec == today.value.Set(d.slot, Some(t))
    ensures d.Update? ==>
      forall s: Slot :: s != Entrada1 && Index(s) < Index(d.slot) ==> !IsFalsy(today.value.Get(s))
    ensures d.ServerError? <==> today.Some? && LatestTime(today.value).None?
    ensures d == Reject(OutOfOrder) <==>
      today.Some? && LatestTime(today.value).Some? && t <= LatestTime(today.value).value
    ensures d.Update? || d == Reject(AllPunchesUsed) ==>
      LatestTime(today.value).Some? && LatestTime(today.value).value < t
    ensures d == Reject(AllPunchesUsed) ==>
      !IsFalsy(today.value.saida1) && !IsFalsy(today.value.entrada2) && !IsFalsy(today.value.saida2)
    ensures today.Some? && LatestTime(today.value).Some? && LatestTime(today.value).value < t ==>
      d.Update? || d == Reject(AllPunchesUsed)
  {
    match today
    case None => Insert(DayRecord(Some(t), None, None, None))
    case Some(r) =>
      var last := LatestTime(r);
      if last.None? then ServerError
      else if t <= last.value then Reject(OutOfOrder)
      else if IsFalsy(r.saida1) then Update(Saida1, r.Set(Saida1, Some(t)))
      else if IsFalsy(r.entrada2) then Update(Entrada2, r.Set(Entrada2, Some(t)))
      else if IsFalsy(r.saida2) then Update(Saida2, r.Set(Saida2, Some(t)))
      else Reject(AllPunchesUsed)
  }

  /** On a well-formed record the latest time is the one in the last set column. */
  lemma MaxIsLastPunch(r: DayRecord)
    requires WellFormed(r)
    ensures |Punches(r)| >= 1
    ensures LatestTime(r) == Some(Punches(r)[|Punches(r)| - 1])
  {
  }

  /**
   * Only hora_entrada1 can hold 00:00 on a well-formed record, so the
   * handler's truthiness test on the other three columns is exactly a
   * NULL test.
   */
  lemma FalsyMeansEmpty(r: DayRecord, slot: Slot)
    requires WellFormed(r)
    requires slot != Entrada1
    ensures IsFalsy(r.Get(slot)) <==> r.Get(slot).None?
  {
  }

  /**
   * On a well-formed record the handler's decision is the declarative one:
   * a time not after the last punch is out of order; a full day refuses
   * every later time; otherwise the time becomes the next punch, in the
   * column right after the last set one.
   */
  lemma DecideOnWellFormed(r: DayRecord, t: Minute)
    requires WellFormed(r)
    ensures |Punches(r)| >= 1
    ensures var p := Punches(r);
      Decide(Some(r), t) ==
        if t <= p[|p| - 1] then Reject(OutOfOrder)
        else if |p| == 4 then Reject(AllPunchesUsed)
        else Update(SlotAt(|p|), FromPunches(p + [t]))
  {
    var p := Punches(r);
    MaxIsLastPunch(r);
    WellFormedIffPunches(r);
    FalsyMeansEmpty(r, Saida1);
    FalsyMeansEmpty(r, Entrada2);
    FalsyMeansEmpty(r, Saida2);
    if p[|p| - 1] < t && |p| < 4 {
      var slot := SlotAt(|p|);
      var q := p + [t];
      var d := Decide(Some(r), t);
      assert r.Slots()[|p|].None?;
      forall i | 0 <= i < |p| ensures r.Slots()[i].Some? {
        assert r.Slots()[i] == Some(p[i]);
      }
      assert d.Update? && d.slot == slot;
      forall i | 0 <= i < 4 ensures d.rec.Slots()[i] == FromPunches(q).Slots()[i] {
        assert r.Slots()[i] == At(p, i);
        if i == |p| {
          assert d.rec.Get(slot) == Some(t);
        } else {
          assert d.rec.Get(SlotAt(i)) == r.Get(SlotAt(i));
        }
      }
      assert d.rec.Slots() == FromPunches(q).Slots();
    }
  }

  /**
   * An accepted punch keeps the invariant and appends its time to the
   * punches of the day; and on well-formed input the handler never fails.
   */
  lemma AcceptedPunchAppends(today: Option<DayRecord>, t: Minute)
    requires today.Some? ==> WellFormed(today.value)
    ensures !Decide(today, t).ServerError?
    ensures var d := Decide(today, t);
      d.Insert? || d.Update? ==>
        WellFormed(d.rec) &&
        Punches(d.rec) == (if today.None? then [] else Punches(today.value)) + [t]
  {
    var d := Decide(today, t);
    match today
    case None =>
      PunchesOfFromPunches([t]);
      WellFormedIffPunches(d.rec);
    case Some(r) =>
      DecideOnWellFormed(r, t);
      if d.Update? {
        var q := Punches(r) + [t];
        WellFormedIffPunches(r);
        PunchesOfFromPunches(q);
        WellFormedIffPunches(d.rec);
      }
  }

  /**
   * An accepted punch on an existing well-formed record fills the first
   * empty column, leaves every other column as it was, and stores t there.
   */
  lemma UpdateFillsFirstEmpty(r: DayRecord, t: Minute)
    requires WellFormed(r)
    requires Decide(Some(r), t).Update?
    ensures var d := Decide(Some(r), t);
      && r.Get(d.slot).None?
      && (forall other: Slot :: Index(other) < Index(d.slot) ==> r.Get(other).Some?)
      && d.rec.Get(d.slot) == Some(t)
      && (forall other: Slot :: other != d.slot ==> d.rec.Get(other) == r.Get(other))
  {
  }

  /**
   * A full day refuses every punch: times not after hora_saida2 as out of
   * order (that test comes first), later ones as all punches used.
   */
  lemma FullDayRejects(r: DayRecord, t: Minute)
    requires WellFormed(r)
    requires r.saida2.Some?
    ensures Decide(Some(r), t) ==
      if t <= r.saida2.value then Reject(OutOfOrder) else Reject(AllPunchesUsed)
  {
    DecideOnWellFormed(r, t);
    var p := Punches(r);
    assert r.Slots()[3].Some?;
    assert |p| == 4;
    assert r.Slots()[3] == Some(p[3]);
  }

  /**
   * The stored record after a punch: unchanged unless the punch is
   * accepted. From no record or a well-formed one, the result is
   * well-formed and its punches are the old ones, followed by t exactly
   * when the punch is accepted.
   */
  function Apply(today: Option<DayRecord>, t: Minute): (r: Option<DayRecord>)
    requires today.Some? ==> WellFormed(today.value)
    ensures today.None? ==> r == Some(FromPunches([t]))
    ensures Decide(today, t).Reject? ==> r == today
    ensures r.Some? && WellFormed(r.value)
    ensures var before := if today.None? then [] else Punches(today.value);
      Punches(r.value) == if Decide(today, t).Reject? then before else before + [t]
  {
    AcceptedPunchAppends(today, t);
    match Decide(today, t)
    case Insert(r) => Some(r)
    case Update(_, r) => Some(r)
    case _ => today
  }

  /** The stored record after a run of punches on one (user, day), in order. */
  function Run(today: Option<DayRecord>, ts: seq<Minute>): (r: Option<DayRecord>)
    requires today.Some? ==> WellFormed(today.value)
    ensures r.Some? ==> WellFormed(r.value)
  {
    if ts == [] then today else Apply(Run(today, ts[..|ts| - 1]), ts[|ts| - 1])
  }

  /** Up to four increasing punches from an empty day leave exactly those times recorded. */
  lemma {:induction false} RunIncreasing(ts: seq<Minute>)
    requires Increasing(ts) && |ts| <= 4
    ensures Run(None, ts) == if ts == [] then None else Some(FromPunches(ts))
  {
    if |ts| > 1 {
      var init := ts[..|ts| - 1];
      var t := ts[|ts| - 1];
      assert Increasing(init);
      RunIncreasing(init);
      assert init + [t] == ts;
      NextPunchFillsNextSlot(init, t);
      assert Run(None, ts) == Apply(Some(FromPunches(init)), t);
    }
  }

  /**
   * With increasing times, the k-th punch of a day (counting from 0)
   * creates the record if k is 0 and otherwise fills column k: entrada1,
   * saida1, entrada2, saida2 in that order.
   */
  lemma NthPunchFillsSlotN(ts: seq<Minute>, k: nat)
    requires Increasing(ts) && |ts| <= 4 && k < |ts|
    ensures Decide(Run(None, ts[..k]), ts[k]) ==
      if k == 0 then Insert(FromPunches([ts[0]]))
      else Update(SlotAt(k), FromPunches(ts[..k + 1]))
  {
    var init := ts[..k];
    assert Increasing(init);
    RunIncreasing(init);
    if k > 0 {
      assert init + [ts[k]] == ts[..k + 1];
      NextPunchFillsNextSlot(init, ts[k]);
    }
  }

  /** A later punch on the record built from fewer than four increasing times fills the next column. */
  lemma NextPunchFillsNextSlot(p: seq<Minute>, t: Minute)
    requires Increasing(p) && 1 <= |p| < 4 && p[|p| - 1] < t
    ensures Decide(Some(FromPunches(p)), t) == Update(SlotAt(|p|), FromPunches(p + [t]))
  {
    var r := FromPunches(p);
    PunchesOfFromPunches(p);
    WellFormedIffPunches(r);
    DecideOnWellFormed(r, t);
  }

  /** After four accepted punches no fifth punch is accepted, whatever its time. */
  lemma FifthPunchRejected(ts: seq<Minute>, t: Minute)
    requires Increasing(ts) && |ts| == 4
    ensures Run(None, ts + [t]) == Run(None, ts)
    ensures Decide(Run(None, ts), t).Reject?
  {
    RunIncreasing(ts);
    var r := FromPunches(ts);
    PunchesOfFromPunches(ts);
    WellFormedIffPunches(r);
    DecideOnWellFormed(r, t);
    assert (ts + [t])[..4] == ts;
  }
}
