/**
 * The reservation date policy of `fecha_input_valida`: a Sunday may be moved
 * to the following Monday if the user agrees, and the resulting date must lie
 * strictly after "now plus two days".
 */
module DatePolicy {

  import opened Wrappers
  import opened Calendar

  const MicrosPerDay := 86_400_000_000

  /** A `datetime.now()` reading: a date and the microseconds since its midnight. */
  datatype Timestamp = Timestamp(date: Date, micros: int)

  predicate IsValidTimestamp(t: Timestamp)
  {
    IsValid(t.date) && 0 <= t.micros < MicrosPerDay
  }

  /** The instant of a timestamp, in microseconds from the calendar's origin. */
  function Instant(t: Timestamp): int
    requires IsValidTimestamp(t)
  {
    Ordinal(t.date) * MicrosPerDay + t.micros
  }

  /** A parsed date is a `datetime` at midnight. */
  function Midnight(d: Date): Timestamp
  {
    Timestamp(d, 0)
  }

  /** The rejection test: `fecha <= hoy + timedelta(days=2)`. */
  predicate TooSoon(d: Date, now: Timestamp)
    requires IsValid(d) && IsValidTimestamp(now)
  {
    Instant(Midnight(d)) <= Instant(now) + 2 * MicrosPerDay
  }

  /** Whatever the time of day, a date is too soon exactly when it is fewer
      than three whole days after today. */
  lemma TooSoonIff(d: Date, now: Timestamp)
    requires IsValid(d) && IsValidTimestamp(now)
    ensures TooSoon(d, now) <==> Ordinal(d) < Ordinal(now.date) + 3
  {
    var a, b := Ordinal(d), Ordinal(now.date);
    if a >= b + 3 {
      assert a * MicrosPerDay >= (b + 3) * MicrosPerDay;
    } else {
      assert a * MicrosPerDay <= (b + 2) * MicrosPerDay;
    }
  }

  /**
   * One pass of the prompt loop: the text the user typed (already parsed by
   * `strptime`, `None` when it does not parse), the answer to the
   * "use the following Monday?" question (only asked for a Sunday), and
   * the clock reading taken in that pass.
   */
  datatype DateAttempt = DateAttempt(parsed: Option<Date>, acceptsMonday: bool, clock: Timestamp)

  predicate WellFormed(a: DateAttempt)
  {
    (a.parsed.Some? ==> IsValid(a.parsed.value)) && IsValidTimestamp(a.clock)
  }

  /**
   * The verdict of one pass: the date returned, or `None` when the loop goes
   * round again (bad format, a declined Sunday, or too soon).
   */
  function Normalize(a: DateAttempt): (r: Option<Date>)
    requires WellFormed(a)
    ensures r.Some? ==> a.parsed.Some? && IsValid(r.value)
    ensures r.Some? ==> !IsSunday(r.value)
    ensures r.Some? ==> Ordinal(r.value) >= Ordinal(a.clock.date) + 3
    ensures r.Some? && !IsSunday(a.parsed.value) ==> r.value == a.parsed.value
    ensures r.Some? && IsSunday(a.parsed.value) ==>
              a.acceptsMonday && r.value == NextDay(a.parsed.value)
              && Ordinal(r.value) == Ordinal(a.parsed.value) + 1
    ensures (a.parsed.Some? && !IsSunday(a.parsed.value)
             && Ordinal(a.parsed.value) >= Ordinal(a.clock.date) + 3) ==> r == a.parsed
    ensures (a.parsed.Some? && IsSunday(a.parsed.value) && a.acceptsMonday
             && Ordinal(a.parsed.value) + 1 >= Ordinal(a.clock.date) + 3) ==> r == Some(NextDay(a.parsed.value))
  {
    match a.parsed
    case None => None
    case Some(d) =>
      if IsSunday(d) && !a.acceptsMonday then None
      else
        var f := if IsSunday(d) then (SundayThenMonday(d); NextDay(d)) else d;
        TooSoonIff(f, a.clock);
        if TooSoon(f, a.clock) then None else Some(f)
  }

  /**
   * The pass of `fecha_input_valida` that ends the loop, reading the script
   * from pass `from`: the first pass that yields a date.
   */
  function FirstAdmittedFrom(attempts: seq<DateAttempt>, from: nat): (k: Option<nat>)
    requires from <= |attempts|
    requires forall j :: 0 <= j < |attempts| ==> WellFormed(attempts[j])
    ensures k.Some? ==> from <= k.value < |attempts| && Normalize(attempts[k.value]).Some?
    ensures forall j :: from <= j < (if k.Some? then k.value else |attempts|) ==> Normalize(attempts[j]).None?
    decreases |attempts| - from
  {
    if from == |attempts| then None
    else if Normalize(attempts[from]).Some? then Some(from)
    else FirstAdmittedFrom(attempts, from + 1)
  }

  /** The date `fecha_input_valida` returns, when some pass of the script yields one. */
  function AdmittedDate(attempts: seq<DateAttempt>): (r: Option<Date>)
    requires forall j :: 0 <= j < |attempts| ==> WellFormed(attempts[j])
  {
    match FirstAdmittedFrom(attempts, 0)
    case None => None
    case Some(k) => Normalize(attempts[k])
  }

  /**
   * `fecha_input_valida`: keeps prompting until a pass yields a date. The
   * passes are given as a script; `k` is the pass that succeeded, and `None`
   * means the script ended while the loop would still be prompting.
   */
  method ReadDate(attempts: seq<DateAttempt>) returns (r: Option<Date>, k: nat)
    requires forall j :: 0 <= j < |attempts| ==> WellFormed(attempts[j])
    ensures r == AdmittedDate(attempts)
    ensures r.Some? ==> FirstAdmittedFrom(attempts, 0) == Some(k)
  {
    k := 0;
    while k < |attempts|
      invariant k <= |attempts|
      invariant FirstAdmittedFrom(attempts, k) == FirstAdmittedFrom(attempts, 0)
    {
      var v := Normalize(attempts[k]);
      if v.Some? {
        return v, k;
      }
      k := k + 1;
    }
    return None, k;
  }

  /** Lead time in whole days: dates one and two days after today are refused,
      even when the clock reads just before midnight; a date three days after
      today is taken, even late in the day. None of these dates is a Sunday. */
  lemma LeadTimeExample()
    ensures Normalize(DateAttempt(Some(Date(11, 14, 2025)), false, Timestamp(Date(11, 13, 2025), 0))).None?
    ensures Normalize(DateAttempt(Some(Date(11, 15, 2025)), false, Timestamp(Date(11, 13, 2025), MicrosPerDay - 1))).None?
    ensures Normalize(DateAttempt(Some(Date(11, 17, 2025)), false, Timestamp(Date(11, 14, 2025), MicrosPerDay - 1)))
            == Some(Date(11, 17, 2025))
  {
    November2025(13);
    November2025(14);
    November2025(15);
    November2025(17);
  }

  /** A Sunday with the Monday accepted becomes that Monday;
      declined, the pass is discarded. */
  lemma SundayPolicyExample()
    ensures Normalize(DateAttempt(Some(Date(11, 16, 2025)), true, Timestamp(Date(11, 13, 2025), 0)))
            == Some(Date(11, 17, 2025))
    ensures Normalize(DateAttempt(Some(Date(11, 16, 2025)), false, Timestamp(Date(11, 10, 2025), 0))).None?
  {
    SundayExample();
    November2025(10);
    November2025(13);
    November2025(16);
    November2025(17);
  }
}
