/**
 * The notification gate at the end of `main`: the drought id is the age in
 * whole hours, and an alert goes out, and the id is stored under "last",
 * when the age has reached the threshold and the stored id differs.
 */
module Gate {
  import opened Wrappers

  /** Hours without a 5 roll after which an alert is due. */
  const ThreshHours: real := 5.0

  /** Python's `int()` on a float: truncation toward zero. */
  function Trunc(x: real): (n: int)
    ensures 0.0 <= x ==> n as real <= x < n as real + 1.0
    ensures x < 0.0 ==> n as real - 1.0 < x <= n as real
  {
    if x >= 0.0 then x.Floor else -((-x).Floor)
  }

  /** Above the threshold the drought id is the floor of the age, and at least the threshold. */
  lemma TruncAboveThreshold(age: real)
    requires age >= ThreshHours
    ensures Trunc(age) == age.Floor && Trunc(age) as real >= ThreshHours
  {
  }

  /** The stored id after one run, and whether that run sent an alert. */
  datatype Outcome = Outcome(last: Option<int>, alert: bool)

  /**
   * One run of the gate on the stored id `last` and the measured age,
   * `None` when no age could be determined.
   */
  function Step(last: Option<int>, age: Option<real>): (o: Outcome)
    ensures o.alert <==> o.last != last
    ensures o.alert ==> age.Some? && age.value >= ThreshHours
                        && o.last == Some(age.value.Floor)
    ensures age.Some? && age.value >= ThreshHours && last != Some(age.value.Floor) ==>
              o == Outcome(Some(age.value.Floor), true)
  {
    match age
    case None => Outcome(last, false)
    case Some(a) =>
      var droughtId := Trunc(a);
      if a >= ThreshHours && last != Some(droughtId) then Outcome(Some(droughtId), true)
      else Outcome(last, false)
  }

  /** Without an age the gate neither alerts nor touches the stored id. */
  lemma NoAgeNoAlert(last: Option<int>)
    ensures Step(last, None) == Outcome(last, false)
  {
  }

  /** Below the threshold the gate neither alerts nor touches the stored id. */
  lemma BelowThresholdNoAlert(last: Option<int>, age: real)
    requires age < ThreshHours
    ensures Step(last, Some(age)) == Outcome(last, false)
  {
  }

  /** The threshold is inclusive: exactly 5.0 hours alerts unless id 5 is stored. */
  lemma ThresholdInclusive(last: Option<int>)
    ensures Step(last, Some(ThreshHours)).alert <==> last != Some(5)
  {
  }

  /**
   * After an alert, any later age in the same whole hour is silent and
   * leaves the stored id as it is.
   */
  lemma SameHourAlertsOnce(last: Option<int>, a: real, b: real)
    requires Step(last, Some(a)).alert
    requires Trunc(b) == Trunc(a)
    ensures Step(Step(last, Some(a)).last, Some(b)) == Outcome(Some(Trunc(a)), false)
  {
  }

  /**
   * The id is the age in whole hours, not the time of the last 5 roll: once
   * the age moves into another whole hour at or above the threshold, the
   * gate alerts again although no new 5 roll was seen.
   */
  lemma NewHourAlertsAgain(last: Option<int>, a: real, b: real)
    requires Step(last, Some(a)).alert
    requires b >= ThreshHours && Trunc(b) != Trunc(a)
    ensures Step(Step(last, Some(a)).last, Some(b)) == Outcome(Some(Trunc(b)), true)
  {
  }

  /** Runs of the gate in order; gives the final id and the number of alerts. */
  function Replay(last: Option<int>, ages: seq<Option<real>>): (Option<int>, nat)
    decreases |ages|
  {
    if ages == [] then (last, 0)
    else
      var o := Step(last, ages[0]);
      var rest := Replay(o.last, ages[1..]);
      (rest.0, rest.1 + if o.alert then 1 else 0)
  }

  /**
   * Repeated runs whose ages all fall in one whole hour alert at most once,
   * and not at all when that hour is already stored.
   */
  lemma {:induction false} ReplaySameHour(last: Option<int>, ages: seq<Option<real>>, h: int)
    requires forall k :: 0 <= k < |ages| ==> ages[k].Some? && Trunc(ages[k].value) == h
    ensures Replay(last, ages).1 <= 1
    ensures last == Some(h) ==> Replay(last, ages) == (last, 0)
    decreases |ages|
  {
    if ages != [] {
      var o := Step(last, ages[0]);
      ReplaySameHour(o.last, ages[1..], h);
      if o.alert {
        assert o.last == Some(h);
      }
    }
  }

  /**
   * The persisted state: the drought id stored under "last", absent when
   * the key is missing. The ghost fields record what the run did with the
   * outside world: the ages it alerted for and how many times it saved.
   */
  class DroughtState {
    var last: Option<int>
    ghost var alerts: seq<real>
    ghost var saves: nat

    /**
     * Every alert was at or past the threshold, consecutive alerts fall in
     * different whole hours, and the stored id is the hour of the latest
     * alert, each alert being saved once.
     */
    ghost predicate Valid()
      reads this
    {
      && (forall k :: 0 <= k < |alerts| ==> alerts[k] >= ThreshHours)
      && (forall k :: 0 < k < |alerts| ==> Trunc(alerts[k - 1]) != Trunc(alerts[k]))
      && (alerts != [] ==> last == Some(Trunc(alerts[|alerts| - 1])))
      && saves == |alerts|
    }

    /** The state as loaded: `stored` is what the file held under "last". */
    constructor (stored: Option<int>)
      ensures Valid()
      ensures last == stored && alerts == [] && saves == 0
    {
      last := stored;
      alerts := [];
      saves := 0;
    }

    /**
     * The gate: with no age, nothing; otherwise alert, store the drought id
     * and save, when the age has reached the threshold and the stored id
     * differs from the drought id.
     */
    method Check(age: Option<real>)
      requires Valid()
      modifies this
      ensures Valid()
      ensures last == Step(old(last), age).last
      ensures alerts == if Step(old(last), age).alert then old(alerts) + [age.value] else old(alerts)
    {
      if age.None? {
        return;
      }
      var a := age.value;
      var droughtId := Trunc(a);
      if a >= ThreshHours && last != Some(droughtId) {
        alerts := alerts + [a];
        last := Some(droughtId);
        saves := saves + 1;
      }
    }
  }
}
