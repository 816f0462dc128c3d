/**
 * One invocation of the monitor: read the rows, work out the age of the
 * last 5 roll, and run the gate on the loaded state.
 */
module Monitor {
  import opened Wrappers
  import opened Rows
  import opened Gate

  /**
   * `main` with loading, printing and the browser taken out: `rows` are the
   * texts of the result rows in page order, `hoursSince` turns a stamp into
   * hours before now, and `state` is the state as loaded.
   */
  method RunOnce(state: DroughtState, rows: seq<string>, hoursSince: (string, string) -> real)
    requires state.Valid()
    modifies state
    ensures state.Valid()
    ensures (forall i :: 0 <= i < |rows| ==> RowStamp(rows[i]).None?) ==>
              state.last == old(state.last) && state.alerts == old(state.alerts)
    ensures || (state.last == old(state.last) && state.alerts == old(state.alerts))
            || exists i :: FirstStamped(rows, i) &&
                 var s := RowStamp(rows[i]).value;
                 var age := hoursSince(s.date, s.time);
                 && age >= ThreshHours
                 && old(state.last) != Some(Trunc(age))
                 && state.last == Some(Trunc(age))
                 && state.alerts == old(state.alerts) + [age]
    ensures forall i :: FirstStamped(rows, i) ==>
              var s := RowStamp(rows[i]).value;
              var age := hoursSince(s.date, s.time);
              var o := Step(old(state.last), Some(age));
              && state.last == o.last
              && state.alerts == (if o.alert then old(state.alerts) + [age] else old(state.alerts))
  {
    var age := HoursSinceLastFiveRoll(rows, hoursSince);
    state.Check(age);
  }
}
