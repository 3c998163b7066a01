/**
 * The session ledger's reconcile step: the body of the poll loop in
 * `_poll_leases` (api.py), with the lock, the lease-file read, the clock and
 * the JSON persistence lifted out. It takes the tracked sessions (MAC to
 * arrival time), the active-lease map of this poll (MAC to an optional lease
 * start) and the current time, and returns the new sessions together with
 * the flag that decides whether they are written to disk.
 */
module Sessions {
  import opened Wrappers

  type Mac = string

  datatype Step = Step(sessions: map<Mac, int>, save: bool)

  /** One poll: the active-lease map read from the lease source and the
      time at which it was read. */
  datatype Poll = Poll(active: map<Mac, Option<int>>, now: int)

  /** Arrival recorded for a newly seen MAC: the lease start when it is
      truthy in Python (present and not zero), otherwise the poll time. */
  function ArrivalFor(leaseStart: Option<int>, now: int): int {
    if leaseStart.Some? && leaseStart.value != 0 then leaseStart.value else now
  }

  /** The reconcile block as written. New MACs are inserted, then departed
      MACs are collected and deleted; the save test
      `departed or set(active_macs) - set(_sessions)` runs after the
      insertion, so its second term is always empty and only departures
      cause a save. */
  function Reconcile(sessions: map<Mac, int>, active: map<Mac, Option<int>>, now: int): (r: Step)
    ensures r.sessions.Keys == active.Keys
    ensures forall m :: m in sessions && m in active ==> r.sessions[m] == sessions[m]
    ensures forall m :: m in active && m !in sessions ==> r.sessions[m] == ArrivalFor(active[m], now)
    ensures r.save <==> exists m :: m in sessions && m !in active
  {
    var arrived := map m | m in active && m !in sessions :: ArrivalFor(active[m], now);
    var merged := sessions + arrived;
    var departed := set m | m in merged && m !in active;
    var kept := merged - departed;
    assert forall m :: m in departed ==> m in sessions;
    Step(kept, departed != {} || active.Keys - kept.Keys != {})
  }

  /** The save test as evidently intended: write whenever membership
      changed, by an arrival or by a departure. The sessions are those of
      `Reconcile`. */
  function ReconcileIntended(sessions: map<Mac, int>, active: map<Mac, Option<int>>, now: int): (r: Step)
    ensures r.sessions == Reconcile(sessions, active, now).sessions
    ensures r.save <==> sessions.Keys != active.Keys
  {
    var arrivals := active.Keys - sessions.Keys;
    var departures := sessions.Keys - active.Keys;
    assert sessions.Keys != active.Keys ==> arrivals != {} || departures != {};
    Step(Reconcile(sessions, active, now).sessions, arrivals != {} || departures != {})
  }

  /** The written save test misses pure arrivals: the first poll that sees a
      device, with nothing departing, leaves its arrival unsaved. */
  lemma ArrivalAloneIsNotSaved()
    ensures var active := map["aa:bb:cc:dd:ee:ff" := None];
      !Reconcile(map[], active, 1000).save &&
      ReconcileIntended(map[], active, 1000).save
  {
    var active: map<Mac, Option<int>> := map["aa:bb:cc:dd:ee:ff" := None];
    assert "aa:bb:cc:dd:ee:ff" in active.Keys;
  }

  /** Reconciling twice against the same active map changes nothing the
      second time and asks for no save, whatever the second poll's time. */
  lemma ReconcileIdempotent(sessions: map<Mac, int>, active: map<Mac, Option<int>>, now: int, later: int)
    ensures var once := Reconcile(sessions, active, now).sessions;
      Reconcile(once, active, later) == Step(once, false)
  {
    var once := Reconcile(sessions, active, now).sessions;
    var twice := Reconcile(once, active, later);
    assert twice.sessions == once;
  }

  /** The corrected save test is idempotent too. */
  lemma ReconcileIntendedIdempotent(sessions: map<Mac, int>, active: map<Mac, Option<int>>, now: int, later: int)
    ensures var once := ReconcileIntended(sessions, active, now).sessions;
      ReconcileIntended(once, active, later) == Step(once, false)
  {
    ReconcileIdempotent(sessions, active, now, later);
  }

  /** The sessions after a run of polls: an empty run leaves them alone,
      and after any other run the tracked MACs are exactly those of the
      last poll. */
  function Run(sessions: map<Mac, int>, polls: seq<Poll>): (r: map<Mac, int>)
    ensures polls == [] ==> r == sessions
    ensures polls != [] ==> r.Keys == polls[|polls| - 1].active.Keys
    decreases |polls|
  {
    if polls == [] then sessions
    else
      assert |polls| > 1 ==> polls[1..][|polls[1..]| - 1] == polls[|polls| - 1];
      Run(Reconcile(sessions, polls[0].active, polls[0].now).sessions, polls[1..])
  }

  /** A MAC that stays active through a run of polls keeps the arrival it
      had before the run, whatever lease starts the polls report for it. */
  lemma {:induction false} ArrivalStableWhilePresent(sessions: map<Mac, int>, polls: seq<Poll>, m: Mac)
    requires m in sessions
    requires forall i :: 0 <= i < |polls| ==> m in polls[i].active
    ensures m in Run(sessions, polls) && Run(sessions, polls)[m] == sessions[m]
    decreases |polls|
  {
    if polls != [] {
      var next := Reconcile(sessions, polls[0].active, polls[0].now).sessions;
      assert m in polls[0].active;
      assert forall i :: 0 <= i < |polls[1..]| ==> m in polls[1..][i].active by {
        forall i | 0 <= i < |polls[1..]| ensures m in polls[1..][i].active {
          assert polls[1..][i] == polls[i + 1];
        }
      }
      ArrivalStableWhilePresent(next, polls[1..], m);
    }
  }
}
