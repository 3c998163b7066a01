/**
 * The two presence renderings of api.py, `plain_resp` and `json_resp`,
 * over a presence view and the current time `now`. The JSON document is
 * kept as a structured value: the model states which fields each entry
 * carries, not how `json.dumps` spells them.
 */
module Render {
  import opened Wrappers
  import opened Text
  import Duration
  import Registry
  import Sessions
  import opened Presence

  // ---------------------------------------------------------------------
  // Plain text

  /** One entry of the plain list: `"nick (duration)"`, or the bare
      nickname when the arrival is falsy. */
  function PlainPart(a: Attendee, now: int): string {
    if a.arrival != 0 then a.nick + " (" + Duration.FmtDuration(now - a.arrival) + ")" else a.nick
  }

  /** An entry of the plain list, read back: the bare nickname when the
      arrival is falsy, otherwise the nickname, `" ("`, a duration that
      parses back to the time elapsed since the arrival (whole minutes from
      a minute on), and `")"`. */
  lemma PlainPartReadsBack(a: Attendee, now: int)
    ensures a.arrival == 0 ==> PlainPart(a, now) == a.nick
    ensures a.arrival != 0 ==> exists d ::
      PlainPart(a, now) == a.nick + " (" + d + ")" && Duration.ParseDuration(d) == Some(Duration.Shown(now - a.arrival))
  {
    if a.arrival != 0 {
      Duration.FmtDurationRoundTrip(now - a.arrival);
    }
  }

  /** The entries of the plain list, one per attendee, in order. */
  function PlainParts(regs: seq<Attendee>, now: int): seq<string> {
    seq(|regs|, k requires 0 <= k < |regs| => PlainPart(regs[k], now))
  }

  /** The `extra` suffix: `" - Unregistered: N"` when `N > 0`. */
  function Unregistered(others: nat): string {
    if others > 0 then " - Unregistered: " + NatToDecimal(others) else ""
  }

  /** A nickname safe to list between `", "` separators. */
  predicate CommaFree(regs: seq<Attendee>) {
    forall k :: 0 <= k < |regs| ==> ',' !in regs[k].nick
  }

  /** `plain_resp()`: with nobody present only the suffix; otherwise,
      provided no nickname has a comma, splitting the text at `", "` gives
      back the attendees' entries in order, the suffix attached to the
      last. */
  function Plain(v: View, now: int): (r: string)
    ensures v.registered == [] ==> r == Unregistered(v.others)
    ensures |v.registered| >= 1 && CommaFree(v.registered) ==>
      var parts := PlainParts(v.registered, now); var n := |parts|;
      Fields(r) == parts[..n - 1] + [parts[n - 1] + Unregistered(v.others)]
  {
    var r := Join(PlainParts(v.registered, now), ", ") + Unregistered(v.others);
    if |v.registered| >= 1 && CommaFree(v.registered) then
      PlainFields(v.registered, v.others, now);
      r
    else r
  }

  const UnregisteredLabel: string := " - Unregistered: "

  /** The suffix is empty exactly when nobody unregistered is present, and
      otherwise carries the count, which reads back as a decimal numeral. */
  lemma UnregisteredReadsBack(others: nat)
    ensures var u := Unregistered(others);
      (u == [] <==> others == 0) &&
      (others > 0 ==>
        |u| > |UnregisteredLabel| && u[..|UnregisteredLabel|] == UnregisteredLabel &&
        AllDigits(u[|UnregisteredLabel|..]) && DecimalValue(u[|UnregisteredLabel|..]) == others)
  {
    if others > 0 {
      var u := Unregistered(others);
      assert u == UnregisteredLabel + NatToDecimal(others);
      assert u[|UnregisteredLabel|..] == NatToDecimal(others);
      DecimalRoundTrip(others);
    }
  }

  lemma DecimalHasNoComma(n: nat)
    ensures ',' !in NatToDecimal(n)
  {
    var d := NatToDecimal(n);
    forall i | 0 <= i < |d| ensures d[i] != ',' {
      assert IsDigit(d[i]);
    }
  }

  lemma DurationHasNoComma(seconds: int)
    ensures ',' !in Duration.FmtDuration(seconds)
  {
    if seconds < 60 {
      DecimalHasNoComma(if seconds < 0 then -seconds else seconds);
    } else {
      var minutes := seconds / 60;
      DecimalHasNoComma(minutes);
      DecimalHasNoComma(minutes / 60);
      DecimalHasNoComma(minutes % 60);
    }
  }

  lemma PartHasNoComma(a: Attendee, now: int)
    requires ',' !in a.nick
    ensures ',' !in PlainPart(a, now)
  {
    if a.arrival != 0 {
      DurationHasNoComma(now - a.arrival);
      PiecesHaveNoComma(a.nick, Duration.FmtDuration(now - a.arrival));
    }
  }

  lemma PiecesHaveNoComma(nick: string, d: string)
    requires ',' !in nick && ',' !in d
    ensures ',' !in nick + " (" + d + ")"
  {
  }

  /** Splitting the joined parts at `", "` recovers them, the last one
      carrying the suffix, provided no nickname contains a comma. */
  lemma PlainFields(regs: seq<Attendee>, others: nat, now: int)
    requires |regs| >= 1 && CommaFree(regs)
    ensures var parts := PlainParts(regs, now); var n := |parts|;
      Fields(Join(parts, ", ") + Unregistered(others)) == parts[..n - 1] + [parts[n - 1] + Unregistered(others)]
  {
    PartsHaveNoComma(regs, now);
    UnregisteredHasNoComma(others);
    CommaFreeFields(PlainParts(regs, now), Unregistered(others));
  }

  /** Splitting comma-free parts joined by `", "`, with a comma-free suffix
      after the last, gives the parts back. */
  lemma CommaFreeFields(parts: seq<string>, suffix: string)
    requires |parts| >= 1
    requires forall k :: 0 <= k < |parts| ==> ',' !in parts[k]
    requires ',' !in suffix
    ensures var n := |parts|;
      Fields(Join(parts, ", ") + suffix) == parts[..n - 1] + [parts[n - 1] + suffix]
  {
    forall p | p in parts ensures ',' !in p {
      var i :| 0 <= i < |parts| && parts[i] == p;
    }
    FieldsJoinSuffix(parts, suffix);
  }

  lemma UnregisteredHasNoComma(others: nat)
    ensures ',' !in Unregistered(others)
  {
    DecimalHasNoComma(others);
  }

  lemma PartsHaveNoComma(regs: seq<Attendee>, now: int)
    requires CommaFree(regs)
    ensures forall k :: 0 <= k < |regs| ==> ',' !in PlainParts(regs, now)[k]
  {
    forall k | 0 <= k < |regs| ensures ',' !in PlainParts(regs, now)[k] {
      PartHasNoComma(regs[k], now);
    }
  }

  // ---------------------------------------------------------------------
  // JSON

  /** One element of `result`: always the nickname; `arrived` and
      `duration` only when the arrival is truthy. */
  datatype JsonEntry = JsonEntry(nick: string, arrived: Option<int>, duration: Option<string>)

  /** The document `{"registered": [...], "others": N}`. */
  datatype JsonBody = JsonBody(registered: seq<JsonEntry>, others: nat)

  /** What a client reading entry `e` learns about attendee `a`: the same
      nickname, `arrived` present exactly for a truthy arrival and equal to
      it, and a `duration` alongside it that parses back to the elapsed
      time (whole minutes from a minute on). */
  predicate EntryReadsBack(e: JsonEntry, a: Attendee, now: int) {
    e.nick == a.nick &&
    (e.arrived.Some? <==> a.arrival != 0) &&
    (e.arrived.Some? ==> e.arrived.value == a.arrival) &&
    (e.duration.Some? <==> a.arrival != 0) &&
    (e.duration.Some? ==> Duration.ParseDuration(e.duration.value) == Some(Duration.Shown(now - a.arrival)))
  }

  function JsonEntryOf(a: Attendee, now: int): (r: JsonEntry)
    ensures EntryReadsBack(r, a, now)
  {
    if a.arrival != 0 then
      Duration.FmtDurationRoundTrip(now - a.arrival);
      JsonEntry(a.nick, Some(a.arrival), Some(Duration.FmtDuration(now - a.arrival)))
    else JsonEntry(a.nick, None, None)
  }

  /** `json_resp()`: the same people in the same order, each entry reading
      back as its attendee, and the same count of others. */
  function Json(v: View, now: int): (r: JsonBody)
    ensures r.others == v.others
    ensures |r.registered| == |v.registered|
    ensures forall k :: 0 <= k < |v.registered| ==> EntryReadsBack(r.registered[k], v.registered[k], now)
  {
    JsonBody(seq(|v.registered|, k requires 0 <= k < |v.registered| => JsonEntryOf(v.registered[k], now)), v.others)
  }

  /** The plain entry an element of the JSON document stands for. */
  function PartOfJson(e: JsonEntry): string {
    if e.duration.Some? then e.nick + " (" + e.duration.value + ")" else e.nick
  }

  /** The two renderings agree: the plain text is determined by the JSON
      document alone. */
  lemma PlainAgreesWithJson(v: View, now: int)
    ensures var r := Json(v, now);
      Plain(v, now) == Join(seq(|r.registered|, k requires 0 <= k < |r.registered| => PartOfJson(r.registered[k])), ", ") + Unregistered(r.others)
  {
    var r := Json(v, now);
    var fromJson := seq(|r.registered|, k requires 0 <= k < |r.registered| => PartOfJson(r.registered[k]));
    assert fromJson == PlainParts(v.registered, now);
  }

  // ---------------------------------------------------------------------
  // A first poll, end to end

  /** Two devices appear on the first poll, one registered to "alice":
      both are tracked from the poll time, and the ledger is not written
      (only a departure triggers a save). */
  lemma FirstPollReconcile(a: string, b: string)
    requires a != b
    ensures var step := Sessions.Reconcile(map[], map[a := None, b := None], 1000);
      step.sessions == map[a := 1000, b := 1000] && !step.save
  {
  }

  /** The presence view of that poll, in either iteration order of the
      snapshot: alice from 1000, and one unregistered device. */
  lemma FirstPollPresence(a: string, b: string)
    requires a != b && Lower(a) == a && Lower(b) == b
    ensures var users := map[a := "alice"];
      var expected := View([Attendee("alice", 1000)], 1);
      GetPresence([Entry(a, 1000), Entry(b, 1000)], users) == expected &&
      GetPresence([Entry(b, 1000), Entry(a, 1000)], users) == expected
  {
    var users := map[a := "alice"];
    FirstPollCollect(a, b);
    AliceView([Entry(a, 1000), Entry(b, 1000)], users);
    AliceView([Entry(b, 1000), Entry(a, 1000)], users);
  }

  lemma AliceView(entries: seq<Entry>, users: Registry.Users)
    requires Collect(entries, users) == Tally([Attendee("alice", 1000)], 1)
    ensures GetPresence(entries, users) == View([Attendee("alice", 1000)], 1)
  {
    var alice := [Attendee("alice", 1000)];
    assert SortByArrival(alice) == alice by {
      assert alice[1..] == [];
    }
  }

  /** The loop of `_get_presence` over that poll, in either order. */
  lemma FirstPollCollect(a: string, b: string)
    requires a != b && Lower(a) == a && Lower(b) == b
    ensures var users := map[a := "alice"]; var alice := [Attendee("alice", 1000)];
      Collect([Entry(a, 1000), Entry(b, 1000)], users) == Tally(alice, 1) &&
      Collect([Entry(b, 1000), Entry(a, 1000)], users) == Tally(alice, 1)
  {
    var users := map[a := "alice"];
    assert Registry.Resolves(users, a) && Registry.LookupMac(users, a).value == "alice";
    assert !Registry.Resolves(users, b);
    var alice := [Attendee("alice", 1000)];
    var e1 := [Entry(a, 1000), Entry(b, 1000)];
    var e2 := [Entry(b, 1000), Entry(a, 1000)];
    assert e1[..1] == [Entry(a, 1000)] && e2[..1] == [Entry(b, 1000)];
    assert [Entry(a, 1000)][..0] == [] && [Entry(b, 1000)][..0] == [];
    assert Record([], "alice", 1000) == alice;
    assert Collect([Entry(a, 1000)], users) == Tally(alice, 0);
    assert Collect([Entry(b, 1000)], users) == Tally([], 1);
  }

  lemma PlainSingle(a: Attendee, others: nat, now: int)
    ensures Plain(View([a], others), now) == PlainPart(a, now) + Unregistered(others)
  {
    assert PlainParts([a], now) == [PlainPart(a, now)];
  }

  lemma AlicePart()
    ensures PlainPart(Attendee("alice", 1000), 1125) == "alice (2m)"
  {
    assert Duration.FmtDuration(125) == "2m" by {
      Duration.FmtDurationExamples();
    }
    assert "alice" + " (" + "2m" + ")" == "alice (2m)";
  }

  /** Two minutes and five seconds later the plain rendering shows alice
      for "2m" and one unregistered device. */
  lemma FirstPollPlain()
    ensures Plain(View([Attendee("alice", 1000)], 1), 1125) == "alice (2m) - Unregistered: 1"
  {
    assert "alice (2m)" + " - Unregistered: 1" == "alice (2m) - Unregistered: 1";
    PlainSingle(Attendee("alice", 1000), 1, 1125);
    AlicePart();
    OneUnregistered();
  }

  lemma OneUnregistered()
    ensures Unregistered(1) == " - Unregistered: 1"
  {
    assert NatToDecimal(1) == "1";
  }

  /** The JSON rendering at the same moment. */
  lemma FirstPollJson()
    ensures Json(View([Attendee("alice", 1000)], 1), 1125) ==
      JsonBody([JsonEntry("alice", Some(1000), Some("2m"))], 1)
  {
    assert Duration.FmtDuration(125) == "2m" by {
      Duration.FmtDurationExamples();
    }
  }
}
