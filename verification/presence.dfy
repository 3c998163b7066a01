/**
 * The presence view (`_get_presence` in api.py).
 *
 * `_get_presence` walks a snapshot of the sessions in the dictionary's
 * iteration order, so the snapshot is modelled as the sequence of its
 * `(mac, arrival)` items. Each MAC is resolved through the registry; a
 * resolved nickname keeps the earliest (truthy) arrival seen for it, in
 * first-seen position, and an unresolved MAC adds one to `others`. The
 * nicknames are then sorted by arrival with a stable sort.
 */
module Presence {
  import opened Wrappers
  import opened Text
  import opened Seqs
  import Registry
  import Duration

  /** One item of the sessions snapshot. */
  datatype Entry = Entry(mac: string, arrival: int)

  /** One registered person present, with the arrival shown for them. */
  datatype Attendee = Attendee(nick: string, arrival: int)

  /** The result of `_get_presence`: `(registered, others)`. */
  datatype View = View(registered: seq<Attendee>, others: nat)

  /** The nickname an entry resolves to, when `LookupMac` yields a truthy
      one. */
  predicate Claims(users: Registry.Users, e: Entry, nick: string) {
    Registry.Resolves(users, e.mac) && Registry.LookupMac(users, e.mac).value == nick
  }

  function Nicks(regs: seq<Attendee>): (r: seq<string>)
    ensures |r| == |regs|
    ensures forall k :: 0 <= k < |regs| ==> r[k] == regs[k].nick
  {
    seq(|regs|, k requires 0 <= k < |regs| => regs[k].nick)
  }

  /** Position of `nick` among the attendees, `|regs|` when absent. */
  function FindNick(regs: seq<Attendee>, nick: string): (k: nat)
    ensures k <= |regs|
    ensures k < |regs| ==> regs[k].nick == nick
    ensures forall j :: 0 <= j < k ==> regs[j].nick != nick
  {
    if regs == [] then 0
    else if regs[0].nick == nick then 0
    else 1 + FindNick(regs[1..], nick)
  }

  // ---------------------------------------------------------------------
  // Collecting nicknames

  /** One registered entry: `if nick not in registered or (arrival and
      arrival < registered[nick]): registered[nick] = arrival`. A new
      nickname goes to the end with its arrival; a known one keeps its
      position and takes the new arrival only when that is truthy and
      earlier; every other attendee is untouched. */
  function Record(regs: seq<Attendee>, nick: string, arrival: int): (r: seq<Attendee>)
    ensures Nicks(r) == if nick in Nicks(regs) then Nicks(regs) else Nicks(regs) + [nick]
    ensures var j := FindNick(regs, nick);
      (forall k :: 0 <= k < |regs| && k != j ==> r[k] == regs[k]) &&
      (j < |regs| ==> r[j].arrival == if arrival != 0 && arrival < regs[j].arrival then arrival else regs[j].arrival) &&
      (j == |regs| ==> r[j].arrival == arrival)
  {
    var k := FindNick(regs, nick);
    if k == |regs| then
      assert nick !in Nicks(regs);
      regs + [Attendee(nick, arrival)]
    else
      assert Nicks(regs)[k] == nick;
      if arrival != 0 && arrival < regs[k].arrival then regs[k := Attendee(nick, arrival)]
      else regs
  }

  datatype Tally = Tally(regs: seq<Attendee>, others: nat)

  /** The loop of `_get_presence` over the snapshot's items, in order: the
      nicknames collected are the resolved nicknames of the snapshot, each
      once, in order of first appearance, and `others` counts the items
      whose MAC does not resolve. */
  function Collect(entries: seq<Entry>, users: Registry.Users): (r: Tally)
    ensures Nicks(r.regs) == Dedup(ClaimedNicks(entries, users))
    ensures r.others == |UnresolvedIndices(entries, users)|
    decreases |entries|
  {
    if entries == [] then
      assert UnresolvedIndices(entries, users) == {};
      Tally([], 0)
    else
      var p := entries[..|entries| - 1];
      var e := entries[|entries| - 1];
      var t := Collect(p, users);
      assert entries == p + [e];
      UnresolvedIndicesSnoc(p, e, users);
      if Registry.Resolves(users, e.mac) then
        var n := Registry.LookupMac(users, e.mac).value;
        DedupSnoc(ClaimedNicks(p, users), n);
        Tally(Record(t.regs, n, e.arrival), t.others)
      else
        Tally(t.regs, t.others + 1)
  }

  /** The nickname of each resolved entry, in snapshot order. */
  function ClaimedNicks(entries: seq<Entry>, users: Registry.Users): seq<string>
    decreases |entries|
  {
    if entries == [] then []
    else
      var prev := ClaimedNicks(entries[..|entries| - 1], users);
      var e := entries[|entries| - 1];
      if Registry.Resolves(users, e.mac) then prev + [Registry.LookupMac(users, e.mac).value] else prev
  }

  lemma {:induction false} ClaimedNicksMembers(entries: seq<Entry>, users: Registry.Users, nick: string)
    ensures nick in ClaimedNicks(entries, users) <==>
      exists i :: 0 <= i < |entries| && Claims(users, entries[i], nick)
    decreases |entries|
  {
    if entries != [] {
      var p := entries[..|entries| - 1];
      var e := entries[|entries| - 1];
      ClaimedNicksMembers(p, users, nick);
      assert forall i :: 0 <= i < |p| ==> p[i] == entries[i];
      if exists i :: 0 <= i < |entries| && Claims(users, entries[i], nick) {
        var i :| 0 <= i < |entries| && Claims(users, entries[i], nick);
        if i < |p| {
          assert Claims(users, p[i], nick);
        }
      }
    }
  }

  // ---------------------------------------------------------------------
  // Earliest arrival per nickname

  /** `arrival` is the least arrival among the entries claiming `nick`, and
      some such entry has it. */
  predicate IsEarliest(entries: seq<Entry>, users: Registry.Users, nick: string, arrival: int) {
    (exists i :: 0 <= i < |entries| && Claims(users, entries[i], nick) && entries[i].arrival == arrival) &&
    (forall i :: 0 <= i < |entries| && Claims(users, entries[i], nick) ==> arrival <= entries[i].arrival)
  }

  predicate AllEarliest(entries: seq<Entry>, users: Registry.Users, regs: seq<Attendee>) {
    forall k :: 0 <= k < |regs| ==> IsEarliest(entries, users, regs[k].nick, regs[k].arrival)
  }

  predicate NonzeroArrivals(entries: seq<Entry>) {
    forall i :: 0 <= i < |entries| ==> entries[i].arrival != 0
  }

  lemma EarliestSnoc(p: seq<Entry>, e: Entry, users: Registry.Users, nick: string, a: int)
    ensures IsEarliest(p + [e], users, nick, a) <==>
      if Claims(users, e, nick) then
        (IsEarliest(p, users, nick, a) && a <= e.arrival) ||
        (a == e.arrival && forall i :: 0 <= i < |p| && Claims(users, p[i], nick) ==> a <= p[i].arrival)
      else IsEarliest(p, users, nick, a)
  {
    var s := p + [e];
    assert forall i :: 0 <= i < |p| ==> s[i] == p[i];
    assert s[|p|] == e;
    if IsEarliest(s, users, nick, a) {
      var i :| 0 <= i < |s| && Claims(users, s[i], nick) && s[i].arrival == a;
      if i < |p| {
        assert Claims(users, p[i], nick) && p[i].arrival == a;
      }
    }
  }

  /** An entry that does not claim a nickname leaves its earliest arrival
      alone. */
  lemma EarliestSkip(p: seq<Entry>, e: Entry, users: Registry.Users, a: Attendee)
    requires !Claims(users, e, a.nick) && IsEarliest(p, users, a.nick, a.arrival)
    ensures IsEarliest(p + [e], users, a.nick, a.arrival)
  {
    EarliestSnoc(p, e, users, a.nick, a.arrival);
  }

  /** An entry claiming a known nickname keeps the lesser (truthy) arrival. */
  lemma EarliestUpdate(p: seq<Entry>, e: Entry, users: Registry.Users, nick: string, prev: int)
    requires Claims(users, e, nick) && e.arrival != 0 && IsEarliest(p, users, nick, prev)
    ensures IsEarliest(p + [e], users, nick, if e.arrival < prev then e.arrival else prev)
  {
    EarliestSnoc(p, e, users, nick, if e.arrival < prev then e.arrival else prev);
  }

  /** An entry claiming a new nickname is its only claimant so far. */
  lemma EarliestFirst(p: seq<Entry>, e: Entry, users: Registry.Users, nick: string)
    requires Claims(users, e, nick) && nick !in ClaimedNicks(p, users)
    ensures IsEarliest(p + [e], users, nick, e.arrival)
  {
    ClaimedNicksMembers(p, users, nick);
    EarliestSnoc(p, e, users, nick, e.arrival);
  }

  /** An entry that resolves to no nickname leaves every earliest arrival
      alone. */
  lemma SkipKeepsEarliest(p: seq<Entry>, e: Entry, users: Registry.Users, regs: seq<Attendee>)
    requires !Registry.Resolves(users, e.mac) && AllEarliest(p, users, regs)
    ensures AllEarliest(p + [e], users, regs)
  {
    forall k | 0 <= k < |regs| ensures IsEarliest(p + [e], users, regs[k].nick, regs[k].arrival) {
      EarliestSkip(p, e, users, regs[k]);
    }
  }

  lemma RecordKeepsEarliestAt(p: seq<Entry>, e: Entry, users: Registry.Users, prev: seq<Attendee>, n: string, k: nat)
    requires Claims(users, e, n) && e.arrival != 0
    requires AllEarliest(p, users, prev) && NoDups(Nicks(prev))
    requires n !in Nicks(prev) ==> n !in ClaimedNicks(p, users)
    requires k < |Record(prev, n, e.arrival)|
    ensures var a := Record(prev, n, e.arrival)[k]; IsEarliest(p + [e], users, a.nick, a.arrival)
  {
    var j := FindNick(prev, n);
    if k < |prev| && k != j {
      assert prev[k].nick != n by {
        if k > j {
          assert Nicks(prev)[k] == prev[k].nick && Nicks(prev)[j] == n;
        }
      }
      assert IsEarliest(p, users, prev[k].nick, prev[k].arrival);
      EarliestSkip(p, e, users, prev[k]);
    } else if k == j && j < |prev| {
      assert IsEarliest(p, users, n, prev[j].arrival);
      EarliestUpdate(p, e, users, n, prev[j].arrival);
    } else {
      assert n !in Nicks(prev) by {
        assert forall q :: 0 <= q < |prev| ==> Nicks(prev)[q] != n;
      }
      EarliestFirst(p, e, users, n);
    }
  }

  lemma RecordKeepsEarliest(p: seq<Entry>, e: Entry, users: Registry.Users, prev: seq<Attendee>, n: string)
    requires Claims(users, e, n) && e.arrival != 0
    requires AllEarliest(p, users, prev) && NoDups(Nicks(prev))
    requires n !in Nicks(prev) ==> n !in ClaimedNicks(p, users)
    ensures AllEarliest(p + [e], users, Record(prev, n, e.arrival))
  {
    var r := Record(prev, n, e.arrival);
    forall k | 0 <= k < |r| ensures IsEarliest(p + [e], users, r[k].nick, r[k].arrival) {
      RecordKeepsEarliestAt(p, e, users, prev, n, k);
    }
  }

  /** With no zero arrival in the snapshot, every collected nickname
      carries the earliest arrival among that nickname's MACs. (A zero
      arrival is falsy in Python and then the result depends on iteration
      order.) */
  lemma {:induction false} CollectEarliest(entries: seq<Entry>, users: Registry.Users)
    requires NonzeroArrivals(entries)
    ensures AllEarliest(entries, users, Collect(entries, users).regs)
    decreases |entries|
  {
    if entries != [] {
      var p := entries[..|entries| - 1];
      var e := entries[|entries| - 1];
      assert entries == p + [e];
      assert NonzeroArrivals(p);
      CollectEarliest(p, users);
      var prev := Collect(p, users).regs;
      if Registry.Resolves(users, e.mac) {
        var n := Registry.LookupMac(users, e.mac).value;
        assert NoDups(Nicks(prev)) && (n !in Nicks(prev) ==> n !in ClaimedNicks(p, users));
        RecordKeepsEarliest(p, e, users, prev, n);
      } else {
        SkipKeepsEarliest(p, e, users, prev);
      }
    }
  }

  /** Positions of the snapshot whose MAC does not resolve. */
  function UnresolvedIndices(entries: seq<Entry>, users: Registry.Users): set<nat> {
    set i: nat | i < |entries| && !Registry.Resolves(users, entries[i].mac)
  }

  lemma UnresolvedIndicesSnoc(p: seq<Entry>, e: Entry, users: Registry.Users)
    ensures UnresolvedIndices(p + [e], users) ==
      UnresolvedIndices(p, users) + (if Registry.Resolves(users, e.mac) then {} else {|p|})
    ensures |p| !in UnresolvedIndices(p, users)
  {
    var entries := p + [e];
    var s := UnresolvedIndices(entries, users);
    var sp := UnresolvedIndices(p, users);
    var added := if Registry.Resolves(users, e.mac) then {} else {|p|};
    forall i: nat ensures i in s <==> i in sp + added {
      if i < |p| {
        assert entries[i] == p[i];
      }
    }
  }

  // ---------------------------------------------------------------------
  // Sorting by arrival

  predicate SortedByArrival(s: seq<Attendee>) {
    forall i, j :: 0 <= i < j < |s| ==> s[i].arrival <= s[j].arrival
  }

  /** Inserts `x` before the first element that does not arrive earlier, so
      `x` goes in front of the elements it ties with. */
  function Insert(x: Attendee, s: seq<Attendee>): (r: seq<Attendee>)
    ensures |r| == |s| + 1
    ensures multiset(r) == multiset(s) + multiset{x}
    ensures r[0] == x || (s != [] && r[0] == s[0])
    decreases |s|
  {
    if s == [] || x.arrival <= s[0].arrival then [x] + s
    else
      assert s == [s[0]] + s[1..];
      [s[0]] + Insert(x, s[1..])
  }

  lemma {:induction false} InsertSorted(x: Attendee, s: seq<Attendee>)
    requires SortedByArrival(s)
    ensures SortedByArrival(Insert(x, s))
    decreases |s|
  {
    if s != [] && x.arrival > s[0].arrival {
      var t := Insert(x, s[1..]);
      var r := [s[0]] + t;
      InsertSorted(x, s[1..]);
      forall j | 0 < j < |r| ensures s[0].arrival <= r[j].arrival {
        assert t[0].arrival >= s[0].arrival;
        if j > 1 {
          assert t[0].arrival <= t[j - 1].arrival;
        }
      }
    }
  }

  /** `sorted(registered.items(), key=...)`: a stable sort by arrival. The
      key's first component (`arrival is None`) is constant here, as every
      arrival is a number. */
  function SortByArrival(s: seq<Attendee>): (r: seq<Attendee>)
    ensures |r| == |s|
    ensures multiset(r) == multiset(s)
    ensures SortedByArrival(r)
    decreases |s|
  {
    if s == [] then []
    else
      assert s == [s[0]] + s[1..];
      InsertSorted(s[0], SortByArrival(s[1..]));
      Insert(s[0], SortByArrival(s[1..]))
  }

  /** The attendees arriving at time `v`, in order. */
  function WithArrival(s: seq<Attendee>, v: int): seq<Attendee>
    decreases |s|
  {
    if s == [] then []
    else (if s[0].arrival == v then [s[0]] else []) + WithArrival(s[1..], v)
  }

  lemma {:induction false} InsertStable(x: Attendee, s: seq<Attendee>, v: int)
    requires SortedByArrival(s)
    ensures WithArrival(Insert(x, s), v) == WithArrival([x] + s, v)
    decreases |s|
  {
    if s != [] && x.arrival > s[0].arrival {
      var t := s[1..];
      InsertStable(x, t, v);
      assert ([s[0]] + Insert(x, t))[1..] == Insert(x, t);
      assert ([x] + s)[1..] == s;
      assert ([x] + t)[1..] == t;
      assert s[0].arrival == v ==> x.arrival != v;
      assert s == [s[0]] + t;
      assert ([s[0]] + t)[1..] == t;
    }
  }

  /** The sort is stable: attendees with equal arrival keep their relative
      order. */
  lemma {:induction false} SortStable(s: seq<Attendee>, v: int)
    ensures WithArrival(SortByArrival(s), v) == WithArrival(s, v)
    decreases |s|
  {
    if s != [] {
      SortStable(s[1..], v);
      InsertStable(s[0], SortByArrival(s[1..]), v);
      assert ([s[0]] + SortByArrival(s[1..]))[1..] == SortByArrival(s[1..]);
    }
  }

  // ---------------------------------------------------------------------
  // The view

  /** `_get_presence()` over a snapshot: every resolved nickname of the
      snapshot appears exactly once and nothing else does; the list is
      sorted by arrival; and `others` counts the items whose MAC does not
      resolve. */
  function GetPresence(entries: seq<Entry>, users: Registry.Users): (r: View)
    ensures NoDups(Nicks(r.registered))
    ensures SortedByArrival(r.registered)
    ensures forall n :: n in Nicks(r.registered) <==> exists i :: 0 <= i < |entries| && Claims(users, entries[i], n)
    ensures r.others == |UnresolvedIndices(entries, users)|
  {
    var t := Collect(entries, users);
    SortedNicks(t.regs, entries, users);
    View(SortByArrival(t.regs), t.others)
  }

  lemma NicksCons(a: Attendee, s: seq<Attendee>)
    ensures Nicks([a] + s) == [a.nick] + Nicks(s)
  {
  }

  /** Inserting keeps the nicknames, and keeps them distinct. */
  lemma {:induction false} InsertNicks(x: Attendee, s: seq<Attendee>)
    ensures forall n :: n in Nicks(Insert(x, s)) <==> n == x.nick || n in Nicks(s)
    ensures NoDups(Nicks(s)) && x.nick !in Nicks(s) ==> NoDups(Nicks(Insert(x, s)))
    decreases |s|
  {
    if s == [] || x.arrival <= s[0].arrival {
      NicksCons(x, s);
      NoDupsCons(x.nick, Nicks(s));
    } else {
      var t := s[1..];
      assert s == [s[0]] + t;
      NicksCons(s[0], t);
      NicksCons(s[0], Insert(x, t));
      InsertNicks(x, t);
      NoDupsCons(s[0].nick, Nicks(t));
      NoDupsCons(s[0].nick, Nicks(Insert(x, t)));
    }
  }

  /** Sorting keeps the nicknames, and keeps them distinct. */
  lemma {:induction false} SortKeepsNicks(s: seq<Attendee>)
    ensures forall n :: n in Nicks(SortByArrival(s)) <==> n in Nicks(s)
    ensures NoDups(Nicks(s)) ==> NoDups(Nicks(SortByArrival(s)))
    decreases |s|
  {
    if s != [] {
      var t := s[1..];
      assert s == [s[0]] + t;
      NicksCons(s[0], t);
      NoDupsCons(s[0].nick, Nicks(t));
      SortKeepsNicks(t);
      InsertNicks(s[0], SortByArrival(t));
    }
  }

  /** Sorting the collected attendees keeps each claimed nickname exactly
      once. */
  lemma SortedNicks(regs: seq<Attendee>, entries: seq<Entry>, users: Registry.Users)
    requires Nicks(regs) == Dedup(ClaimedNicks(entries, users))
    ensures NoDups(Nicks(SortByArrival(regs)))
    ensures forall n :: n in Nicks(SortByArrival(regs)) <==> exists i :: 0 <= i < |entries| && Claims(users, entries[i], n)
  {
    SortKeepsNicks(regs);
    forall n ensures n in Nicks(SortByArrival(regs)) <==> exists i :: 0 <= i < |entries| && Claims(users, entries[i], n) {
      ClaimedNicksMembers(entries, users, n);
    }
  }

  /** With no zero arrival, each nickname in the view carries the earliest
      arrival among its MACs. */
  lemma PresenceEarliest(entries: seq<Entry>, users: Registry.Users)
    requires NonzeroArrivals(entries)
    ensures AllEarliest(entries, users, GetPresence(entries, users).registered)
  {
    var regs := Collect(entries, users).regs;
    var v := GetPresence(entries, users);
    CollectEarliest(entries, users);
    forall k | 0 <= k < |v.registered|
      ensures IsEarliest(entries, users, v.registered[k].nick, v.registered[k].arrival)
    {
      assert v.registered[k] in multiset(regs);
      var j :| 0 <= j < |regs| && regs[j] == v.registered[k];
      assert IsEarliest(entries, users, regs[j].nick, regs[j].arrival);
    }
  }
}
