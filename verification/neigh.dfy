/**
 * The ignore list and the `ip neigh show` parser of dhcpreg.py
 * (`GetIgnoreMacs` and `GetActive`). The files are lifted out: the ignore
 * file and the neighbour table arrive as sequences of lines, the ignore
 * list and the registry as parameters.
 */
module Neigh {
  import opened Wrappers
  import opened Text
  import opened Seqs
  import Registry

  // ---------------------------------------------------------------------
  // Ignore list

  /** The filter of `GetIgnoreMacs`: a line counts when its stripped text is
      non-empty and it does not start with `#` once leading whitespace is
      removed. */
  predicate KeepsIgnoreLine(line: string) {
    Strip(line) != [] && !StartsWith(LStrip(line), "#")
  }

  /** A line counts exactly when its stripped text is non-empty and does not
      begin with `#`. */
  lemma KeepsIgnoreLineIff(line: string)
    ensures KeepsIgnoreLine(line) <==> Strip(line) != [] && Strip(line)[0] != '#'
  {
    StripShape(line);
  }

  /** The list `GetIgnoreMacs` builds: the stripped text of each counted
      line, in order. */
  function IgnoreMacs(lines: seq<string>): (r: seq<string>)
    ensures |r| <= |lines|
    ensures forall x :: x in r ==> x != [] && x[0] != '#' && !IsSpace(x[0]) && !IsSpace(x[|x| - 1])
    decreases |lines|
  {
    if lines == [] then []
    else
      var rest := IgnoreMacs(lines[1..]);
      if KeepsIgnoreLine(lines[0]) then [Strip(lines[0])] + rest else rest
  }

  /** `line` is counted and strips to `x`. */
  predicate StripsTo(line: string, x: string) {
    KeepsIgnoreLine(line) && Strip(line) == x
  }

  /** An entry is on the list exactly when some counted line strips to it. */
  lemma {:induction false} IgnoreMacsMembers(lines: seq<string>, x: string)
    ensures x in IgnoreMacs(lines) <==> exists i :: 0 <= i < |lines| && StripsTo(lines[i], x)
    decreases |lines|
  {
    if lines != [] {
      var tail := lines[1..];
      IgnoreMacsMembers(tail, x);
      var head := if KeepsIgnoreLine(lines[0]) then [Strip(lines[0])] else [];
      assert IgnoreMacs(lines) == head + IgnoreMacs(tail);
      assert x in head <==> StripsTo(lines[0], x);
      assert forall j :: 0 <= j < |tail| ==> tail[j] == lines[j + 1];
      if x in IgnoreMacs(tail) {
        var j :| 0 <= j < |tail| && StripsTo(tail[j], x);
        assert StripsTo(lines[j + 1], x);
      }
      if exists i :: 0 <= i < |lines| && StripsTo(lines[i], x) {
        var i :| 0 <= i < |lines| && StripsTo(lines[i], x);
        if i > 0 {
          assert StripsTo(tail[i - 1], x);
        }
      }
    }
  }

  /** The filter works line by line, so it keeps the file's order. */
  lemma {:induction false} IgnoreMacsAppend(a: seq<string>, b: seq<string>)
    ensures IgnoreMacs(a + b) == IgnoreMacs(a) + IgnoreMacs(b)
    decreases |a|
  {
    if a == [] {
      assert a + b == b;
    } else {
      assert (a + b)[1..] == a[1..] + b;
      IgnoreMacsAppend(a[1..], b);
    }
  }

  // ---------------------------------------------------------------------
  // One line of `ip neigh show`

  /** Index of the first occurrence of `w` among the tokens
      (`parts.index(w)`). */
  function IndexOf(toks: seq<string>, w: string): (k: nat)
    requires w in toks
    ensures k < |toks|
  {
    if toks[0] == w then 0 else 1 + IndexOf(toks[1..], w)
  }

  /** The MAC a line contributes under the skip rules of `GetActive`: a
      line yields a MAC exactly when some `lladdr` token is followed by
      another token and the last token is not `FAILED` (so a line without
      `lladdr`, a `FAILED` line, and a line whose only `lladdr` is its last
      token are skipped); the MAC is the token after the first `lladdr`,
      lower-cased. */
  function LineMac(line: string): (r: Option<string>)
    ensures var toks := Split(line);
      r.Some? <==> (exists i :: 0 <= i < |toks| - 1 && toks[i] == "lladdr") && toks[|toks| - 1] != "FAILED"
    ensures var toks := Split(line);
      r.Some? ==>
        exists i :: 0 <= i < |toks| - 1 && toks[i] == "lladdr" &&
                    (forall j :: 0 <= j < i ==> toks[j] != "lladdr") &&
                    r.value == Lower(toks[i + 1])
  {
    TokensMacRules(Split(line));
    TokensMac(Split(line))
  }

  /** The body of `GetActive`'s loop on one split line. */
  function TokensMac(toks: seq<string>): Option<string> {
    if "lladdr" !in toks then None
    else if toks[|toks| - 1] == "FAILED" then None
    else
      var i := IndexOf(toks, "lladdr");
      if i + 1 < |toks| then Some(Lower(toks[i + 1])) else None
  }

  lemma TokensMacRules(toks: seq<string>)
    ensures var r := TokensMac(toks);
      r.Some? <==> (exists i :: 0 <= i < |toks| - 1 && toks[i] == "lladdr") && toks[|toks| - 1] != "FAILED"
    ensures var r := TokensMac(toks);
      r.Some? ==>
        exists i :: 0 <= i < |toks| - 1 && toks[i] == "lladdr" &&
                    (forall j :: 0 <= j < i ==> toks[j] != "lladdr") &&
                    r.value == Lower(toks[i + 1])
  {
    if "lladdr" in toks {
      var i := IndexOf(toks, "lladdr");
      FirstLladdr(toks, i);
      if i + 1 >= |toks| {
        assert forall k :: 0 <= k < |toks| - 1 ==> toks[k] != "lladdr";
      }
    }
  }

  lemma FirstLladdr(toks: seq<string>, i: nat)
    requires "lladdr" in toks && i == IndexOf(toks, "lladdr")
    ensures toks[i] == "lladdr"
    ensures forall j :: 0 <= j < i ==> toks[j] != "lladdr"
  {
    if toks[0] != "lladdr" {
      FirstLladdr(toks[1..], IndexOf(toks[1..], "lladdr"));
      forall j | 1 <= j < i ensures toks[j] != "lladdr" {
        assert toks[j] == toks[1..][j - 1];
      }
    }
  }

  // ---------------------------------------------------------------------
  // The whole table

  /** The MAC each line yields, in order. */
  function LineMacs(lines: seq<string>): (r: seq<Option<string>>)
    ensures |r| == |lines|
    ensures forall i :: 0 <= i < |lines| ==> r[i] == LineMac(lines[i])
  {
    seq(|lines|, i requires 0 <= i < |lines| => LineMac(lines[i]))
  }

  /** What one line adds to the candidates: its MAC, unless it yields none
      or the MAC is on the ignore list. */
  function Contribution(mac: Option<string>, ignore: seq<string>): (r: seq<string>)
    ensures |r| <= 1
    ensures forall m :: m in r <==> mac.Some? && mac.value == m && m !in ignore
  {
    if mac.Some? && mac.value !in ignore then [mac.value] else []
  }

  /** The MACs a run of lines contributes, in order. */
  function Kept(macs: seq<Option<string>>, ignore: seq<string>): seq<string>
    decreases |macs|
  {
    if macs == [] then [] else Kept(macs[..|macs| - 1], ignore) + Contribution(macs[|macs| - 1], ignore)
  }

  /** The MACs the lines contribute, in order, with ignored ones dropped. */
  function Candidates(lines: seq<string>, ignore: seq<string>): seq<string> {
    Kept(LineMacs(lines), ignore)
  }

  /** The nickname of each candidate the registry resolves. */
  function ResolvedNicks(macs: seq<string>, users: Registry.Users): seq<string>
    decreases |macs|
  {
    if macs == [] then []
    else
      var prev := ResolvedNicks(macs[..|macs| - 1], users);
      var m := macs[|macs| - 1];
      assert macs == macs[..|macs| - 1] + [m];
      if Registry.Resolves(users, m) then prev + [Registry.LookupMac(users, m).value] else prev
  }

  /** The candidates the registry does not resolve. */
  function UnresolvedMacs(macs: seq<string>, users: Registry.Users): seq<string>
    decreases |macs|
  {
    if macs == [] then []
    else
      var prev := UnresolvedMacs(macs[..|macs| - 1], users);
      var m := macs[|macs| - 1];
      assert macs == macs[..|macs| - 1] + [m];
      if !Registry.Resolves(users, m) then prev + [m] else prev
  }

  /** A MAC is kept exactly when it is not ignored and some line yields it. */
  lemma {:induction false} KeptMembers(macs: seq<Option<string>>, ignore: seq<string>, m: string)
    ensures m in Kept(macs, ignore) <==> m !in ignore && exists i :: 0 <= i < |macs| && macs[i] == Some(m)
    decreases |macs|
  {
    if macs != [] {
      var p := macs[..|macs| - 1];
      var last := macs[|macs| - 1];
      assert m in Kept(macs, ignore) <==> m in Kept(p, ignore) || m in Contribution(last, ignore);
      KeptMembers(p, ignore, m);
      if m in Kept(p, ignore) {
        var i :| 0 <= i < |p| && p[i] == Some(m);
        assert macs[i] == Some(m);
      }
      if exists i :: 0 <= i < |macs| && macs[i] == Some(m) {
        var i :| 0 <= i < |macs| && macs[i] == Some(m);
        if i < |p| {
          assert p[i] == Some(m);
        }
      }
    }
  }

  /** A MAC is a candidate exactly when it is not ignored and one of the
      lines yields it. */
  lemma CandidatesMembers(lines: seq<string>, ignore: seq<string>, m: string)
    ensures m in Candidates(lines, ignore) <==>
      m !in ignore && exists i :: 0 <= i < |lines| && LineMac(lines[i]) == Some(m)
  {
    var macs := LineMacs(lines);
    KeptMembers(macs, ignore, m);
    if exists i :: 0 <= i < |macs| && macs[i] == Some(m) {
      var i :| 0 <= i < |macs| && macs[i] == Some(m);
      assert LineMac(lines[i]) == Some(m);
    }
  }

  lemma {:induction false} ResolvedNicksMembers(macs: seq<string>, users: Registry.Users, n: string)
    ensures n in ResolvedNicks(macs, users) <==>
      exists m :: m in macs && Registry.Resolves(users, m) && Registry.LookupMac(users, m).value == n
    decreases |macs|
  {
    if macs != [] {
      var p := macs[..|macs| - 1];
      var last := macs[|macs| - 1];
      assert macs == p + [last];
      ResolvedNicksMembers(p, users, n);
    }
  }

  lemma {:induction false} UnresolvedMacsMembers(macs: seq<string>, users: Registry.Users, m: string)
    ensures m in UnresolvedMacs(macs, users) <==> m in macs && !Registry.Resolves(users, m)
    decreases |macs|
  {
    if macs != [] {
      var p := macs[..|macs| - 1];
      var last := macs[|macs| - 1];
      assert macs == p + [last];
      UnresolvedMacsMembers(p, users, m);
    }
  }

  /** Absorbing one more candidate into the two de-duplicated lists. */
  lemma AbsorbStep(c: seq<string>, m: string, users: Registry.Users)
    ensures var a := Dedup(ResolvedNicks(c, users));
      var user := Registry.LookupMac(users, m);
      Dedup(ResolvedNicks(c + [m], users)) ==
        if user.Some? && user.value != "" && user.value !in a then a + [user.value] else a
    ensures var o := Dedup(UnresolvedMacs(c, users));
      var user := Registry.LookupMac(users, m);
      Dedup(UnresolvedMacs(c + [m], users)) ==
        if !(user.Some? && user.value != "") && m !in o then o + [m] else o
  {
    assert (c + [m])[..|c|] == c;
    DedupSnoc(ResolvedNicks(c, users), Registry.LookupMac(users, m).GetOr(""));
    DedupSnoc(UnresolvedMacs(c, users), m);
  }

  /** `GetActive`: one pass over the lines, appending each newly seen
      registered nickname to the first list and each newly seen
      unregistered MAC to the second. */
  method GetActive(lines: seq<string>, ignore: seq<string>, users: Registry.Users)
    returns (activeUsers: seq<string>, otherMacs: seq<string>)
    ensures activeUsers == Dedup(ResolvedNicks(Candidates(lines, ignore), users))
    ensures otherMacs == Dedup(UnresolvedMacs(Candidates(lines, ignore), users))
  {
    var macs := LineMacs(lines);
    activeUsers := [];
    otherMacs := [];
    var i := 0;
    while i < |macs|
      invariant i <= |macs|
      invariant activeUsers == Dedup(ResolvedNicks(Kept(macs[..i], ignore), users))
      invariant otherMacs == Dedup(UnresolvedMacs(Kept(macs[..i], ignore), users))
    {
      KeptStep(macs, i, ignore);
      activeUsers, otherMacs := AbsorbLine(activeUsers, otherMacs, Kept(macs[..i], ignore), macs[i], ignore, users);
      i := i + 1;
    }
    assert macs[..i] == macs;
  }

  /** One iteration of the loop in `GetActive`: given the two lists built
      from the candidates `c` so far, absorbs the MAC the next line yields. */
  method AbsorbLine(a: seq<string>, o: seq<string>, c: seq<string>, mac: Option<string>, ignore: seq<string>, users: Registry.Users)
    returns (a': seq<string>, o': seq<string>)
    requires a == Dedup(ResolvedNicks(c, users))
    requires o == Dedup(UnresolvedMacs(c, users))
    ensures var next := if mac.Some? && mac.value !in ignore then c + [mac.value] else c;
      a' == Dedup(ResolvedNicks(next, users)) && o' == Dedup(UnresolvedMacs(next, users))
  {
    a', o' := a, o;
    if mac.Some? && mac.value !in ignore {
      var m := mac.value;
      AbsorbStep(c, m, users);
      var user := Registry.LookupMac(users, m);
      if user.Some? && user.value != "" {
        if user.value !in a {
          a' := a + [user.value];
        }
      } else if m !in o {
        o' := o + [m];
      }
    }
  }

  /** One more line: its contribution goes after the earlier ones. */
  lemma KeptStep(macs: seq<Option<string>>, i: nat, ignore: seq<string>)
    requires i < |macs|
    ensures var c := Kept(macs[..i], ignore); var mac := macs[i];
      Kept(macs[..i + 1], ignore) == if mac.Some? && mac.value !in ignore then c + [mac.value] else c
  {
    assert macs[..i + 1][..i] == macs[..i];
    var c := Kept(macs[..i], ignore);
    assert Kept(macs[..i + 1], ignore) == c + Contribution(macs[i], ignore);
    assert c + [] == c;
  }

  /** What the two lists hold: each is free of repeats; every candidate MAC
      feeds exactly one of them (its nickname when registered, itself
      otherwise); nothing else appears; and no ignored MAC appears. */
  lemma GetActiveContents(lines: seq<string>, ignore: seq<string>, users: Registry.Users)
    ensures var c := Candidates(lines, ignore);
      var a := Dedup(ResolvedNicks(c, users));
      var o := Dedup(UnresolvedMacs(c, users));
      NoDups(a) && NoDups(o) &&
      (forall m :: m in c && Registry.Resolves(users, m) ==> Registry.LookupMac(users, m).value in a && m !in o) &&
      (forall m :: m in c && !Registry.Resolves(users, m) ==> m in o) &&
      (forall n :: n in a ==> exists m :: m in c && Registry.Resolves(users, m) && Registry.LookupMac(users, m).value == n) &&
      (forall m :: m in o ==> m in c && !Registry.Resolves(users, m) && m !in ignore)
  {
    var c := Candidates(lines, ignore);
    var rn := ResolvedNicks(c, users);
    var um := UnresolvedMacs(c, users);
    forall m | m in c ensures m !in ignore {
      CandidatesMembers(lines, ignore, m);
    }
    forall n ensures n in Dedup(rn) <==> exists m :: m in c && Registry.Resolves(users, m) && Registry.LookupMac(users, m).value == n {
      ResolvedNicksMembers(c, users, n);
    }
    forall m ensures m in Dedup(um) <==> m in c && !Registry.Resolves(users, m) {
      UnresolvedMacsMembers(c, users, m);
    }
  }
}
