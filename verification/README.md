# office-presence in Dafny

A Dafny model of the logic in the office-presence service. The service
watches the local network and reports which registered people are in the
room. Two Python files make up its core:

- `api.py`:
  - validates MAC addresses;
  - formats elapsed times;
  - keeps a ledger of sessions (MAC to arrival time) that each poll of the
    active leases reconciles;
  - joins that ledger with the registry into a presence view, and renders
    the view as plain text and as JSON.
- `dhcpreg.py`:
  - keeps the registry, a mapping from MAC address to nickname, with
    register, deregister and lookup operations;
  - filters the ignore list;
  - parses `ip neigh show` output into the active registered nicknames and
    the unregistered MACs.

The model makes every operation a pure function or a short method:

- Files, locks, the clock and Flask are lifted out.
- Stored maps, line sequences and the current time are parameters.
- Operations that update a store return the store that would be saved.

Modules, one per file:

| module | file | models |
|---|---|---|
| `Wrappers` | wrappers.dfy | `Option` (Python's `None` / `False` results) |
| `Text` | text.dfy | ASCII `lower`, `strip`, `split`, `", ".join`, `%d` and their partners |
| `Seqs` | seqs.dfy | duplicate-free sequences and first-appearance de-duplication |
| `MacAddress` | mac.dfy | `ValidateMac` |
| `Duration` | duration.dfy | `_fmt_duration`, with a parser as its partner |
| `Sessions` | sessions.dfy | the reconcile block of `_poll_leases` |
| `Registry` | registry.dfy | `RegisterMac`, `DeregisterMac`, `LookupMac`, `LookupNick` |
| `Neigh` | neigh.dfy | the `GetIgnoreMacs` filter and `GetActive` |
| `Presence` | presence.dfy | `_get_presence` |
| `Render` | render.dfy | `plain_resp` and `json_resp` |

Modelling choices:

- Text is ASCII. Whitespace is Python's ASCII `isspace` set, and lower-casing
  maps only `A`-`Z`.
- A Python dict that is iterated is a sequence of its items in iteration
  order. This covers the sessions snapshot in `_get_presence` and the
  `registered` dict it builds.
- Timestamps are integers.
- The duration parser that partners `_fmt_duration` reads only the
  formatter's own grammar: `Ns` with `N` below 60 (or `-Ns` for a negative
  time), `Nm` with `N` from 1 to 59, `Nh` with `N` positive, and `Nh Mm`
  with `M` from 1 to 59, each numeral without a leading zero.

Where a reader might expect otherwise, the model follows the code:

- `ValidateMac` accepts any text after a valid 17-character prefix, because
  `re.match` anchors only at the start. It does not reject every string that
  is not exactly an address.
- A lease start of `0` counts as missing, because the test is Python
  truthiness, and the poll time is used instead.
- The reconcile save flag fires only on departures, not on every membership
  change. This is the first entry under Findings.
- A poll that finds no lease file reconciles against an empty active map
  (api.py:80-81). `Sessions.Reconcile` then drops every session, as its
  key-set contract shows; prior state is not kept.

## Model

| member | source | states |
|---|---|---|
| MacAddress.ValidateMac | api.py:29-33 | accepts exactly when the input has at least 17 characters, each a hex digit or, at every third position, `:` or `-`. Trailing text is allowed because the match is anchored only at the start. An accepted result has the input's length and a canonical first 17 characters (lower-case hex pairs joined by `:`). At every position the result holds the input's character lower-cased, or `:` where the input has `-` |
| MacAddress.MatchesPrefixIndexed | api.py:29 | the pattern, matched group by group (a hex pair, then five separator-and-pair groups), matches exactly when the first 17 characters meet the per-position rule |
| MacAddress.CanonicalIsFixedPoint | api.py:29-33 | an address that is already canonical, with no `-` or upper-case letter after it, validates to itself |
| MacAddress.ValidateIdempotent | api.py:29-33 | validating an accepted output returns that output unchanged |
| MacAddress.ValidateIgnoresCase | api.py:29-32 | lower-casing the input first changes neither acceptance nor result |
| MacAddress.ValidateIgnoresDelimiter | api.py:29-32 | turning `-` into `:` first changes neither acceptance nor result |
| MacAddress.ValidateNormalisesExample | api.py:29-33 | `AA-bb:CC-dd:EE-ff` becomes `aa:bb:cc:dd:ee:ff` |
| MacAddress.ValidateKeepsTrailingExample | api.py:29-33 | `aa:bb:cc:dd:ee:ffXYZ` is accepted as `aa:bb:cc:dd:ee:ffxyz` |
| MacAddress.ValidateRejectsExamples | api.py:29-33 | a 16-character address and one with the digit `g` are rejected |
| Duration.FmtDuration | api.py:52-63 | the unit letter is `s` exactly below a minute. It is `h` exactly from an hour on with no minutes left over, and `m` in every other case from a minute on |
| Duration.FmtDurationRoundTrip | api.py:52-63 | parsing the text back gives the seconds below a minute, negative times included, and the time truncated to whole minutes from a minute on |
| Duration.ParseDurationExact | api.py:52-63 | the parser accepts only texts the formatter prints: whatever it reads, formatting the value read gives back exactly that text |
| Duration.FmtDurationUnique | api.py:52-63 | a text reads back as the shown value of a time exactly when it is the formatter's text for that time, so the formatter's output is the only text with that reading |
| Duration.FmtDurationDistinguishes | api.py:52-63 | two times print alike exactly when they are equal below a minute, or agree in whole minutes from a minute on |
| Duration.FmtDurationExamples | api.py:52-63 | 45 gives `45s`, 125 gives `2m`, 3661 gives `1h 1m`, 7200 gives `2h` |
| Duration.RoundTripHoursAndMinutes | api.py:59-62 | the `"%dh %dm"` text reads back as hours and minutes |
| Sessions.Reconcile | api.py:84-98 | the tracked MACs become exactly the active ones. An already tracked MAC keeps its arrival. A new MAC gets its lease start when that is truthy, and the poll time otherwise. The save flag is true exactly when some MAC departed |
| Sessions.ReconcileIntended | api.py:97-98 | same sessions as `Reconcile`. The save flag is true exactly when the tracked set differs from the active set |
| Sessions.ArrivalAloneIsNotSaved | api.py:97-98 | a first poll that only adds a device does not save, though the corrected test would |
| Sessions.ReconcileIdempotent | api.py:84-98 | a second reconcile against the same active map, at any time, changes nothing and does not save |
| Sessions.ReconcileIntendedIdempotent | api.py:84-98 | the corrected step is idempotent too |
| Sessions.ArrivalStableWhilePresent | api.py:76-98 | a MAC active in every poll of a run keeps its arrival from before the run, whatever lease starts are reported |
| Sessions.Run | api.py:76-100 | an empty run of polls leaves the sessions alone. After any other run the tracked MACs are exactly those of the last poll |
| Registry.RegisterMac | dhcpreg.py:43-49 | succeeds exactly when the lower-cased MAC has no truthy nickname. On success it stores the name there and adds only that key. Every other entry is kept, and on failure nothing changes |
| Registry.DeregisterMac | dhcpreg.py:52-61 | succeeds exactly when the MAC, exactly as given, is stored with exactly that nickname. It then removes that key alone. Otherwise, including for a missing key, nothing changes |
| Registry.DeregisterMacIntended | dhcpreg.py:52-61 | with the MAC lower-cased, it succeeds exactly when `LookupMac` yields that nickname, and then removes that key alone |
| Registry.LookupMac | dhcpreg.py:64-68 | yields a value exactly when the lower-cased MAC is stored, and the value is the one stored under it |
| Registry.LookupNick | dhcpreg.py:71-72 | returns exactly the stored MACs whose nickname equals the argument |
| Registry.RegisterThenLookup | dhcpreg.py:43-68 | after a successful registration with a non-empty name, the MAC, as given or lower-cased, looks up to that name, and a later claim on it fails |
| Registry.RegisterThenLookupNick | dhcpreg.py:43-72 | after a successful registration the lower-cased MAC is among the nickname's MACs |
| Registry.DeregisterMissesUpperCase | dhcpreg.py:43-68 | a MAC registered in upper case is found by `LookupMac` with that string, but deregistering with that string fails |
| Registry.RegisterThenDeregister | dhcpreg.py:43-61 | registering a fresh MAC and then deregistering it with the corrected operation restores the store |
| Neigh.KeepsIgnoreLineIff | dhcpreg.py:36-37 | a line is kept exactly when its stripped text is non-empty and does not start with `#` |
| Neigh.IgnoreMacs | dhcpreg.py:36-37 | every kept entry is non-empty, has no surrounding whitespace and does not start with `#` |
| Neigh.IgnoreMacsMembers | dhcpreg.py:36-37 | an entry is on the list exactly when some kept line strips to it |
| Neigh.IgnoreMacsAppend | dhcpreg.py:36-37 | the filter works line by line, so file order is kept |
| Neigh.LineMac | dhcpreg.py:88-96 | a line yields a MAC exactly when some `lladdr` token has a token after it and the last token is not `FAILED`. The MAC is the lower-cased token after the first `lladdr` |
| Neigh.Contribution | dhcpreg.py:94-98 | a line contributes at most one MAC, and a MAC is contributed exactly when the line yields it and it is not on the ignore list |
| Neigh.KeptMembers | dhcpreg.py:87-98 | a MAC is kept exactly when it is not ignored and some line yields it |
| Neigh.CandidatesMembers | dhcpreg.py:87-98 | a MAC is a candidate of the neighbour table exactly when it is not on the ignore list and one of the lines yields it |
| Neigh.ResolvedNicksMembers | dhcpreg.py:99-101 | a nickname is collected exactly when some candidate MAC looks up to it truthily |
| Neigh.UnresolvedMacsMembers | dhcpreg.py:99-103 | a MAC is collected exactly when it is a candidate that does not resolve |
| Neigh.AbsorbLine | dhcpreg.py:87-103 | given the two lists built from the candidates so far, one loop iteration gives the lists for those candidates followed by the next line's MAC, when it yields one that is not ignored |
| Neigh.GetActive | dhcpreg.py:75-105 | the two lists are the de-duplicated, first-appearance-ordered nicknames of the resolving candidates and MACs of the non-resolving ones |
| Neigh.GetActiveContents | dhcpreg.py:99-105 | both lists are free of repeats. Each candidate feeds exactly one list: its nickname when registered, itself otherwise. Nothing else appears, and no ignored MAC does |
| Seqs.Dedup | dhcpreg.py:100-103 | the result is free of repeats and holds exactly the input's elements |
| Seqs.DedupSnoc | dhcpreg.py:100-103 | appending an element extends the de-duplicated list exactly when the element is new, matching the `not in` tests |
| Seqs.DedupFirstAppearanceOrder | dhcpreg.py:100-103 | the de-duplicated list is in order of first appearance |
| Presence.Record | api.py:114-115 | the nicknames stay as they were when the nickname is known, and gain it at the end otherwise. A new nickname takes the arrival given. A known one keeps its position and takes the new arrival only when that is truthy and earlier. Every other attendee is untouched |
| Presence.Collect | api.py:109-117 | the nicknames collected are the resolved nicknames of the snapshot, de-duplicated in first-seen order. `others` is the number of snapshot items whose MAC does not resolve to a truthy nickname |
| Presence.ClaimedNicksMembers | api.py:111-114 | a nickname is claimed exactly when some snapshot item resolves to it |
| Presence.CollectEarliest | api.py:111-115 | with no zero arrival, each collected nickname carries the least arrival among the items that resolve to it |
| Presence.SortByArrival | api.py:119 | the output is a permutation of the input, sorted by arrival |
| Presence.SortStable | api.py:119 | attendees with equal arrival keep their relative order |
| Presence.SortKeepsNicks | api.py:119 | sorting keeps the set of nicknames and keeps them distinct |
| Presence.GetPresence | api.py:103-120 | each resolved nickname appears exactly once and nothing else appears. The list is sorted by arrival, and `others` counts the unresolved items |
| Presence.PresenceEarliest | api.py:103-120 | with no zero arrival, each nickname in the view carries the earliest arrival among its MACs |
| Render.PlainPartReadsBack | api.py:171-175 | an entry is the bare nickname when the arrival is falsy. Otherwise it is the nickname, ` (`, a duration that parses back to the elapsed time (whole minutes from a minute on), and `)` |
| Render.UnregisteredReadsBack | api.py:176-178 | the suffix is empty exactly when `others` is zero. Otherwise it is the label followed by a numeral that reads back as `others` |
| Render.Plain | api.py:166-179 | with nobody present the text is only the suffix. With at least one attendee and no comma in any nickname, splitting the text at `, ` gives back the entries in order, with the suffix attached to the last |
| Render.JsonEntryOf | api.py:157-162 | the entry has the attendee's nickname. `arrived` is present exactly for a truthy arrival and equals it. `duration` is present exactly then, and parses back to the elapsed time, truncated to minutes from a minute on |
| Render.Json | api.py:152-163 | one entry per attendee, in order, each reading back as that attendee as for `JsonEntryOf`, and the same `others` count |
| Render.PlainAgreesWithJson | api.py:156-179 | the plain text is determined by the JSON document: its parts joined by `, `, then the suffix for its `others` |
| Render.FirstPollPresence | api.py:103-120 | one MAC registered to alice and one unknown MAC, both arriving at 1000, give alice from 1000 and one unregistered device, in either iteration order |
| Render.FirstPollPlain | api.py:166-179 | 125 seconds later the plain text is `alice (2m) - Unregistered: 1` |
| Render.FirstPollJson | api.py:152-163 | at the same moment the JSON holds alice with arrival 1000 and duration `2m`, and `others` is 1 |
| Text.Split | dhcpreg.py:88 | every token is non-empty and holds no whitespace |
| Text.SplitJoin | dhcpreg.py:88 | splitting space-joined whitespace-free words gives the words back |
| Text.StripShape | dhcpreg.py:36-37 | the stripped text is the input with its leading and trailing whitespace cut, and it is empty exactly when the input is all whitespace |
| Text.FieldsJoin | api.py:179 | splitting a `", "`-join of comma-free parts at commas gives the parts back |
| Text.DecimalRoundTrip | api.py:55-63 | the `%d` numeral of a natural number reads back as that number |
| Text.NumeralRoundTrip | api.py:55-63 | a digit string without a leading zero is the `%d` numeral of its own value |

## Left out

- The poller's thread, its lock and its sleep (api.py:26, 73-76, 100, 183-185). Reconcile is one pure step, and `Sessions.Run` chains steps.
- File I/O and JSON persistence. Loading and saving sessions (api.py:36-49) and registrations (dhcpreg.py:18-30) are not modelled, nor is opening the ignore list or the neighbour table. The maps and line sequences are parameters.
- The clock. `time.time()` floats and the `int()` truncation of arrivals and elapsed times (api.py:53, 83, 155, 160-161) are not modelled; `now` and arrivals are integers.
- The Flask routes `reg`, `dereg` and `list_nick_macs` (api.py:123-149) are request plumbing around `ValidateMac` and the registry operations, which are modelled.
- hawk.py is a Python 2 app over a module that is not part of this model. Its `ValidateMac` is identical to api.py's, and the model covers both.
- cli.py is an interactive input loop with no logic of its own. It appears only as the caller in the deregistration finding.
- `GetActiveMacs`, called at api.py:79, is not defined in dhcpreg.py. The lease-file formats are not part of this model, and reconcile takes an abstract active map.
- Regular expressions in general. The single MAC pattern is written as a per-position predicate.
- Non-ASCII text. Python's Unicode `lower`, `strip` and `split` are modelled on their ASCII behaviour.
- `GetActive` takes the neighbour table as its lines. `fp.read().strip().splitlines()` is not modelled; blank lines it would drop contribute nothing in the model either.
- Registry.LookupNick: returns a set. The source's list follows the stored mapping's iteration order, which the map model does not have.
- JSON serialisation. `json_resp` is modelled as a structured document, so key order, escaping and number formatting of `flask.json.dumps` are left out.
- Presence.PresenceEarliest: requires every arrival to be non-zero. With a zero (falsy) arrival the source keeps whatever the dict order gives. The model follows the same rule but states no minimum for it.
- Presence.CollectEarliest: the same requirement, for the same reason.
- Presence.SortByArrival: sorts by arrival alone. The source's key `(x[1] is None, x[1])` also orders `None` last, but arrivals here are always integers.

## Findings

| source | as written | input that shows it | evidently intended | confidence | as-written member | corrected member |
|---|---|---|---|---|---|---|
| api.py:97 | the save test `departed or set(active_macs) - set(_sessions)` runs after new MACs were inserted, so its second term is always empty | a first poll with one new device and nothing departed: the new arrival is not written to disk | save whenever a MAC arrived or departed | high, not executed | Sessions.ArrivalAloneIsNotSaved | Sessions.ReconcileIntended |
| dhcpreg.py:52-61 | `DeregisterMac` looks the MAC up exactly as given, while `RegisterMac` and `LookupMac` lower-case it (the menu in cli.py:34-40 calls `LookupMac` and then `DeregisterMac` with the same string) | register `AA:BB:CC:DD:EE:FF` to alice; `LookupMac` with that string finds alice, and `DeregisterMac` with it fails | lower-case the MAC before the lookup, as the other operations do | medium, not executed | Registry.DeregisterMissesUpperCase | Registry.DeregisterMacIntended |
