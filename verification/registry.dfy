/**
 * The registration store of dhcpreg.py: a mapping from MAC address to
 * nickname. Loading and saving the JSON file are lifted out; every operation
 * takes the loaded mapping and the updating ones return the mapping that
 * would be saved.
 *
 * `RegisterMac` and `LookupMac` lower-case the MAC they are given;
 * `DeregisterMac` uses it exactly as given.
 */
module Registry {
  import opened Wrappers
  import opened Text

  type Users = map<string, string>

  datatype Update = Update(ok: bool, users: Users)

  /** `users.get(key)` is truthy: present and a non-empty nickname. */
  predicate Claimed(users: Users, key: string) {
    key in users && users[key] != ""
  }

  /** `RegisterMac(mac, name)`: first claim wins. Succeeds when the
      lower-cased MAC holds no truthy nickname, and then stores `name` under
      it; otherwise nothing changes. */
  function RegisterMac(users: Users, mac: string, name: string): (r: Update)
    ensures r.ok <==> !Claimed(users, Lower(mac))
    ensures r.ok ==> Lower(mac) in r.users && r.users[Lower(mac)] == name
    ensures r.ok ==> r.users.Keys == users.Keys + {Lower(mac)}
    ensures forall k :: k in users && k != Lower(mac) ==> k in r.users && r.users[k] == users[k]
    ensures !r.ok ==> r.users == users
  {
    var key := Lower(mac);
    if !Claimed(users, key) then Update(true, users[key := name]) else Update(false, users)
  }

  /** `DeregisterMac(mac, nick)` as written: succeeds only when `mac`, not
      lower-cased, is a key whose nickname is exactly `nick`, and then
      removes that key alone. A missing key (the source's `KeyError`) or
      another nickname leaves the store unchanged. */
  function DeregisterMac(users: Users, mac: string, nick: string): (r: Update)
    ensures r.ok <==> mac in users && users[mac] == nick
    ensures r.ok ==> r.users.Keys == users.Keys - {mac}
    ensures forall k :: k in r.users ==> k in users && r.users[k] == users[k]
    ensures !r.ok ==> r.users == users
  {
    if mac in users && users[mac] == nick then Update(true, users - {mac}) else Update(false, users)
  }

  /** Deregistration with the MAC lower-cased as registration and lookup
      do it. */
  function DeregisterMacIntended(users: Users, mac: string, nick: string): (r: Update)
    ensures r.ok <==> LookupMac(users, mac) == Some(nick)
    ensures r.ok ==> r.users.Keys == users.Keys - {Lower(mac)}
    ensures forall k :: k in r.users ==> k in users && r.users[k] == users[k]
    ensures !r.ok ==> r.users == users
  {
    DeregisterMac(users, Lower(mac), nick)
  }

  /** `LookupMac(mac)`: the nickname under the lower-cased MAC, or `None`. */
  function LookupMac(users: Users, mac: string): (r: Option<string>)
    ensures r.Some? <==> Lower(mac) in users
    ensures r.Some? ==> r.value == users[Lower(mac)]
  {
    var key := Lower(mac);
    if key in users then Some(users[key]) else None
  }

  /** The nickname `LookupMac` yields when it is truthy (non-empty). */
  predicate Resolves(users: Users, mac: string) {
    var n := LookupMac(users, mac);
    n.Some? && n.value != ""
  }

  /** `LookupNick(nick)`: every MAC registered under exactly `nick`. The
      source returns them as a list in the stored mapping's order; the
      model returns the set. */
  method LookupNick(users: Users, nick: string) returns (macs: set<string>)
    ensures forall m :: m in macs <==> m in users && users[m] == nick
  {
    macs := {};
    var todo := users.Keys;
    while todo != {}
      invariant todo <= users.Keys
      invariant forall m :: m in macs <==> m in users && m !in todo && users[m] == nick
      decreases |todo|
    {
      var m :| m in todo;
      if users[m] == nick {
        macs := macs + {m};
      }
      todo := todo - {m};
    }
  }

  /** After a successful registration the MAC, in any case, looks up to the
      new nickname, and a later claim on it with a non-empty nickname fails. */
  lemma RegisterThenLookup(users: Users, mac: string, name: string, other: string)
    requires RegisterMac(users, mac, name).ok
    requires name != ""
    ensures var u := RegisterMac(users, mac, name).users;
      LookupMac(u, mac) == Some(name) &&
      LookupMac(u, Lower(mac)) == Some(name) &&
      !RegisterMac(u, Lower(mac), other).ok
  {
    LowerIdempotent(mac);
  }

  /** After a successful registration the lower-cased MAC is among the
      MACs `LookupNick` reports for the nickname. */
  method RegisterThenLookupNick(users: Users, mac: string, name: string) returns (macs: set<string>)
    requires RegisterMac(users, mac, name).ok
    ensures Lower(mac) in macs
    ensures forall m :: m in macs && m != Lower(mac) ==> m in users && users[m] == name
  {
    macs := LookupNick(RegisterMac(users, mac, name).users, name);
  }

  /** The asymmetry as written: a MAC registered in upper case cannot be
      deregistered by the same string, though `LookupMac` finds it. */
  lemma DeregisterMissesUpperCase()
    ensures var u := RegisterMac(map[], "AA:BB:CC:DD:EE:FF", "alice").users;
      LookupMac(u, "AA:BB:CC:DD:EE:FF") == Some("alice") &&
      !DeregisterMac(u, "AA:BB:CC:DD:EE:FF", "alice").ok
  {
    var up := "AA:BB:CC:DD:EE:FF";
    assert Lower(up) == "aa:bb:cc:dd:ee:ff";
    assert Lower(up) != up;
  }

  /** With the key lower-cased, deregistering right after registering a
      fresh MAC restores the store. */
  lemma RegisterThenDeregister(users: Users, mac: string, name: string)
    requires Lower(mac) !in users
    ensures var u := RegisterMac(users, mac, name).users;
      DeregisterMacIntended(u, mac, name) == Update(true, users)
  {
    var u := RegisterMac(users, mac, name).users;
    assert DeregisterMacIntended(u, mac, name).users == users;
  }
}
