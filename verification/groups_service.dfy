/**
  The viewer-group service of the settings window (`groupsService`): the custom viewer groups
  kept in a JSON store keyed by group name, the in-memory list `groups` loaded from it, the
  special group "banned" that always exists once ensured, and the de-duplicated list of the
  default groups of the selected board's scenes.

  The JSON file is modelled as an ordered list of `(key, group)` entries with distinct keys
  (a JavaScript object: replacing a key keeps its place, a new key goes to the end).
*/
module ViewerGroups {
  import opened Text

  /** A viewer group: its name and its users. */
  datatype Group = Group(groupName: string, users: seq<string>)

  /** A scene of a board, with the groups that may use it by default (`scene.default`). */
  datatype Scene = Scene(defaultGroups: seq<string>)

  /** One key of the JSON store, written as `"/" + group.groupName`. */
  datatype Entry = Entry(key: string, group: Group)

  const BannedGroupName: string := "banned"

  /** The group `ensureBannedGroupExists` creates. */
  const EmptyBannedGroup: Group := Group(BannedGroupName, [])

  // ---------------------------------------------------------------------------------------
  // The keyed store

  /** A JSON object never holds a key twice. */
  predicate KeysUnique(store: seq<Entry>) {
    forall i, j :: 0 <= i < j < |store| ==> store[i].key != store[j].key
  }

  /** Every group is stored under its own name. */
  predicate KeyedByName(store: seq<Entry>) {
    forall i :: 0 <= i < |store| ==> store[i].key == store[i].group.groupName
  }

  /** The position of `key` in the store, if present. */
  function FindKey(store: seq<Entry>, key: string): (k: Option<nat>)
    ensures k.Some? ==> k.value < |store| && store[k.value].key == key
    ensures forall j :: 0 <= j < |store| && (k.None? || j < k.value) ==> store[j].key != key
  {
    if store == [] then None
    else if store[0].key == key then Some(0)
    else match FindKey(store[1..], key)
      case None => None
      case Some(k) => Some(k + 1)
  }

  /** The group the store holds under `key`, if any. */
  function Lookup(store: seq<Entry>, key: string): (g: Option<Group>)
    ensures g.Some? <==> FindKey(store, key).Some?
    ensures g.Some? ==> g.value == store[FindKey(store, key).value].group
  {
    match FindKey(store, key)
    case None => None
    case Some(k) => Some(store[k].group)
  }

  /** `push("/" + key, g)`: a present key keeps its place and gets the new group; a new key is
      appended. */
  function Put(store: seq<Entry>, key: string, g: Group): (r: seq<Entry>)
    ensures FindKey(store, key).None? ==> r == store + [Entry(key, g)]
    ensures FindKey(store, key).Some? ==> r == store[FindKey(store, key).value := Entry(key, g)]
  {
    if store == [] then [Entry(key, g)]
    else if store[0].key == key then [Entry(key, g)] + store[1..]
    else [store[0]] + Put(store[1..], key, g)
  }

  /** After a put the key holds the new group and every other key what it held before; the
      keys stay distinct, and a group put under its own name keeps the store keyed by name. */
  lemma PutLookup(store: seq<Entry>, key: string, g: Group)
    requires KeysUnique(store)
    ensures Lookup(Put(store, key, g), key) == Some(g)
    ensures forall k :: k != key ==> Lookup(Put(store, key, g), k) == Lookup(store, k)
    ensures KeysUnique(Put(store, key, g))
    ensures KeyedByName(store) && g.groupName == key ==> KeyedByName(Put(store, key, g))
  {
    var r := Put(store, key, g);
    PutEntries(store, key, g);
    PutKeepsUnique(store, key, g);
    LookupIsMembership(r, key);
    assert Entry(key, g) in r;
    forall k | k != key ensures Lookup(r, k) == Lookup(store, k) {
      LookupIsMembership(store, k);
      LookupIsMembership(r, k);
      var a := Lookup(r, k);
      var b := Lookup(store, k);
      if a.Some? {
        assert Entry(k, a.value) in store;
      }
      if b.Some? {
        assert Entry(k, b.value) in r;
      }
    }
    if KeyedByName(store) && g.groupName == key {
      forall i | 0 <= i < |r| ensures r[i].key == r[i].group.groupName {
        assert r[i] in r;
      }
    }
  }

  /** The entries after a put: the new one and all others but the one under `key`. */
  lemma PutEntries(store: seq<Entry>, key: string, g: Group)
    requires KeysUnique(store)
    ensures forall e :: e in Put(store, key, g) <==> (e in store && e.key != key) || e == Entry(key, g)
  {
    var f := FindKey(store, key);
    var r := Put(store, key, g);
    if f.Some? {
      var i := f.value;
      forall e | e in store && e.key != key ensures e in r {
        var j :| 0 <= j < |store| && store[j] == e;
        assert r[j] == e;
      }
      forall e | e in r && e != Entry(key, g) ensures e in store && e.key != key {
        var j :| 0 <= j < |r| && r[j] == e;
        assert j != i && r[j] == store[j];
      }
      assert r[i] == Entry(key, g);
    } else {
      assert r == store + [Entry(key, g)];
      assert r[|store|] == Entry(key, g);
    }
  }

  /** A put keeps the keys distinct. */
  lemma PutKeepsUnique(store: seq<Entry>, key: string, g: Group)
    requires KeysUnique(store)
    ensures KeysUnique(Put(store, key, g))
  {
    var f := FindKey(store, key);
    var r := Put(store, key, g);
    forall i, j | 0 <= i < j < |r| ensures r[i].key != r[j].key {
      if f.None? && j == |store| {
        assert r[i] == store[i];
      } else if f.Some? && (i == f.value || j == f.value) {
        assert r[i].key != r[j].key;
      } else {
        assert r[i] == store[i] && r[j] == store[j];
      }
    }
  }

  /** `delete("/" + key)`: the entry under `key` goes, the others stay in order. */
  function Delete(store: seq<Entry>, key: string): (r: seq<Entry>)
    ensures FindKey(store, key).None? ==> r == store
    ensures FindKey(store, key).Some? ==> |r| == |store| - 1
    ensures FindKey(store, key).Some? ==>
      var i := FindKey(store, key).value;
      r == store[..i] + store[i + 1..]
  {
    match FindKey(store, key)
    case None => store
    case Some(i) => store[..i] + store[i + 1..]
  }

  /** With distinct keys, a lookup finds exactly the entries of the store. */
  lemma LookupIsMembership(store: seq<Entry>, k: string)
    requires KeysUnique(store)
    ensures forall g :: Lookup(store, k) == Some(g) <==> Entry(k, g) in store
  {
    forall g ensures Lookup(store, k) == Some(g) <==> Entry(k, g) in store {
      if Entry(k, g) in store {
        var j :| 0 <= j < |store| && store[j] == Entry(k, g);
        assert FindKey(store, k).Some?;
      }
    }
  }

  /** The entries left by a delete: all but the one under `key`. */
  lemma DeletedEntries(store: seq<Entry>, key: string)
    requires KeysUnique(store)
    ensures forall e :: e in Delete(store, key) <==> e in store && e.key != key
  {
    var f := FindKey(store, key);
    if f.Some? {
      var i := f.value;
      assert Delete(store, key) == store[..i] + store[i + 1..];
      forall e | e in store && e.key != key ensures e in store[..i] + store[i + 1..] {
        var j :| 0 <= j < |store| && store[j] == e;
        KeptEntry(store, i, j);
      }
      forall e | e in store[..i] + store[i + 1..] ensures e in store && e.key != key {
        var r := store[..i] + store[i + 1..];
        var j :| 0 <= j < |r| && r[j] == e;
        RemainingEntry(store, i, j);
      }
    }
  }

  lemma KeptEntry(store: seq<Entry>, i: nat, j: nat)
    requires i < |store| && j < |store| && j != i
    ensures store[j] in store[..i] + store[i + 1..]
  {
    var r := store[..i] + store[i + 1..];
    if j < i {
      assert r[j] == store[j];
    } else {
      assert r[j - 1] == store[j];
    }
  }

  lemma RemainingEntry(store: seq<Entry>, i: nat, j: nat)
    requires KeysUnique(store) && i < |store| && j < |store| - 1
    ensures var r := store[..i] + store[i + 1..];
      r[j] in store && r[j].key != store[i].key
  {
    var r := store[..i] + store[i + 1..];
    var j' := if j < i then j else j + 1;
    assert r[j] == store[j'];
  }

  /** After a delete the key is gone and every other key holds what it held before; the keys
      stay distinct and keyed by name. */
  lemma DeleteLookup(store: seq<Entry>, key: string)
    requires KeysUnique(store)
    ensures FindKey(Delete(store, key), key).None?
    ensures forall k :: k != key ==> Lookup(Delete(store, key), k) == Lookup(store, k)
    ensures KeysUnique(Delete(store, key))
    ensures KeyedByName(store) ==> KeyedByName(Delete(store, key))
  {
    var r := Delete(store, key);
    DeletedEntries(store, key);
    DeleteKeepsUnique(store, key);
    forall j | 0 <= j < |r| ensures r[j].key != key {
      assert r[j] in r;
    }
    forall k | k != key ensures Lookup(r, k) == Lookup(store, k) {
      LookupIsMembership(store, k);
      LookupIsMembership(r, k);
      var a := Lookup(r, k);
      var b := Lookup(store, k);
      if a.Some? {
        assert Entry(k, a.value) in store;
      }
      if b.Some? {
        assert Entry(k, b.value) in r;
      }
    }
    if KeyedByName(store) {
      forall i | 0 <= i < |r| ensures r[i].key == r[i].group.groupName {
        assert r[i] in store;
      }
    }
  }

  /** Removing one entry keeps the keys distinct. */
  lemma DeleteKeepsUnique(store: seq<Entry>, key: string)
    requires KeysUnique(store)
    ensures KeysUnique(Delete(store, key))
  {
    var f := FindKey(store, key);
    if f.Some? {
      var i := f.value;
      var r := Delete(store, key);
      forall a, b | 0 <= a < b < |r| ensures r[a].key != r[b].key {
        var a' := if a < i then a else a + 1;
        var b' := if b < i then b else b + 1;
        assert r[a] == store[a'] && r[b] == store[b'];
      }
    }
  }

  /** `_.values(store)`: the groups in key order. */
  function Values(store: seq<Entry>): (gs: seq<Group>)
    ensures |gs| == |store|
    ensures forall i :: 0 <= i < |store| ==> gs[i] == store[i].group
  {
    seq(|store|, i requires 0 <= i < |store| => store[i].group)
  }

  // ---------------------------------------------------------------------------------------
  // Looking groups up by name

  /** `_.findWhere(gs, {groupName: name})`, as an index; `_.any` is `.Some?`. */
  function FindNamed(gs: seq<Group>, name: string): (k: Option<nat>)
    ensures k.Some? ==> k.value < |gs| && gs[k.value].groupName == name
    ensures forall j :: 0 <= j < |gs| && (k.None? || j < k.value) ==> gs[j].groupName != name
  {
    if gs == [] then None
    else if gs[0].groupName == name then Some(0)
    else match FindNamed(gs[1..], name)
      case None => None
      case Some(k) => Some(k + 1)
  }

  predicate HasBanned(gs: seq<Group>): (b: bool)
    ensures b <==> exists i :: 0 <= i < |gs| && gs[i].groupName == BannedGroupName
  {
    FindNamed(gs, BannedGroupName).Some?
  }

  /** In a store keyed by name, the group found by name among the values is the one stored
      under that name. */
  lemma NamedIsKeyed(store: seq<Entry>, name: string)
    requires KeyedByName(store)
    ensures FindNamed(Values(store), name) == FindKey(store, name)
  {
    var gs := Values(store);
    var a := FindNamed(gs, name);
    var b := FindKey(store, name);
    if a.Some? {
      assert store[a.value].key == name;
    }
    if b.Some? {
      assert gs[b.value].groupName == name;
    }
  }

  /** The groups once `ensureBannedGroupExists` has run on them. */
  function EnsuredGroups(gs: seq<Group>): (r: seq<Group>)
    ensures HasBanned(r)
    ensures HasBanned(gs) ==> r == gs
    ensures !HasBanned(gs) ==> FindNamed(r, BannedGroupName) == Some(|gs|) && r[|gs|].users == []
    ensures !HasBanned(gs) ==> r == gs + [EmptyBannedGroup]
  {
    if HasBanned(gs) then gs
    else
      var r := gs + [EmptyBannedGroup];
      assert r[|gs|] == EmptyBannedGroup;
      FindNamedAppended(gs, EmptyBannedGroup);
      r
  }

  /** A group appended after groups of other names is the first of its name. */
  lemma FindNamedAppended(gs: seq<Group>, g: Group)
    requires FindNamed(gs, g.groupName).None?
    ensures FindNamed(gs + [g], g.groupName) == Some(|gs|)
  {
    var r := gs + [g];
    assert forall j :: 0 <= j < |gs| ==> r[j] == gs[j];
    assert r[|gs|] == g;
  }

  /** Replacing the first group of a name by another of that name keeps it first. */
  lemma FindNamedUpdated(gs: seq<Group>, i: nat, g: Group)
    requires FindNamed(gs, g.groupName) == Some(i)
    ensures FindNamed(gs[i := g], g.groupName) == Some(i)
  {
    var r := gs[i := g];
    assert forall j :: 0 <= j < i ==> r[j] == gs[j];
    assert r[i] == g;
  }

  /** Ensuring twice is ensuring once. */
  lemma EnsureIdempotent(gs: seq<Group>)
    ensures EnsuredGroups(EnsuredGroups(gs)) == EnsuredGroups(gs)
  {
  }

  /** The store once `ensureBannedGroupExists` has run with the in-memory list `gs`. */
  function EnsuredStore(store: seq<Entry>, gs: seq<Group>): (r: seq<Entry>)
    requires KeysUnique(store)
    ensures HasBanned(gs) ==> r == store
    ensures !HasBanned(gs) ==> Lookup(r, BannedGroupName) == Some(EmptyBannedGroup)
    ensures !HasBanned(gs) ==> r == Put(store, BannedGroupName, EmptyBannedGroup)
    ensures forall k :: k != BannedGroupName ==> Lookup(r, k) == Lookup(store, k)
    ensures KeysUnique(r)
    ensures KeyedByName(store) ==> KeyedByName(r)
  {
    if HasBanned(gs) then store
    else
      PutLookup(store, BannedGroupName, EmptyBannedGroup);
      Put(store, BannedGroupName, EmptyBannedGroup)
  }

  /** `_.reject(gs, g => g.groupName == "banned")`. */
  function WithoutBanned(gs: seq<Group>): (r: seq<Group>)
    ensures |r| <= |gs|
    ensures forall g :: g in r <==> g in gs && g.groupName != BannedGroupName
  {
    if gs == [] then []
    else if gs[0].groupName == BannedGroupName then WithoutBanned(gs[1..])
    else [gs[0]] + WithoutBanned(gs[1..])
  }

  /** `_.reject` keeps order and duplicates: it filters each part of a list on its own ... */
  lemma {:induction false} WithoutBannedAppend(a: seq<Group>, b: seq<Group>)
    ensures WithoutBanned(a + b) == WithoutBanned(a) + WithoutBanned(b)
  {
    if a == [] {
      assert a + b == b;
    } else {
      assert (a + b)[1..] == a[1..] + b;
      WithoutBannedAppend(a[1..], b);
    }
  }

  /** ... and keeps a single group exactly when it is not named "banned". */
  lemma WithoutBannedOne(g: Group)
    ensures WithoutBanned([g]) == if g.groupName == BannedGroupName then [] else [g]
  {
  }

  /** Without a banned group there is nothing to reject. */
  lemma {:induction false} WithoutBannedNoBanned(gs: seq<Group>)
    requires !HasBanned(gs)
    ensures WithoutBanned(gs) == gs
  {
    if gs != [] {
      assert FindNamed(gs[1..], BannedGroupName).None?;
      WithoutBannedNoBanned(gs[1..]);
    }
  }

  /** Reloading a store whose banned key was left as it was `before`: the banned key keeps its
      group, or gets an empty banned group when it had none. */
  lemma ReloadKeepsBanned(written: seq<Entry>, before: seq<Entry>)
    requires KeysUnique(written) && KeyedByName(written)
    requires Lookup(written, BannedGroupName) == Lookup(before, BannedGroupName)
    ensures Lookup(EnsuredStore(written, Values(written)), BannedGroupName)
      == if Lookup(before, BannedGroupName).Some? then Lookup(before, BannedGroupName) else Some(EmptyBannedGroup)
  {
    NamedIsKeyed(written, BannedGroupName);
  }

  // ---------------------------------------------------------------------------------------
  // The banned users list

  /** `users.splice(index, 1)`: a negative index counts from the end (and stops at 0), an
      index past the end removes nothing. */
  function Splice1(users: seq<string>, index: int): (r: seq<string>)
    ensures 0 <= index < |users| ==>
      |r| == |users| - 1
      && (forall k :: 0 <= k < index ==> r[k] == users[k])
      && (forall k :: index <= k < |r| ==> r[k] == users[k + 1])
    ensures index >= |users| ==> r == users
    ensures -|users| <= index < 0 ==> r == users[..|users| + index] + users[|users| + index + 1..]
    ensures index < -|users| ==> r == if users == [] then [] else users[1..]
  {
    var start := if index < 0 then (if |users| + index < 0 then 0 else |users| + index)
                 else if index > |users| then |users| else index;
    if start < |users| then users[..start] + users[start + 1..] else users
  }

  /** The element at `index` is the one that goes: the rest is what remains. */
  lemma SpliceRemovesOne(users: seq<string>, index: nat)
    requires index < |users|
    ensures multiset(Splice1(users, index)) + multiset{users[index]} == multiset(users)
  {
    assert users == users[..index] + [users[index]] + users[index + 1..];
  }

  /** A negative index is the index counted from the end. */
  lemma SpliceFromEnd(users: seq<string>, index: int)
    requires -|users| <= index < 0
    ensures Splice1(users, index) == Splice1(users, |users| + index)
  {
  }

  /** Removing the user just appended restores the list. */
  lemma SpliceUndoesAppend(users: seq<string>, user: string)
    ensures Splice1(users + [user], |users|) == users
  {
    var r := Splice1(users + [user], |users|);
    assert |r| == |users|;
  }

  /** The banned group's users with `username` appended, when it is given and not empty. */
  function WithUser(g: Group, username: Option<string>): (r: Group)
    ensures r.groupName == g.groupName
    ensures username.Some? && username.value != "" ==>
      |r.users| == |g.users| + 1 && r.users[..|g.users|] == g.users && r.users[|g.users|] == username.value
    ensures username.None? || username.value == "" ==> r == g
  {
    if username.Some? && username.value != "" then
      var r := g.(users := g.users + [username.value]);
      assert r.users[..|g.users|] == g.users;
      r
    else g
  }

  // ---------------------------------------------------------------------------------------
  // Active groups

  /** The default groups of all scenes, scene by scene. */
  function Flatten(scenes: seq<Scene>): (r: seq<string>)
    ensures forall k :: 0 <= k < |scenes| ==> multiset(scenes[k].defaultGroups) <= multiset(r)
  {
    if scenes == [] then []
    else Flatten(scenes[..|scenes| - 1]) + scenes[|scenes| - 1].defaultGroups
  }

  /** A name is in the flattened list exactly when some scene lists it. */
  lemma {:induction false} InFlatten(scenes: seq<Scene>, x: string)
    ensures x in Flatten(scenes) <==> exists k :: 0 <= k < |scenes| && x in scenes[k].defaultGroups
  {
    if scenes != [] {
      var init := scenes[..|scenes| - 1];
      if x in Flatten(scenes) && x !in scenes[|scenes| - 1].defaultGroups {
        InFlatten(init, x);
        var k :| 0 <= k < |init| && x in init[k].defaultGroups;
        assert scenes[k] == init[k];
      }
    }
    if exists k :: 0 <= k < |scenes| && x in scenes[k].defaultGroups {
      var k :| 0 <= k < |scenes| && x in scenes[k].defaultGroups;
      assert x in multiset(scenes[k].defaultGroups);
    }
  }

  /** The nested loop of `getActiveGroups`: every default group of every scene, in order. */
  method CollectDefaults(scenes: seq<Scene>) returns (groupList: seq<string>)
    ensures groupList == Flatten(scenes)
  {
    groupList := [];
    var i := 0;
    while i < |scenes|
      invariant 0 <= i <= |scenes|
      invariant groupList == Flatten(scenes[..i])
    {
      var sceneGroups := scenes[i].defaultGroups;
      var j := 0;
      while j < |sceneGroups|
        invariant 0 <= j <= |sceneGroups|
        invariant groupList == Flatten(scenes[..i]) + sceneGroups[..j]
      {
        groupList := groupList + [sceneGroups[j]];
        j := j + 1;
      }
      assert sceneGroups[..j] == sceneGroups;
      assert scenes[..i + 1][..i] == scenes[..i];
      i := i + 1;
    }
    assert scenes[..i] == scenes;
  }

  /** `xs.indexOf(x)`: the first position of `x`, or -1. */
  function IndexOf(xs: seq<string>, x: string): (k: int)
    ensures -1 <= k < |xs|
    ensures k >= 0 ==> xs[k] == x
    ensures forall j :: 0 <= j < |xs| && (k < 0 || j < k) ==> xs[j] != x
  {
    if xs == [] then -1
    else if xs[0] == x then 0
    else
      var k := IndexOf(xs[1..], x);
      if k < 0 then -1 else k + 1
  }

  predicate NoDuplicates(xs: seq<string>) {
    forall a, b :: 0 <= a < b < |xs| ==> xs[a] != xs[b]
  }

  /** `xs.filter((elem, pos) => xs.indexOf(elem) == pos)` over the first `n` positions. */
  function FirstOccurrences(xs: seq<string>, n: nat): (r: seq<string>)
    requires n <= |xs|
    ensures NoDuplicates(r)
    ensures forall x :: x in r <==> x in xs[..n]
    ensures forall a, b :: 0 <= a < b < |r| ==> IndexOf(xs, r[a]) < IndexOf(xs, r[b])
    ensures forall a :: 0 <= a < |r| ==> 0 <= IndexOf(xs, r[a]) < n
  {
    if n == 0 then []
    else
      var prev := FirstOccurrences(xs, n - 1);
      var x := xs[n - 1];
      assert xs[..n] == xs[..n - 1] + [x];
      if IndexOf(xs, x) == n - 1 then
        assert x !in xs[..n - 1];
        var r := prev + [x];
        assert forall a :: 0 <= a < |prev| ==> r[a] == prev[a];
        r
      else
        assert x in xs[..n - 1] by {
          assert xs[IndexOf(xs, x)] == x;
          assert xs[..n - 1][IndexOf(xs, x)] == x;
        }
        prev
  }

  /** The de-duplicating filter of `getActiveGroups`. */
  function Dedup(xs: seq<string>): (r: seq<string>)
    ensures NoDuplicates(r)
    ensures forall x :: x in r <==> x in xs
    ensures forall a, b :: 0 <= a < b < |r| ==> IndexOf(xs, r[a]) < IndexOf(xs, r[b])
  {
    assert xs[..|xs|] == xs;
    FirstOccurrences(xs, |xs|)
  }

  /** A list without duplicates is its own de-duplication. */
  lemma {:induction false} DedupOfDistinct(xs: seq<string>, n: nat)
    requires n <= |xs| && NoDuplicates(xs)
    ensures FirstOccurrences(xs, n) == xs[..n]
  {
    if n > 0 {
      DedupOfDistinct(xs, n - 1);
      var x := xs[n - 1];
      var k := IndexOf(xs, x);
      assert k == n - 1;
      assert xs[..n] == xs[..n - 1] + [x];
    }
  }

  /** De-duplicating twice is de-duplicating once. */
  lemma DedupIdempotent(xs: seq<string>)
    ensures Dedup(Dedup(xs)) == Dedup(xs)
  {
    var r := Dedup(xs);
    DedupOfDistinct(r, |r|);
    assert r[..|r|] == r;
  }

  // ---------------------------------------------------------------------------------------
  // The service

  class GroupsService {
    /** The JSON file `./user-settings/groups`. */
    var store: seq<Entry>
    /** The module-level `groups` array. */
    var groups: seq<Group>

    predicate Valid()
      reads this
    {
      KeysUnique(store) && KeyedByName(store)
    }

    /** The in-memory list mirrors the store. */
    predicate Synced()
      reads this
    {
      groups == Values(store)
    }

    constructor(store: seq<Entry>)
      requires KeysUnique(store) && KeyedByName(store)
      ensures Valid()
      ensures this.store == store && groups == []
    {
      this.store := store;
      groups := [];
    }

    /** `ensureBannedGroupExists`: when no group in memory is named "banned", an empty one is
        written to the store and appended to the list. */
    method EnsureBannedGroupExists()
      requires Valid()
      modifies this
      ensures Valid()
      ensures groups == EnsuredGroups(old(groups)) && store == EnsuredStore(old(store), old(groups))
    {
      if !HasBanned(groups) {
        PutLookup(store, BannedGroupName, EmptyBannedGroup);
        store := Put(store, BannedGroupName, EmptyBannedGroup);
        groups := groups + [EmptyBannedGroup];
      }
    }

    /** `loadViewerGroups`: the list becomes the store's groups, with the banned group ensured;
        afterwards the list mirrors the store. */
    method LoadViewerGroups()
      requires Valid()
      modifies this
      ensures Valid() && Synced() && HasBanned(groups)
      ensures store == EnsuredStore(old(store), Values(old(store)))
      ensures HasBanned(Values(old(store))) ==> store == old(store)
    {
      groups := Values(store);
      if !HasBanned(groups) {
        NamedIsKeyed(store, BannedGroupName);
        var r := Put(store, BannedGroupName, EmptyBannedGroup);
        assert Values(r) == groups + [EmptyBannedGroup];
      }
      EnsureBannedGroupExists();
    }

    /** `getViewerGroups(filterOutBannedGroup)`: `None` is a missing argument. Only an
        explicit `false` keeps the banned group. */
    function GetViewerGroups(filterOutBannedGroup: Option<bool>): (r: seq<Group>)
      reads this
      ensures filterOutBannedGroup == Some(false) ==> r == groups
      ensures filterOutBannedGroup != Some(false) ==> r == WithoutBanned(groups)
      ensures filterOutBannedGroup != Some(false) ==>
        forall g :: g in r <==> g in groups && g.groupName != BannedGroupName
    {
      if filterOutBannedGroup != Some(false) then WithoutBanned(groups) else groups
    }

    /** `getActiveGroups`: reloads the groups, then lists every default group of the scenes
        once, in the order of first appearance. */
    method GetActiveGroups(scenes: seq<Scene>) returns (groupList: seq<string>)
      requires Valid()
      modifies this
      ensures Valid() && Synced() && HasBanned(groups)
      ensures store == EnsuredStore(old(store), Values(old(store)))
      ensures NoDuplicates(groupList)
      ensures forall x :: x in groupList <==> exists k :: 0 <= k < |scenes| && x in scenes[k].defaultGroups
      ensures forall a, b :: 0 <= a < b < |groupList| ==>
        IndexOf(Flatten(scenes), groupList[a]) < IndexOf(Flatten(scenes), groupList[b])
    {
      LoadViewerGroups();
      var all := CollectDefaults(scenes);
      groupList := Dedup(all);
      forall x ensures x in groupList <==> exists k :: 0 <= k < |scenes| && x in scenes[k].defaultGroups {
        InFlatten(scenes, x);
      }
    }

    /** `addOrUpdateViewerGroup(group)`: the banned group cannot be written this way; any other
        group is stored under its name and the groups are reloaded. */
    method AddOrUpdateViewerGroup(group: Group)
      requires Valid()
      modifies this
      ensures Valid()
      ensures group.groupName == BannedGroupName ==> store == old(store) && groups == old(groups)
      ensures group.groupName != BannedGroupName ==>
        && Lookup(store, group.groupName) == Some(group)
        && (forall k :: k != group.groupName && k != BannedGroupName ==> Lookup(store, k) == Lookup(old(store), k))
        && Lookup(store, BannedGroupName)
           == (if Lookup(old(store), BannedGroupName).Some? then Lookup(old(store), BannedGroupName) else Some(EmptyBannedGroup))
        && Synced() && HasBanned(groups)
      ensures group.groupName != BannedGroupName ==>
        var written := Put(old(store), group.groupName, group);
        store == EnsuredStore(written, Values(written))
    {
      if group.groupName == BannedGroupName {
        return;
      }
      ghost var before := store;
      PutLookup(store, group.groupName, group);
      store := Put(store, group.groupName, group);
      ghost var written := store;
      LoadViewerGroups();
      ReloadKeepsBanned(written, before);
    }

    /** `removeViewerGroup(groupName)`: the group's key is deleted and the groups reloaded; the
        banned group, if removed, comes back empty. */
    method RemoveViewerGroup(groupName: string)
      requires Valid()
      modifies this
      ensures Valid() && Synced() && HasBanned(groups)
      ensures groupName != BannedGroupName ==> Lookup(store, groupName).None?
      ensures groupName == BannedGroupName ==> Lookup(store, BannedGroupName) == Some(EmptyBannedGroup)
      ensures forall k :: k != groupName && k != BannedGroupName ==> Lookup(store, k) == Lookup(old(store), k)
      ensures groupName != BannedGroupName ==>
        Lookup(store, BannedGroupName)
        == (if Lookup(old(store), BannedGroupName).Some? then Lookup(old(store), BannedGroupName) else Some(EmptyBannedGroup))
      ensures store == EnsuredStore(Delete(old(store), groupName), Values(Delete(old(store), groupName)))
    {
      ghost var before := store;
      DeleteLookup(store, groupName);
      store := Delete(store, groupName);
      ghost var written := store;
      LoadViewerGroups();
      if groupName == BannedGroupName {
        NamedIsKeyed(written, BannedGroupName);
      } else {
        ReloadKeepsBanned(written, before);
      }
    }

    /** `getBannedGroup`: ensures the banned group and returns the first group of that name,
        with its position in the list. */
    method GetBannedGroup() returns (group: Group, index: nat)
      requires Valid()
      modifies this
      ensures Valid()
      ensures groups == EnsuredGroups(old(groups)) && store == EnsuredStore(old(store), old(groups))
      ensures FindNamed(groups, BannedGroupName) == Some(index) && groups[index] == group
      ensures group.groupName == BannedGroupName
    {
      EnsureBannedGroupExists();
      index := FindNamed(groups, BannedGroupName).value;
      group := groups[index];
    }

    /** `saveBannedGroup`: writes the banned group under its name. */
    method SaveBannedGroup()
      requires Valid()
      modifies this
      ensures Valid()
      ensures groups == EnsuredGroups(old(groups))
      ensures Lookup(store, BannedGroupName) == Some(groups[FindNamed(groups, BannedGroupName).value])
      ensures forall k :: k != BannedGroupName ==> Lookup(store, k) == Lookup(old(store), k)
      ensures store == Put(EnsuredStore(old(store), old(groups)), BannedGroupName,
                           groups[FindNamed(groups, BannedGroupName).value])
    {
      ghost var before := store;
      var group, _ := GetBannedGroup();
      if !HasBanned(old(groups)) {
        PutLookup(before, BannedGroupName, EmptyBannedGroup);
      }
      PutLookup(store, group.groupName, group);
      store := Put(store, group.groupName, group);
    }

    /** `addUserToBannedGroup(username)`: appends a given, non-empty name to the banned users
        and saves the banned group either way. */
    method AddUserToBannedGroup(username: Option<string>)
      requires Valid()
      modifies this
      ensures Valid()
      ensures var gs := EnsuredGroups(old(groups));
        var i := FindNamed(gs, BannedGroupName).value;
        && groups == gs[i := WithUser(gs[i], username)]
        && Lookup(store, BannedGroupName) == Some(groups[i])
        && store == Put(EnsuredStore(old(store), old(groups)), BannedGroupName, groups[i])
      ensures forall k :: k != BannedGroupName ==> Lookup(store, k) == Lookup(old(store), k)
    {
      var group, index := GetBannedGroup();
      FindNamedUpdated(groups, index, WithUser(group, username));
      groups := groups[index := WithUser(group, username)];
      ghost var mid := store;
      SaveBannedGroup();
      assert forall k :: k != BannedGroupName ==> Lookup(mid, k) == Lookup(old(store), k) by {
        if !HasBanned(old(groups)) {
          PutLookup(old(store), BannedGroupName, EmptyBannedGroup);
        }
      }
    }

    /** `removeUserFromBannedGroupAtIndex(index)`: splices one user out of the banned group
        and saves it. */
    method RemoveUserFromBannedGroupAtIndex(index: int)
      requires Valid()
      modifies this
      ensures Valid()
      ensures var gs := EnsuredGroups(old(groups));
        var i := FindNamed(gs, BannedGroupName).value;
        && groups == gs[i := gs[i].(users := Splice1(gs[i].users, index))]
        && Lookup(store, BannedGroupName) == Some(groups[i])
        && store == Put(EnsuredStore(old(store), old(groups)), BannedGroupName, groups[i])
      ensures forall k :: k != BannedGroupName ==> Lookup(store, k) == Lookup(old(store), k)
    {
      var group, i := GetBannedGroup();
      FindNamedUpdated(groups, i, group.(users := Splice1(group.users, index)));
      groups := groups[i := group.(users := Splice1(group.users, index))];
      ghost var mid := store;
      SaveBannedGroup();
      assert forall k :: k != BannedGroupName ==> Lookup(mid, k) == Lookup(old(store), k) by {
        if !HasBanned(old(groups)) {
          PutLookup(old(store), BannedGroupName, EmptyBannedGroup);
        }
      }
    }
  }
}
