/**
  The custom-command records that the chat editor reads and writes, the filters it applies
  to a command's effect list, and lookups in the registry list.
*/
module CustomCommands {
  import opened Text

  /** Ids handed out by `uuidv1`; a counter stands in for the generator. */
  type Id = nat

  const ChatEffectType: string := "firebot:chat"
  const PermissionsRestrictionType: string := "firebot:permissions"
  const RolesMode: string := "roles"

  datatype Effect = Effect(id: Id, effectType: string, message: string)

  datatype EffectList = EffectList(id: Id, list: seq<Effect>)

  datatype Cooldown = Cooldown(user: int, global: int)

  datatype Restriction = Restriction(id: Id, restrictionType: string, mode: string, roleIds: seq<string>)

  datatype RestrictionData = RestrictionData(restrictions: seq<Restriction>)

  /** A custom command; the optional fields are absent from a record until an edit sets them. */
  datatype CustomCommand = CustomCommand(
    trigger: string,
    autoDeleteTrigger: bool,
    active: bool,
    scanWholeMessage: bool,
    cooldown: Cooldown,
    effects: Option<EffectList>,
    restrictionData: Option<RestrictionData>,
    count: Option<int>,
    description: Option<string>)

  predicate IsChat(e: Effect) {
    e.effectType == ChatEffectType
  }

  /** `list.filter(e => e.type === "firebot:chat")`. */
  function ChatEffects(list: seq<Effect>): (r: seq<Effect>)
    ensures |r| <= |list|
    ensures forall i :: 0 <= i < |r| ==> IsChat(r[i]) && r[i] in list
  {
    if list == [] then []
    else if IsChat(list[0]) then [list[0]] + ChatEffects(list[1..])
    else ChatEffects(list[1..])
  }

  /** The effects that are not chat effects, in order. */
  function OtherEffects(list: seq<Effect>): (r: seq<Effect>)
    ensures |r| <= |list|
    ensures forall i :: 0 <= i < |r| ==> !IsChat(r[i]) && r[i] in list
  {
    if list == [] then []
    else if IsChat(list[0]) then OtherEffects(list[1..])
    else [list[0]] + OtherEffects(list[1..])
  }

  /** `command.effects ? <chat effects>.length : 0`. */
  function ChatEffectCount(c: CustomCommand): (n: nat)
    ensures c.effects.None? ==> n == 0
    ensures c.effects.Some? ==> n <= |c.effects.value.list|
    ensures n == 0 <==> c.effects.None? || FirstChat(c.effects.value.list).None?
  {
    if c.effects.Some? then
      NoChatEffectIffNoChat(c.effects.value.list);
      |ChatEffects(c.effects.value.list)|
    else 0
  }

  /** The chat filter is empty exactly when `find` finds no chat effect. */
  lemma {:induction false} NoChatEffectIffNoChat(list: seq<Effect>)
    ensures ChatEffects(list) == [] <==> FirstChat(list).None?
  {
    if list != [] {
      NoChatEffectIffNoChat(list[1..]);
    }
  }

  /** `list.find(e => e.type === "firebot:chat")`, as an index. */
  function FirstChat(list: seq<Effect>): (k: Option<nat>)
    ensures k.Some? ==> k.value < |list| && IsChat(list[k.value])
    ensures forall j :: 0 <= j < |list| && (k.None? || j < k.value) ==> !IsChat(list[j])
  {
    if list == [] then None
    else if IsChat(list[0]) then Some(0)
    else match FirstChat(list[1..])
      case None => None
      case Some(k) => Some(k + 1)
  }

  lemma {:induction false} FiltersOfAppend(list: seq<Effect>, e: Effect)
    ensures ChatEffects(list + [e]) == ChatEffects(list) + (if IsChat(e) then [e] else [])
    ensures OtherEffects(list + [e]) == OtherEffects(list) + (if IsChat(e) then [] else [e])
  {
    if list != [] {
      assert (list + [e])[1..] == list[1..] + [e];
      FiltersOfAppend(list[1..], e);
    }
  }

  /** Replacing a chat effect by another chat effect leaves the other effects as they are and
      replaces that chat effect among the chat effects. */
  lemma {:induction false} FiltersOfChatUpdate(list: seq<Effect>, k: nat, e: Effect)
    requires k < |list| && IsChat(list[k]) && IsChat(e)
    requires forall j :: 0 <= j < k ==> !IsChat(list[j])
    ensures OtherEffects(list[k := e]) == OtherEffects(list)
    ensures ChatEffects(list[k := e]) == [e] + ChatEffects(list[k + 1..])
    ensures ChatEffects(list) == [list[k]] + ChatEffects(list[k + 1..])
  {
    if k == 0 {
      assert list[k := e][1..] == list[1..];
    } else {
      assert list[k := e][1..] == list[1..][k - 1 := e];
      FiltersOfChatUpdate(list[1..], k - 1, e);
      assert list[1..][k..] == list[k + 1..];
    }
  }

  /** `response`: with exactly one chat effect its message becomes `msg`; with none a new
      chat effect carrying `msg` (id `freshId`) is appended. Either way the result has exactly
      one chat effect, it carries `msg`, and every other effect stays where it was. */
  function WithResponse(list: seq<Effect>, msg: string, freshId: Id): (r: seq<Effect>)
    requires |ChatEffects(list)| <= 1
    ensures |ChatEffects(r)| == 1 && ChatEffects(r)[0].message == msg
    ensures OtherEffects(r) == OtherEffects(list)
    ensures |ChatEffects(list)| == 1 ==>
      && |r| == |list| && FirstChat(list).Some?
      && (forall j :: 0 <= j < |list| && j != FirstChat(list).value ==> r[j] == list[j])
      && r[FirstChat(list).value] == list[FirstChat(list).value].(message := msg)
    ensures |ChatEffects(list)| == 0 ==> r == list + [Effect(freshId, ChatEffectType, msg)]
  {
    match FirstChat(list)
    case None =>
      var e := Effect(freshId, ChatEffectType, msg);
      FiltersOfAppend(list, e);
      NoChatNoneFiltered(list);
      list + [e]
    case Some(k) =>
      var e := list[k].(message := msg);
      FiltersOfChatUpdate(list, k, e);
      list[k := e]
  }

  /** A list without chat effects filters to nothing. */
  lemma {:induction false} NoChatNoneFiltered(list: seq<Effect>)
    requires forall j :: 0 <= j < |list| ==> !IsChat(list[j])
    ensures ChatEffects(list) == [] && OtherEffects(list) == list
  {
    if list != [] {
      NoChatNoneFiltered(list[1..]);
    }
  }

  /** The command `add` creates: active, matched anywhere in a message unless the trigger
      starts with `!`, no cooldown, and one chat effect that says `message`. */
  function NewCommand(trigger: string, message: string, listId: Id, effectId: Id): (c: CustomCommand)
    ensures c.trigger == trigger && c.active && !c.autoDeleteTrigger
    ensures c.scanWholeMessage <==> !(|trigger| > 0 && trigger[0] == '!')
    ensures c.cooldown == Cooldown(0, 0)
    ensures c.effects.Some? && c.effects.value.id == listId
    ensures ChatEffects(c.effects.value.list) == c.effects.value.list == [Effect(effectId, ChatEffectType, message)]
    ensures c.restrictionData.None? && c.count.None? && c.description.None?
  {
    CustomCommand(
      trigger := trigger,
      autoDeleteTrigger := false,
      active := true,
      scanWholeMessage := !(|trigger| > 0 && trigger[0] == '!'),
      cooldown := Cooldown(0, 0),
      effects := Some(EffectList(listId, [Effect(effectId, ChatEffectType, message)])),
      restrictionData := None,
      count := None,
      description := None)
  }

  /** No two commands share a trigger. */
  predicate UniqueTriggers(cs: seq<CustomCommand>) {
    forall i, j :: 0 <= i < j < |cs| ==> cs[i].trigger != cs[j].trigger
  }

  /** `cs.find(c => c.trigger === trigger)`, as an index. */
  function FindAny(cs: seq<CustomCommand>, trigger: string): (k: Option<nat>)
    ensures k.Some? ==> k.value < |cs| && cs[k.value].trigger == trigger
    ensures forall j :: 0 <= j < |cs| && (k.None? || j < k.value) ==> cs[j].trigger != trigger
  {
    if cs == [] then None
    else if cs[0].trigger == trigger then Some(0)
    else match FindAny(cs[1..], trigger)
      case None => None
      case Some(k) => Some(k + 1)
  }

  /** `cs.filter(c => c.active).find(c => c.trigger === trigger)`, as an index into `cs`. */
  function FindActive(cs: seq<CustomCommand>, trigger: string): (k: Option<nat>)
    ensures k.Some? ==> k.value < |cs| && cs[k.value].trigger == trigger && cs[k.value].active
    ensures forall j :: 0 <= j < |cs| && (k.None? || j < k.value) ==> !(cs[j].active && cs[j].trigger == trigger)
  {
    if cs == [] then None
    else if cs[0].active && cs[0].trigger == trigger then Some(0)
    else match FindActive(cs[1..], trigger)
      case None => None
      case Some(k) => Some(k + 1)
  }

  /** With unique triggers the active lookup finds the command the full lookup finds, when that
      one is active, and nothing otherwise. */
  lemma ActiveLookupAgrees(cs: seq<CustomCommand>, trigger: string)
    requires UniqueTriggers(cs)
    ensures FindActive(cs, trigger)
      == if FindAny(cs, trigger).Some? && cs[FindAny(cs, trigger).value].active then FindAny(cs, trigger) else None
  {
    var a := FindActive(cs, trigger);
    var k := FindAny(cs, trigger);
    if a.Some? {
      assert k.Some? && k.value <= a.value;
    }
  }

  /** An edit that keeps the trigger keeps every lookup and the uniqueness of triggers. */
  lemma {:induction false} UpdateKeepsTriggers(cs: seq<CustomCommand>, i: nat, c: CustomCommand, t: string)
    requires i < |cs| && c.trigger == cs[i].trigger
    ensures UniqueTriggers(cs) ==> UniqueTriggers(cs[i := c])
    ensures FindAny(cs[i := c], t) == FindAny(cs, t)
  {
    if i > 0 {
      assert cs[i := c][1..] == cs[1..][i - 1 := c];
      UpdateKeepsTriggers(cs[1..], i - 1, c, t);
    } else {
      assert cs[i := c][1..] == cs[1..];
    }
    if UniqueTriggers(cs) {
      var cs' := cs[i := c];
      forall a, b | 0 <= a < b < |cs'| ensures cs'[a].trigger != cs'[b].trigger {
        assert cs'[a].trigger == cs[a].trigger && cs'[b].trigger == cs[b].trigger;
      }
    }
  }

  /** A command whose trigger is new can be appended and is then the one found. */
  lemma AppendedIsFound(cs: seq<CustomCommand>, c: CustomCommand)
    requires UniqueTriggers(cs) && FindAny(cs, c.trigger).None? && c.active
    ensures UniqueTriggers(cs + [c])
    ensures FindActive(cs + [c], c.trigger) == Some(|cs|)
  {
    var cs' := cs + [c];
    forall a, b | 0 <= a < b < |cs'| ensures cs'[a].trigger != cs'[b].trigger {
      if b == |cs| {
        assert cs'[a] == cs[a];
      } else {
        assert cs'[a] == cs[a] && cs'[b] == cs[b];
      }
    }
    var k := FindActive(cs', c.trigger);
    assert cs'[|cs|] == c;
    assert k.Some?;
    assert k.value == |cs|;
  }

  /** `deleteItemByTrigger(trigger)`: every command with that trigger goes, the others stay
      in order. */
  function WithoutTrigger(cs: seq<CustomCommand>, trigger: string): (r: seq<CustomCommand>)
    ensures FindAny(r, trigger).None?
  {
    if cs == [] then []
    else if cs[0].trigger == trigger then WithoutTrigger(cs[1..], trigger)
    else [cs[0]] + WithoutTrigger(cs[1..], trigger)
  }

  /** With unique triggers, deleting by trigger removes exactly the command found and keeps
      the triggers unique. */
  lemma DeleteRemovesFound(cs: seq<CustomCommand>, trigger: string)
    requires UniqueTriggers(cs) && FindAny(cs, trigger).Some?
    ensures var k := FindAny(cs, trigger).value;
      WithoutTrigger(cs, trigger) == cs[..k] + cs[k + 1..]
    ensures UniqueTriggers(WithoutTrigger(cs, trigger))
  {
    var k := FindAny(cs, trigger).value;
    DeleteOnlyMatch(cs, trigger, k);
    RemovalKeepsUnique(cs, k);
  }

  /** Deleting a trigger only the command at `k` has removes that command. */
  lemma {:induction false} DeleteOnlyMatch(cs: seq<CustomCommand>, trigger: string, k: nat)
    requires k < |cs| && cs[k].trigger == trigger
    requires forall j :: 0 <= j < |cs| && j != k ==> cs[j].trigger != trigger
    ensures WithoutTrigger(cs, trigger) == cs[..k] + cs[k + 1..]
  {
    OnlyMatchInTail(cs, trigger, k);
    if k == 0 {
      NoTriggerNothingDeleted(cs[1..], trigger);
    } else {
      DeleteOnlyMatch(cs[1..], trigger, k - 1);
      ConsRemoval(cs, k);
    }
  }

  /** The tail of `cs` has the trigger at `k - 1` only, or nowhere when `k` is the head. */
  lemma OnlyMatchInTail(cs: seq<CustomCommand>, trigger: string, k: nat)
    requires k < |cs| && cs[k].trigger == trigger
    requires forall j :: 0 <= j < |cs| && j != k ==> cs[j].trigger != trigger
    ensures k == 0 ==> FindAny(cs[1..], trigger).None?
    ensures k > 0 ==> cs[0].trigger != trigger && cs[1..][k - 1].trigger == trigger
    ensures forall j :: 0 <= j < |cs| - 1 && j != k - 1 ==> cs[1..][j].trigger != trigger
  {
    var tail := cs[1..];
    assert forall j :: 0 <= j < |tail| ==> tail[j] == cs[j + 1];
  }

  /** Removing index `k > 0` keeps the head in front of the tail with `k - 1` removed. */
  lemma ConsRemoval(cs: seq<CustomCommand>, k: nat)
    requires 0 < k < |cs|
    ensures [cs[0]] + (cs[1..][..k - 1] + cs[1..][k..]) == cs[..k] + cs[k + 1..]
  {
    assert cs[1..][..k - 1] == cs[1..k];
    assert cs[1..][k..] == cs[k + 1..];
  }

  /** Removing one command keeps the triggers unique. */
  lemma RemovalKeepsUnique(cs: seq<CustomCommand>, k: nat)
    requires UniqueTriggers(cs) && k < |cs|
    ensures UniqueTriggers(cs[..k] + cs[k + 1..])
  {
    var r := cs[..k] + cs[k + 1..];
    forall a, b | 0 <= a < b < |r| ensures r[a].trigger != r[b].trigger {
      var a' := if a < k then a else a + 1;
      var b' := if b < k then b else b + 1;
      assert r[a] == cs[a'] && r[b] == cs[b'];
    }
  }

  /** Deleting a trigger no command has changes nothing. */
  lemma {:induction false} NoTriggerNothingDeleted(cs: seq<CustomCommand>, trigger: string)
    requires FindAny(cs, trigger).None?
    ensures WithoutTrigger(cs, trigger) == cs
  {
    if cs != [] {
      assert FindAny(cs[1..], trigger).None?;
      NoTriggerNothingDeleted(cs[1..], trigger);
    }
  }
}
