/**
  The `!command` system command: a moderator edits custom commands from chat. Each
  sub-command validates its arguments in a fixed order, answers with exactly one chat
  message, and on success edits one record of the custom-command registry and saves it (or
  deletes it).

  The registry is the list `commands`; `saveItem`, `deleteItemByTrigger` and
  `triggerUiRefresh` are recorded in `calls` as well as applied to the list; chat messages
  go to `replies`; `uuidv1` is the counter `nextId`; `systemTriggers` holds the triggers that
  `triggerIsTaken` reports besides those of custom commands.
*/
module ChatCommandEditor {
  import opened Text
  import opened Numbers
  import opened TriggerArgs
  import opened Permissions
  import opened CustomCommands

  const CommandTrigger: string := "!command"

  const AddUsage: string := "add [!trigger or \"phrase\"] [message]"
  const ResponseUsage: string := "response [!trigger or \"phrase\"] [message]"
  const SetCountUsage: string := "setcount [!trigger or \"phrase\"] count#"
  const CooldownUsage: string := "cooldown [!trigger or \"phrase\"] [globalCooldownSecs] [userCooldownSecs]"
  const RestrictUsage: string := "restrict [!trigger or \"phrase\"] [All/Sub/Mod/Streamer/Custom Group]"
  const RemoveUsage: string := "remove [!trigger or \"phrase\"]"
  const DescriptionUsage: string := "description [!trigger or \"phrase\"]"
  const EnableUsage: string := "enable [!trigger or \"phrase\"]"
  const DisableUsage: string := "disable [!trigger or \"phrase\"]"

  /** The sub-commands `!command` declares. */
  datatype SubCommand =
    | AddCommand | ResponseCommand | SetCountCommand | CooldownCommand | RestrictCommand
    | RemoveCommand | DescriptionCommand | EnableCommand | DisableCommand

  /** `subCommands.find(sc => sc.arg === triggeredArg)`: the sub-command declared with that
      word, if any. */
  function SubCommandOf(triggeredArg: Option<string>): (sub: Option<SubCommand>)
    ensures sub.Some? ==> triggeredArg.Some?
  {
    match triggeredArg
    case None => None
    case Some(arg) =>
      if arg == "add" then Some(AddCommand)
      else if arg == "response" then Some(ResponseCommand)
      else if arg == "setcount" then Some(SetCountCommand)
      else if arg == "cooldown" then Some(CooldownCommand)
      else if arg == "restrict" then Some(RestrictCommand)
      else if arg == "remove" then Some(RemoveCommand)
      else if arg == "description" then Some(DescriptionCommand)
      else if arg == "enable" then Some(EnableCommand)
      else if arg == "disable" then Some(DisableCommand)
      else None
  }

  /** The word a sub-command is declared with (its `arg`). */
  function Word(sub: SubCommand): string {
    match sub
    case AddCommand => "add"
    case ResponseCommand => "response"
    case SetCountCommand => "setcount"
    case CooldownCommand => "cooldown"
    case RestrictCommand => "restrict"
    case RemoveCommand => "remove"
    case DescriptionCommand => "description"
    case EnableCommand => "enable"
    case DisableCommand => "disable"
  }

  /** Each declared word finds its own sub-command, and only that word finds it. */
  lemma SubCommandOfWord(sub: SubCommand, w: string)
    ensures SubCommandOf(Some(Word(sub))) == Some(sub)
    ensures SubCommandOf(Some(w)) == Some(sub) ==> w == Word(sub)
  {
  }

  /** The declared usage text of a sub-command. */
  function Usage(sub: SubCommand): string {
    match sub
    case AddCommand => AddUsage
    case ResponseCommand => ResponseUsage
    case SetCountCommand => SetCountUsage
    case CooldownCommand => CooldownUsage
    case RestrictCommand => RestrictUsage
    case RemoveCommand => RemoveUsage
    case DescriptionCommand => DescriptionUsage
    case EnableCommand => EnableUsage
    case DisableCommand => DisableUsage
  }

  /** The usage shown for the triggered argument: the sub-command's own usage, or the usage of
      `!command` itself, which declares none. */
  function UsageOf(triggeredArg: Option<string>): (usage: string)
    ensures triggeredArg.None? ==> usage == ""
    ensures forall sub :: triggeredArg == Some(Word(sub)) ==> usage == Usage(sub)
  {
    match SubCommandOf(triggeredArg)
    case None => ""
    case Some(sub) => Usage(sub)
  }

  // The fixed parts of the chat replies.
  const InvalidUsageText: string := "Invalid command. Usage: "
  const NotFoundText: string := "Could not find a command with the trigger '"
  const TryAgainText: string := "', please try again."
  const InUseText: string := "' is already in use, please try again."
  const TooManyChatEffectsText: string := "' has more than one Chat Effect, preventing the response from being editable via chat."
  const MissingDescriptionText: string := "Please provided a description for '"
  const CountUpdatedText: string := "Updated usage count for '"
  const DescriptionUpdatedText: string := "Updated description for '"
  const RemovedText: string := "Successfully removed command '"

  function InvalidUsageReply(usage: string): string {
    InvalidUsageText + CommandTrigger + " " + usage
  }

  function NotFoundReply(trigger: string): string {
    NotFoundText + trigger + TryAgainText
  }

  function AddedReply(trigger: string): string {
    "Added command '" + trigger + "'!"
  }

  function InUseReply(trigger: string): string {
    "The trigger '" + trigger + InUseText
  }

  function TooManyChatEffectsReply(trigger: string): string {
    "The command '" + trigger + TooManyChatEffectsText
  }

  function ResponseReply(trigger: string, message: string): string {
    "Updated '" + trigger + "' with response: " + message
  }

  function CountReply(trigger: string, count: int): string {
    CountUpdatedText + trigger + "' to: " + IntToString(count)
  }

  function MissingDescriptionReply(trigger: string): string {
    MissingDescriptionText + trigger + "'!"
  }

  function DescriptionReply(trigger: string, description: string): string {
    DescriptionUpdatedText + trigger + "' to: " + description
  }

  function CooldownReply(trigger: string, userCooldown: int, globalCooldown: int): string {
    "Updated '" + trigger + "' with cooldowns: " + IntToString(userCooldown) + "s (user), "
    + IntToString(globalCooldown) + "s (global)"
  }

  function RestrictReply(trigger: string, phrase: string): string {
    "Updated '" + trigger + "' restrictions to: " + phrase
  }

  function RemovedReply(trigger: string): string {
    RemovedText + trigger + "'."
  }

  /** `${trigger} is already ${triggeredArg}d.` */
  function AlreadyReply(trigger: string, enable: bool): string {
    trigger + " is already " + (if enable then "enable" else "disable") + "d."
  }

  /** `${util.capitalize(triggeredArg)}d "${trigger}"` */
  function ToggledReply(trigger: string, enable: bool): string {
    (if enable then "Enabled" else "Disabled") + " \"" + trigger + "\""
  }

  /** Negative numbers become 0. */
  function ClampToZero(n: int): (r: nat)
    ensures n >= 0 ==> r == n
    ensures n < 0 ==> r == 0
  {
    if n < 0 then 0 else n
  }

  /** A call into the custom-command registry. */
  datatype RegistryCall =
    | SaveItem(command: CustomCommand, sender: string)
    | DeleteItemByTrigger(trigger: string)
    | TriggerUiRefresh

  datatype Rejection =
    | InvalidUsage
    | CommandNotFound
    | TriggerInUse
    | TooManyChatEffects
    | MissingDescription

  /** How a sub-command ended: rejected with one reply, refused because the command already is
      in the requested state, saved, deleted, ignored (unknown sub-command), or stopped by the
      `TypeError` that `response` raises on a command without an effect list. */
  datatype Outcome = Rejected(reason: Rejection) | AlreadyInState | Saved | Deleted | Ignored | Threw

  class CommandManagement {
    var commands: seq<CustomCommand>
    var systemTriggers: set<string>
    var replies: seq<string>
    var calls: seq<RegistryCall>
    var nextId: Id

    /** The registry never holds two commands with the same trigger. */
    predicate Valid()
      reads this
    {
      UniqueTriggers(commands)
    }

    /** `commandManager.triggerIsTaken(trigger)`. */
    predicate TriggerIsTaken(trigger: string): (taken: bool)
      reads this
      ensures taken <==> trigger in systemTriggers || exists i :: 0 <= i < |commands| && commands[i].trigger == trigger
    {
      trigger in systemTriggers || FindAny(commands, trigger).Some?
    }

    constructor(commands: seq<CustomCommand>, systemTriggers: set<string>)
      requires UniqueTriggers(commands)
      ensures Valid()
      ensures this.commands == commands && this.systemTriggers == systemTriggers
      ensures replies == [] && calls == [] && nextId == 0
    {
      this.commands := commands;
      this.systemTriggers := systemTriggers;
      replies := [];
      calls := [];
      nextId := 0;
    }

    /** Only the reply `msg` was sent. */
    twostate predicate Replied(new msg: string)
      reads this
    {
      commands == old(commands) && calls == old(calls) && nextId == old(nextId)
      && systemTriggers == old(systemTriggers) && replies == old(replies) + [msg]
    }

    /** Nothing happened at all. */
    twostate predicate NothingHappened()
      reads this
    {
      commands == old(commands) && calls == old(calls) && nextId == old(nextId)
      && systemTriggers == old(systemTriggers) && replies == old(replies)
    }

    /** The command at `i` became `c`, was saved, and the reply `msg` was sent. */
    twostate predicate SavedAt(i: nat, new c: CustomCommand, new sender: string, new msg: string)
      reads this
    {
      i < |old(commands)| && commands == old(commands)[i := c]
      && calls == old(calls) + [SaveItem(c, sender)]
      && systemTriggers == old(systemTriggers) && replies == old(replies) + [msg]
    }

    /** What every sub-command guarantees whatever its outcome: unless a `TypeError` stops it
        (and then nothing changes) it sends exactly one reply; a rejection or refusal does
        nothing else; a save starts with `saveItem` on behalf of `sender` (and adds a command
        only for `add`); a deletion is one `deleteItemByTrigger` of `trigger` that removes one
        command. */
    twostate predicate Settled(outcome: Outcome, new trigger: string, new sender: string, adds: bool)
      reads this
    {
      && systemTriggers == old(systemTriggers)
      && outcome != Ignored
      && (outcome != Threw ==> |replies| == |old(replies)| + 1 && replies[..|old(replies)|] == old(replies))
      && (outcome.Rejected? || outcome == AlreadyInState ==>
            commands == old(commands) && calls == old(calls) && nextId == old(nextId))
      && (outcome == Threw ==> NothingHappened())
      && (outcome == Deleted ==>
            calls == old(calls) + [DeleteItemByTrigger(trigger)] && |commands| == |old(commands)| - 1)
      && (outcome == Saved ==>
            |calls| > |old(calls)| && calls[|old(calls)|].SaveItem? && calls[|old(calls)|].sender == sender
            && |commands| == |old(commands)| + (if adds then 1 else 0))
    }

    /** Replaces the command at `i` by an edit of it with the same trigger and saves it. */
    method Save(i: nat, c: CustomCommand, sender: string)
      requires Valid() && i < |commands| && c.trigger == commands[i].trigger
      modifies this
      ensures Valid()
      ensures commands == old(commands)[i := c] && calls == old(calls) + [SaveItem(c, sender)]
      ensures replies == old(replies) && nextId == old(nextId) && systemTriggers == old(systemTriggers)
      ensures forall t :: FindAny(commands, t) == FindAny(old(commands), t)
    {
      forall t ensures FindAny(commands[i := c], t) == FindAny(commands, t) && UniqueTriggers(commands[i := c]) {
        UpdateKeepsTriggers(commands, i, c, t);
      }
      commands := commands[i := c];
      calls := calls + [SaveItem(c, sender)];
    }

    method Reply(msg: string)
      modifies this
      ensures Replied(msg)
    {
      replies := replies + [msg];
    }

    /** The effect of `add`: an empty message is rejected before a taken trigger; otherwise a
        new active command with one chat effect saying the message is appended and saved. */
    twostate predicate AddDone(argCount: nat, new trigger: string, new remainingData: string, new sender: string, new outcome: Outcome)
      reads this
    {
      && (argCount < 3 || remainingData == "" ==>
            outcome == Rejected(InvalidUsage) && Replied(InvalidUsageReply(AddUsage)))
      && (argCount >= 3 && remainingData != "" && old(TriggerIsTaken(trigger)) ==>
            outcome == Rejected(TriggerInUse) && Replied(InUseReply(trigger)))
      && (argCount >= 3 && remainingData != "" && !old(TriggerIsTaken(trigger)) ==>
            var c := NewCommand(trigger, remainingData, old(nextId), old(nextId) + 1);
            && outcome == Saved
            && commands == old(commands) + [c] && calls == old(calls) + [SaveItem(c, sender)]
            && replies == old(replies) + [AddedReply(trigger)]
            && nextId == old(nextId) + 2 && systemTriggers == old(systemTriggers))
    }

    /** `add`. */
    method Add(argCount: nat, trigger: string, remainingData: string, sender: string) returns (outcome: Outcome)
      requires Valid()
      modifies this
      ensures Valid()
      ensures Settled(outcome, trigger, sender, true)
      ensures AddDone(argCount, trigger, remainingData, sender, outcome)
      ensures outcome == Saved ==> FindActive(commands, trigger) == Some(|old(commands)|)
    {
      if argCount < 3 || remainingData == "" {
        Reply(InvalidUsageReply(AddUsage));
        return Rejected(InvalidUsage);
      }
      if TriggerIsTaken(trigger) {
        Reply(InUseReply(trigger));
        return Rejected(TriggerInUse);
      }
      Append(trigger, remainingData, sender);
      outcome := Saved;
    }

    /** Saves a new command for a free trigger, with ids for its effect list and its effect. */
    method Append(trigger: string, message: string, sender: string)
      requires Valid() && !TriggerIsTaken(trigger)
      modifies this
      ensures Valid()
      ensures var c := NewCommand(trigger, message, old(nextId), old(nextId) + 1);
        && commands == old(commands) + [c] && calls == old(calls) + [SaveItem(c, sender)]
        && replies == old(replies) + [AddedReply(trigger)]
        && nextId == old(nextId) + 2 && systemTriggers == old(systemTriggers)
        && FindActive(commands, trigger) == Some(|old(commands)|)
    {
      var command := NewCommand(trigger, message, nextId, nextId + 1);
      nextId := nextId + 2;
      AppendedIsFound(commands, command);
      commands := commands + [command];
      calls := calls + [SaveItem(command, sender)];
      replies := replies + [AddedReply(trigger)];
    }

    /** The effect of `response`: the active command's only chat effect gets the new message,
        or a first chat effect is appended; a command with several chat effects is refused. */
    twostate predicate ResponseDone(argCount: nat, new trigger: string, new remainingData: string, new sender: string, new outcome: Outcome)
      reads this
    {
      && (argCount < 3 || remainingData == "" ==>
            outcome == Rejected(InvalidUsage) && Replied(InvalidUsageReply(ResponseUsage)))
      && (argCount >= 3 && remainingData != "" && FindActive(old(commands), trigger).None? ==>
            outcome == Rejected(CommandNotFound) && Replied(NotFoundReply(trigger)))
      && (argCount >= 3 && remainingData != "" && FindActive(old(commands), trigger).Some? ==>
            var i := FindActive(old(commands), trigger).value;
            var c := old(commands)[i];
            && (ChatEffectCount(c) > 1 ==>
                  outcome == Rejected(TooManyChatEffects) && Replied(TooManyChatEffectsReply(trigger)))
            && (ChatEffectCount(c) <= 1 && c.effects.None? ==> outcome == Threw && NothingHappened())
            && (ChatEffectCount(c) <= 1 && c.effects.Some? ==>
                  var el := c.effects.value;
                  && outcome == Saved
                  && SavedAt(i, c.(effects := Some(el.(list := WithResponse(el.list, remainingData, old(nextId))))),
                             sender, ResponseReply(trigger, remainingData))
                  && nextId == old(nextId) + (if ChatEffectCount(c) == 0 then 1 else 0)))
    }

    /** `response`. */
    method Response(argCount: nat, trigger: string, remainingData: string, sender: string) returns (outcome: Outcome)
      requires Valid()
      modifies this
      ensures Valid()
      ensures Settled(outcome, trigger, sender, false)
      ensures ResponseDone(argCount, trigger, remainingData, sender, outcome)
    {
      if argCount < 3 || remainingData == "" {
        Reply(InvalidUsageReply(ResponseUsage));
        return Rejected(InvalidUsage);
      }
      var found := FindActive(commands, trigger);
      if found.None? {
        Reply(NotFoundReply(trigger));
        return Rejected(CommandNotFound);
      }
      var i := found.value;
      var command := commands[i];
      var chatEffectsCount := ChatEffectCount(command);
      if chatEffectsCount > 1 {
        Reply(TooManyChatEffectsReply(trigger));
        return Rejected(TooManyChatEffects);
      }
      if command.effects.None? {
        // `command.effects.list.push` on a missing effect list
        return Threw;
      }
      var el := command.effects.value;
      var list := WithResponse(el.list, remainingData, nextId);
      if chatEffectsCount == 0 {
        nextId := nextId + 1;
      }
      command := command.(effects := Some(el.(list := list)));
      Save(i, command, sender);
      Reply(ResponseReply(trigger, remainingData));
      outcome := Saved;
    }

    /** The effect of `setcount`: the argument must be a number (checked before the lookup); a
        negative count is stored as 0. */
    twostate predicate SetCountDone(new trigger: string, new remainingData: string, new sender: string, new outcome: Outcome)
      reads this
    {
      var countArg := Trim(remainingData);
      && (countArg == "" || !IsInteger(countArg) ==>
            outcome == Rejected(InvalidUsage) && Replied(InvalidUsageReply(SetCountUsage)))
      && (countArg != "" && IsInteger(countArg) && FindActive(old(commands), trigger).None? ==>
            outcome == Rejected(CommandNotFound) && Replied(NotFoundReply(trigger)))
      && (countArg != "" && IsInteger(countArg) && FindActive(old(commands), trigger).Some? ==>
            var i := FindActive(old(commands), trigger).value;
            var newCount := ClampToZero(ParseInt(countArg));
            && outcome == Saved && nextId == old(nextId)
            && SavedAt(i, old(commands)[i].(count := Some(newCount)), sender, CountReply(trigger, newCount)))
    }

    /** `setcount`. */
    method SetCount(trigger: string, remainingData: string, sender: string) returns (outcome: Outcome)
      requires Valid()
      modifies this
      ensures Valid()
      ensures Settled(outcome, trigger, sender, false)
      ensures SetCountDone(trigger, remainingData, sender, outcome)
    {
      var countArg := Trim(remainingData);
      if countArg == "" || !IsInteger(countArg) {
        Reply(InvalidUsageReply(SetCountUsage));
        return Rejected(InvalidUsage);
      }
      var found := FindActive(commands, trigger);
      if found.None? {
        Reply(NotFoundReply(trigger));
        return Rejected(CommandNotFound);
      }
      var i := found.value;
      var newCount := ParseInt(countArg);
      if newCount < 0 {
        newCount := 0;
      }
      Save(i, commands[i].(count := Some(newCount)), sender);
      Reply(CountReply(trigger, newCount));
      outcome := Saved;
    }

    /** The effect of `description`: looks the command up first, then demands a non-empty
        description. */
    twostate predicate DescriptionDone(new trigger: string, new remainingData: string, new sender: string, new outcome: Outcome)
      reads this
    {
      && (FindActive(old(commands), trigger).None? ==>
            outcome == Rejected(CommandNotFound) && Replied(NotFoundReply(trigger)))
      && (FindActive(old(commands), trigger).Some? && remainingData == "" ==>
            outcome == Rejected(MissingDescription) && Replied(MissingDescriptionReply(trigger)))
      && (FindActive(old(commands), trigger).Some? && remainingData != "" ==>
            var i := FindActive(old(commands), trigger).value;
            && outcome == Saved && nextId == old(nextId)
            && SavedAt(i, old(commands)[i].(description := Some(remainingData)), sender,
                       DescriptionReply(trigger, remainingData)))
    }

    /** `description`. */
    method Description(trigger: string, remainingData: string, sender: string) returns (outcome: Outcome)
      requires Valid()
      modifies this
      ensures Valid()
      ensures Settled(outcome, trigger, sender, false)
      ensures DescriptionDone(trigger, remainingData, sender, outcome)
    {
      var found := FindActive(commands, trigger);
      if found.None? {
        Reply(NotFoundReply(trigger));
        return Rejected(CommandNotFound);
      }
      if |remainingData| < 1 {
        Reply(MissingDescriptionReply(trigger));
        return Rejected(MissingDescription);
      }
      var i := found.value;
      Save(i, commands[i].(description := Some(remainingData)), sender);
      Reply(DescriptionReply(trigger, remainingData));
      outcome := Saved;
    }

    /** The effect of `cooldown`: the first two space-separated tokens must be numbers (checked
        before the lookup); the first is the global and the second the user cooldown, each
        clamped at 0; further tokens are ignored. */
    twostate predicate CooldownDone(argCount: nat, new trigger: string, new remainingData: string, new sender: string, new outcome: Outcome)
      reads this
    {
      var cooldownArgs := Split(Trim(remainingData));
      var usable := argCount >= 3 && remainingData != "" && |cooldownArgs| >= 2
        && IsInteger(cooldownArgs[0]) && IsInteger(cooldownArgs[1]);
      && (!usable ==> outcome == Rejected(InvalidUsage) && Replied(InvalidUsageReply(CooldownUsage)))
      && (usable && FindActive(old(commands), trigger).None? ==>
            outcome == Rejected(CommandNotFound) && Replied(NotFoundReply(trigger)))
      && (usable && FindActive(old(commands), trigger).Some? ==>
            var i := FindActive(old(commands), trigger).value;
            var globalCooldown := ClampToZero(ParseInt(cooldownArgs[0]));
            var userCooldown := ClampToZero(ParseInt(cooldownArgs[1]));
            && outcome == Saved && nextId == old(nextId)
            && SavedAt(i, old(commands)[i].(cooldown := Cooldown(user := userCooldown, global := globalCooldown)), sender,
                       CooldownReply(trigger, userCooldown, globalCooldown)))
    }

    /** `cooldown`. */
    method SetCooldown(argCount: nat, trigger: string, remainingData: string, sender: string) returns (outcome: Outcome)
      requires Valid()
      modifies this
      ensures Valid()
      ensures Settled(outcome, trigger, sender, false)
      ensures CooldownDone(argCount, trigger, remainingData, sender, outcome)
    {
      var cooldownArgs := Split(Trim(remainingData));
      if argCount < 3 || remainingData == "" || |cooldownArgs| < 2 || !IsInteger(cooldownArgs[0])
        || !IsInteger(cooldownArgs[1])
      {
        Reply(InvalidUsageReply(CooldownUsage));
        return Rejected(InvalidUsage);
      }
      var found := FindActive(commands, trigger);
      if found.None? {
        Reply(NotFoundReply(trigger));
        return Rejected(CommandNotFound);
      }
      var i := found.value;
      var globalCooldown := ParseInt(cooldownArgs[0]);
      var userCooldown := ParseInt(cooldownArgs[1]);
      if globalCooldown < 0 {
        globalCooldown := 0;
      }
      if userCooldown < 0 {
        userCooldown := 0;
      }
      Save(i, commands[i].(cooldown := Cooldown(user := userCooldown, global := globalCooldown)), sender);
      Reply(CooldownReply(trigger, userCooldown, globalCooldown));
      outcome := Saved;
    }

    /** The effect of `restrict`: the restrictions become exactly one `roles` restriction whose
        role ids the permission phrase maps to (none for "all", "everyone" or an unknown
        phrase). */
    twostate predicate RestrictDone(argCount: nat, new trigger: string, new remainingData: string, new sender: string, new outcome: Outcome)
      reads this
    {
      && (argCount < 3 || remainingData == "" ==>
            outcome == Rejected(InvalidUsage) && Replied(InvalidUsageReply(RestrictUsage)))
      && (argCount >= 3 && remainingData != "" && FindActive(old(commands), trigger).None? ==>
            outcome == Rejected(CommandNotFound) && Replied(NotFoundReply(trigger)))
      && (argCount >= 3 && remainingData != "" && FindActive(old(commands), trigger).Some? ==>
            var i := FindActive(old(commands), trigger).value;
            var restriction := Restriction(old(nextId), PermissionsRestrictionType, RolesMode,
                                           MapPermArgToRoleIds(Some(remainingData)));
            && outcome == Saved && nextId == old(nextId) + 1
            && SavedAt(i, old(commands)[i].(restrictionData := Some(RestrictionData([restriction]))), sender,
                       RestrictReply(trigger, remainingData)))
    }

    /** `restrict`. */
    method Restrict(argCount: nat, trigger: string, remainingData: string, sender: string) returns (outcome: Outcome)
      requires Valid()
      modifies this
      ensures Valid()
      ensures Settled(outcome, trigger, sender, false)
      ensures RestrictDone(argCount, trigger, remainingData, sender, outcome)
    {
      if argCount < 3 || remainingData == "" {
        Reply(InvalidUsageReply(RestrictUsage));
        return Rejected(InvalidUsage);
      }
      var found := FindActive(commands, trigger);
      if found.None? {
        Reply(NotFoundReply(trigger));
        return Rejected(CommandNotFound);
      }
      SaveRoleRestriction(found.value, MapPermArgToRoleIds(Some(remainingData)), sender,
                          RestrictReply(trigger, remainingData));
      outcome := Saved;
    }

    /** Replaces the restrictions of the command at `i` by one `roles` restriction for
        `roleIds` under a fresh id, saves it and sends `msg`. */
    method SaveRoleRestriction(i: nat, roleIds: seq<string>, sender: string, msg: string)
      requires Valid() && i < |commands|
      modifies this
      ensures Valid()
      ensures var restriction := Restriction(old(nextId), PermissionsRestrictionType, RolesMode, roleIds);
        && nextId == old(nextId) + 1
        && SavedAt(i, old(commands)[i].(restrictionData := Some(RestrictionData([restriction]))), sender, msg)
    {
      var restriction := Restriction(nextId, PermissionsRestrictionType, RolesMode, roleIds);
      nextId := nextId + 1;
      Save(i, commands[i].(restrictionData := Some(RestrictionData([restriction]))), sender);
      Reply(msg);
    }

    /** The effect of `remove`: an active command is deleted by its trigger; the others stay in
        order. */
    twostate predicate RemoveDone(new trigger: string, new outcome: Outcome)
      reads this
    {
      && (FindActive(old(commands), trigger).None? ==>
            outcome == Rejected(CommandNotFound) && Replied(NotFoundReply(trigger)))
      && (FindActive(old(commands), trigger).Some? ==>
            var i := FindActive(old(commands), trigger).value;
            && outcome == Deleted
            && commands == old(commands)[..i] + old(commands)[i + 1..]
            && calls == old(calls) + [DeleteItemByTrigger(trigger)]
            && replies == old(replies) + [RemovedReply(trigger)]
            && nextId == old(nextId) && systemTriggers == old(systemTriggers))
    }

    /** `remove`. */
    method Remove(trigger: string) returns (outcome: Outcome)
      requires Valid()
      modifies this
      ensures Valid()
      ensures Settled(outcome, trigger, "", false)
      ensures RemoveDone(trigger, outcome)
      ensures outcome == Deleted ==> FindAny(commands, trigger).None?
    {
      var found := FindActive(commands, trigger);
      if found.None? {
        Reply(NotFoundReply(trigger));
        return Rejected(CommandNotFound);
      }
      ActiveLookupAgrees(commands, trigger);
      DeleteRemovesFound(commands, trigger);
      commands := WithoutTrigger(commands, trigger);
      calls := calls + [DeleteItemByTrigger(trigger)];
      replies := replies + [RemovedReply(trigger)];
      outcome := Deleted;
    }

    /** The effect of `enable` / `disable`: looks among all commands, active or not; a command
        already in the requested state is not saved; otherwise only `active` changes and the UI
        is refreshed. */
    twostate predicate SetActiveDone(enable: bool, new trigger: string, new sender: string, new outcome: Outcome)
      reads this
    {
      && (FindAny(old(commands), trigger).None? ==>
            outcome == Rejected(CommandNotFound) && Replied(NotFoundReply(trigger)))
      && (FindAny(old(commands), trigger).Some? && old(commands)[FindAny(old(commands), trigger).value].active == enable ==>
            outcome == AlreadyInState && Replied(AlreadyReply(trigger, enable)))
      && (FindAny(old(commands), trigger).Some? && old(commands)[FindAny(old(commands), trigger).value].active != enable ==>
            var i := FindAny(old(commands), trigger).value;
            var c := old(commands)[i].(active := enable);
            && outcome == Saved
            && commands == old(commands)[i := c]
            && calls == old(calls) + [SaveItem(c, sender), TriggerUiRefresh]
            && replies == old(replies) + [ToggledReply(trigger, enable)]
            && nextId == old(nextId) && systemTriggers == old(systemTriggers))
    }

    /** `enable` / `disable`. */
    method SetActive(enable: bool, trigger: string, sender: string) returns (outcome: Outcome)
      requires Valid()
      modifies this
      ensures Valid()
      ensures Settled(outcome, trigger, sender, false)
      ensures SetActiveDone(enable, trigger, sender, outcome)
    {
      var found := FindAny(commands, trigger);
      if found.None? {
        Reply(NotFoundReply(trigger));
        return Rejected(CommandNotFound);
      }
      var i := found.value;
      if commands[i].active == enable {
        Reply(AlreadyReply(trigger, enable));
        return AlreadyInState;
      }
      var command := commands[i].(active := enable);
      Save(i, command, sender);
      calls := calls + [TriggerUiRefresh];
      replies := replies + [ToggledReply(trigger, enable)];
      outcome := Saved;
    }

    /** What the sub-command `sub` does with `trigger` and `remainingData`: the effect of that
        operation; without a sub-command nothing happens. */
    twostate predicate SubCommandDone(new sub: Option<SubCommand>, new argCount: nat, new trigger: string,
                                      new remainingData: string, new sender: string, new outcome: Outcome)
      reads this
    {
      match sub
      case None => outcome == Ignored && NothingHappened()
      case Some(AddCommand) => AddDone(argCount, trigger, remainingData, sender, outcome)
      case Some(ResponseCommand) => ResponseDone(argCount, trigger, remainingData, sender, outcome)
      case Some(SetCountCommand) => SetCountDone(trigger, remainingData, sender, outcome)
      case Some(DescriptionCommand) => DescriptionDone(trigger, remainingData, sender, outcome)
      case Some(CooldownCommand) => CooldownDone(argCount, trigger, remainingData, sender, outcome)
      case Some(RestrictCommand) => RestrictDone(argCount, trigger, remainingData, sender, outcome)
      case Some(RemoveCommand) => RemoveDone(trigger, outcome)
      case Some(EnableCommand) => SetActiveDone(true, trigger, sender, outcome)
      case Some(DisableCommand) => SetActiveDone(false, trigger, sender, outcome)
    }

    /** `onTriggerEvent`: rejects fewer than two words and an empty trigger for every
        sub-command, then runs the sub-command named by `triggeredArg` on the trigger and the
        remaining data that `seperateTriggerFromArgs` splits off; an unknown one does nothing.
        Unless a `TypeError` stops it or nothing runs, exactly one reply is sent. */
    method OnTriggerEvent(triggeredArg: Option<string>, args: seq<string>, sender: string) returns (outcome: Outcome)
      requires Valid()
      modifies this
      ensures Valid()
      ensures systemTriggers == old(systemTriggers)
      ensures |args| >= 2 && SeperateTriggerFromArgs(args).trigger != "" ==>
        var split := SeperateTriggerFromArgs(args);
        SubCommandDone(SubCommandOf(triggeredArg), |args|, split.trigger, split.remainingData, sender, outcome)
      ensures |args| < 2 || SeperateTriggerFromArgs(args).trigger == "" ==>
        outcome == Rejected(InvalidUsage) && Replied(InvalidUsageReply(UsageOf(triggeredArg)))
      ensures outcome != Ignored && outcome != Threw ==>
        |replies| == |old(replies)| + 1 && replies[..|old(replies)|] == old(replies)
      ensures outcome.Rejected? || outcome == AlreadyInState ==>
        commands == old(commands) && calls == old(calls) && nextId == old(nextId)
      ensures outcome == Ignored || outcome == Threw ==> NothingHappened()
      ensures outcome == Ignored <==>
        |args| >= 2 && SeperateTriggerFromArgs(args).trigger != "" && SubCommandOf(triggeredArg).None?
      ensures outcome == Deleted ==>
        calls == old(calls) + [DeleteItemByTrigger(SeperateTriggerFromArgs(args).trigger)]
        && |commands| == |old(commands)| - 1
      ensures outcome == Saved ==>
        |calls| > |old(calls)| && calls[|old(calls)|].SaveItem? && calls[|old(calls)|].sender == sender
      ensures outcome == Saved && SubCommandOf(triggeredArg) != Some(AddCommand) ==> |commands| == |old(commands)|
    {
      var usage := UsageOf(triggeredArg);
      if |args| < 2 {
        Reply(InvalidUsageReply(usage));
        return Rejected(InvalidUsage);
      }
      var split := SeperateTriggerFromArgs(args);
      var trigger, remainingData := split.trigger, split.remainingData;
      if trigger == "" {
        Reply(InvalidUsageReply(usage));
        return Rejected(InvalidUsage);
      }
      outcome := RunSubCommand(SubCommandOf(triggeredArg), |args|, trigger, remainingData, sender);
    }

    /** The `switch` over the sub-command. */
    method RunSubCommand(sub: Option<SubCommand>, argCount: nat, trigger: string, remainingData: string, sender: string)
      returns (outcome: Outcome)
      requires Valid()
      modifies this
      ensures Valid()
      ensures SubCommandDone(sub, argCount, trigger, remainingData, sender, outcome)
      ensures outcome == Ignored <==> sub.None?
      ensures outcome != Ignored ==> Settled(outcome, trigger, sender, sub == Some(AddCommand))
    {
      match sub
      case None =>
        outcome := Ignored;
      case Some(AddCommand) =>
        outcome := Add(argCount, trigger, remainingData, sender);
      case Some(ResponseCommand) =>
        outcome := Response(argCount, trigger, remainingData, sender);
      case Some(SetCountCommand) =>
        outcome := SetCount(trigger, remainingData, sender);
      case Some(DescriptionCommand) =>
        outcome := Description(trigger, remainingData, sender);
      case Some(CooldownCommand) =>
        outcome := SetCooldown(argCount, trigger, remainingData, sender);
      case Some(RestrictCommand) =>
        outcome := Restrict(argCount, trigger, remainingData, sender);
      case Some(RemoveCommand) =>
        outcome := Remove(trigger);
      case Some(EnableCommand) =>
        outcome := SetActive(true, trigger, sender);
      case Some(DisableCommand) =>
        outcome := SetActive(false, trigger, sender);
    }
  }
}
