# Firebot chat command editor and viewer groups, in Dafny

This project models two parts of Firebot, a Twitch bot.

**The `!command` system command** (`backend/chat/commands/builtin/command-management.js`).
A moderator uses it to edit the bot's custom commands from chat. `!command <sub-command> <trigger> <data>`:

- splits the words after the sub-command into a trigger and the remaining data. A trigger is either a bare
  word such as `!greet`, or a phrase in double quotes matched by a regular expression;
- validates the arguments in a fixed order;
- answers with exactly one chat message, unless the arguments pass the usage checks and the sub-command word is
  unknown, or a `TypeError` stops it;
- on success creates, edits, or deletes one record of the custom-command registry.

The sub-commands are `add`, `response`, `setcount`, `description`, `cooldown`, `restrict`, `remove`,
`enable` and `disable`. `restrict` turns a free-text phrase ("Sub", " streamer ", "all", …) into the role ids
of a `roles` restriction.

**The viewer-groups service** (`gui/app/services/groupsService.js`). It keeps the custom viewer groups in a
JSON file keyed by group name, and mirrors them in an in-memory list. It guarantees that a group named
`banned` always exists, and it lists the default groups of the selected board's scenes without duplicates.

Modules:

- `Text` (text.dfy): the JavaScript string builtins the editor relies on: `trim`, `join(" ")`,
  `split(" ")`, `toLowerCase`, `indexOf`, and `replace` with a string pattern.
- `Numbers` (numbers.dfy): the integer tokens that `isNaN` accepts, `parseInt`, and `${n}`.
- `TriggerArgs` (trigger_args.dfy): `seperateTriggerFromArgs`. The quoted-trigger regular expression is
  stated declaratively: where a match may start, where it may end, and the leftmost match.
- `Permissions` (permissions.dfy): `mapPermArgToRoleIds`.
- `CustomCommands` (custom_commands.dfy): the custom-command record, the effect-list filters, and lookups
  and deletion in the registry list.
- `ChatCommandEditor` (command_management.dfy): the class `CommandManagement`, whose methods are the
  sub-commands.
  - Its state is the registry list `commands`.
  - The registry calls (`saveItem`, `deleteItemByTrigger`, `triggerUiRefresh`) are recorded in `calls`.
  - Chat messages go to `replies`.
  - The `uuidv1` generator is the counter `nextId`.
  - `systemTriggers` holds the triggers that `triggerIsTaken` reports besides those of custom commands.
- `ViewerGroups` (groups_service.dfy): the class `GroupsService`.
  - The field `store` is the ordered keyed content of the JSON file.
  - The field `groups` is the module's `groups` array.
  - The selected board's scenes are a parameter.

## Model

| member | source | states |
|---|---|---|
| Text.TrimStart | backend/chat/commands/builtin/command-management.js:16 | The result is a suffix of the input, only whitespace was dropped, and it does not start with whitespace |
| Text.TrimEnd | backend/chat/commands/builtin/command-management.js:16 | The result is a prefix of the input, only whitespace was dropped, and it does not end with whitespace |
| Text.Trim | backend/chat/commands/builtin/command-management.js:16 | `trim()` returns a string with no whitespace at either end, which is the input with only whitespace cut from both ends |
| Text.TrimUnique | backend/chat/commands/builtin/command-management.js:18 | Any trimmed string that the input surrounds with only whitespace is `trim` of the input, so `trim` is characterised completely |
| Text.TrimIdempotent | backend/chat/commands/builtin/command-management.js:19 | Trimming twice equals trimming once |
| Text.TrimOfTrimmed | backend/chat/commands/builtin/command-management.js:273 | A string without whitespace at its ends is left unchanged by `trim` |
| Text.TrimSkipsLeadingWhitespace | backend/chat/commands/builtin/command-management.js:36 | A leading whitespace character does not change the trimmed result |
| Text.TrimSkipsTrailingWhitespace | backend/chat/commands/builtin/command-management.js:36 | A trailing whitespace character does not change the trimmed result |
| Text.EmptyCoreIffBlank | backend/chat/commands/builtin/command-management.js:23 | A string trims to empty exactly when all of it is whitespace |
| Text.Join | backend/chat/commands/builtin/command-management.js:10 | `join(" ")` starts with the first word, and with two or more words it is the first word, a space and the joined rest |
| Text.JoinTwo | backend/chat/commands/builtin/command-management.js:10 | Two words join as the first word, a space and the second word |
| Text.Split | backend/chat/commands/builtin/command-management.js:332 | `split(" ")` gives at least one piece, no piece contains a space, and there is one piece exactly when the string has no space |
| Text.JoinSplit | backend/chat/commands/builtin/command-management.js:332 | Joining the pieces of `split(" ")` with spaces gives back the string |
| Text.SplitJoin | backend/chat/commands/builtin/command-management.js:332 | Splitting a space-joined list of space-free words gives back the words |
| Text.SplitWord | backend/chat/commands/builtin/command-management.js:332 | Splitting a word followed by a space and more text yields that word, then the pieces of the rest |
| Text.ToLower | backend/chat/commands/builtin/command-management.js:36 | `toLowerCase` keeps the length and lower-cases character by character |
| Text.LowerCharWhitespace | backend/chat/commands/builtin/command-management.js:36 | Lower-casing neither creates nor removes whitespace |
| Text.LowerTrimStart | backend/chat/commands/builtin/command-management.js:36 | Lower-casing commutes with dropping leading whitespace |
| Text.LowerTrimEnd | backend/chat/commands/builtin/command-management.js:36 | Lower-casing commutes with dropping trailing whitespace |
| Text.LowerTrim | backend/chat/commands/builtin/command-management.js:36 | `toLowerCase().trim()` equals `trim().toLowerCase()` |
| Text.ToLowerIdempotent | backend/chat/commands/builtin/command-management.js:36 | Lower-casing twice equals lower-casing once |
| Text.IndexOfFrom | backend/chat/commands/builtin/command-management.js:19 | The result is the first position at or after `from` where the pattern occurs, or nothing when it occurs nowhere there |
| Text.RemoveFirst | backend/chat/commands/builtin/command-management.js:19 | `replace` with a string pattern: without an occurrence the text is unchanged; otherwise it is one pattern shorter, and putting the pattern back at the first occurrence gives the text back |
| Numbers.DigitChar | backend/chat/commands/builtin/command-management.js:299 | The character written for a digit is a digit of that value |
| Numbers.IsInteger | backend/chat/commands/builtin/command-management.js:274 | The tokens that pass the `isNaN` check: a digit, or a `-` followed by at least one more character, with digits after the first character |
| Numbers.ParseInt | backend/chat/commands/builtin/command-management.js:289 | `parseInt` of a token that passed the check: negative only with a leading `-`, never negative without one |
| Numbers.IntToString | backend/chat/commands/builtin/command-management.js:299 | `${n}` writes a token that passes the `isNaN` check, and starts with `-` exactly for a negative number |
| Numbers.NatToString | backend/chat/commands/builtin/command-management.js:299 | A natural number is written as decimal digits without a leading zero |
| Numbers.DigitsValueOfNatToString | backend/chat/commands/builtin/command-management.js:299 | The digits written for `n` have the value `n` |
| Numbers.ParseIntOfIntToString | backend/chat/commands/builtin/command-management.js:289-299 | On exact integers, a number written into a reply passes the `isNaN` check, and `parseInt` reads it back as the same number |
| TriggerArgs.UnescapedQuoteFrom | backend/chat/commands/builtin/command-management.js:11 | Returns the first quote at or after `i` that has no backslash before it, or nothing when there is none |
| TriggerArgs.MatchesAtIff | backend/chat/commands/builtin/command-management.js:11 | From a start that opens a quoted trigger, the regex matches up to `q` if and only if `q` is the first unescaped quote and that quote closes |
| TriggerArgs.MatchEndUnique | backend/chat/commands/builtin/command-management.js:11 | A match is determined by its start |
| TriggerArgs.MatchFrom | backend/chat/commands/builtin/command-management.js:11-12 | Returns the leftmost match starting at or after `p`; no match starts between `p` and it |
| TriggerArgs.QuotedTriggerSpan | backend/chat/commands/builtin/command-management.js:11-12 | `exec` returns a span the regex matches, and no match starts before it; it returns nothing only when nothing matches |
| TriggerArgs.SeperateTriggerFromArgs | backend/chat/commands/builtin/command-management.js:7-29 | A second word without a leading quote is the trigger as it stands; otherwise a quoted trigger comes back trimmed. The remaining data is always trimmed |
| TriggerArgs.BareTrigger | backend/chat/commands/builtin/command-management.js:14-16 | With a bare trigger, or with a quote that matches nothing, the trigger is the second word and the data is the later words joined and trimmed |
| TriggerArgs.QuotedTrigger | backend/chat/commands/builtin/command-management.js:17-19 | With a leftmost match, the trigger is the matched text trimmed and the data is the joined words with the first occurrence of the quoted trigger cut out, trimmed |
| TriggerArgs.QuotedPhraseRoundTrip | backend/chat/commands/builtin/command-management.js:7-29 | A phrase without quotes, written in quotes at the front and followed by whitespace or nothing, splits back into the phrase and the trimmed rest |
| TriggerArgs.QuotedPhraseSpan | backend/chat/commands/builtin/command-management.js:11-19 | In text that starts with a quoted phrase, the regex matches exactly that phrase, and cutting the quoted phrase out leaves the rest |
| TriggerArgs.QuotedPhraseThenText | backend/chat/commands/builtin/command-management.js:7-29 | A quoted phrase, one space and a trimmed message split into exactly that phrase and that message |
| TriggerArgs.QuotedExample | backend/chat/commands/builtin/command-management.js:9-20 | `add "hello there" Hi!` has the trigger `hello there` and the data `Hi!` |
| TriggerArgs.MatchedSpanParts | backend/chat/commands/builtin/command-management.js:17-19 | A matched span without whitespace at its ends is the trigger; the data cuts out the first textual occurrence of that trigger in quotes |
| TriggerArgs.MatchedSpanThenText | backend/chat/commands/builtin/command-management.js:17-19 | The same, when what is left after the cut is already trimmed |
| TriggerArgs.CutAt | backend/chat/commands/builtin/command-management.js:19 | `replace` with a string pattern removes the occurrence that `indexOf` finds |
| TriggerArgs.RepeatedTriggerSpan | backend/chat/commands/builtin/command-management.js:11-19 | In `"x"y "x"` the regex matches the second `"x"`, while `replace` cuts out the first |
| TriggerArgs.RepeatedTriggerExample | backend/chat/commands/builtin/command-management.js:9-20 | `add "x"y "x"` has the trigger `x` and the data `y "x"` |
| TriggerArgs.FirstWordOpens | backend/chat/commands/builtin/command-management.js:9-10 | When the joined words start with a quote, the second word starts with a quote |
| TriggerArgs.BareExample | backend/chat/commands/builtin/command-management.js:21-23 | `add !greet Hello!` has the trigger `!greet` and the data `Hello!` |
| Permissions.NormalizePerm | backend/chat/commands/builtin/command-management.js:36 | The normalised phrase has no whitespace at its ends and is no longer than the argument |
| Permissions.GrantAllPhrasesAreNotRolePhrases | backend/chat/commands/builtin/command-management.js:40-42 | "all" and "everyone" grant no role |
| Permissions.RolesOfPhrase | backend/chat/commands/builtin/command-management.js:39-55 | The switch grants at most one role, always a known role id, and grants one exactly for the four role phrases |
| Permissions.MapPermArgToRoleIds | backend/chat/commands/builtin/command-management.js:31-58 | A missing or empty argument grants nothing. Otherwise a role is granted exactly when the lower-cased, trimmed phrase is a role phrase; at most one role, and it is a known role id |
| Permissions.PhraseFor | backend/chat/commands/builtin/command-management.js:43-54 | Every role id has a phrase that grants it |
| Permissions.PhraseGrantsRole | backend/chat/commands/builtin/command-management.js:43-54 | The phrase of a role id grants exactly that role |
| Permissions.RoleGrantedOnlyByItsPhrase | backend/chat/commands/builtin/command-management.js:36-54 | An argument that grants a role normalises to that role's phrase (the converse of `PhraseGrantsRole`) |
| Permissions.PhraseOfRoles | backend/chat/commands/builtin/command-management.js:39-55 | Each role phrase grants one role, whose phrase is that phrase |
| Permissions.LowercasePhrase | backend/chat/commands/builtin/command-management.js:43-52 | The role phrases are already lower case |
| Permissions.BlankPhraseGrantsNoRole | backend/chat/commands/builtin/command-management.js:32-42 | A phrase that normalises to empty grants no role |
| Permissions.SameNormalFormSameRoles | backend/chat/commands/builtin/command-management.js:36 | Two arguments with the same normal form grant the same roles |
| Permissions.CaseInsensitive | backend/chat/commands/builtin/command-management.js:36 | Letter case does not affect the roles granted |
| Permissions.PaddingIgnored | backend/chat/commands/builtin/command-management.js:36 | Whitespace before or after the phrase does not affect the roles granted |
| Permissions.StreamerExample | backend/chat/commands/builtin/command-management.js:52-53 | ` StReAmEr ` grants the broadcaster role |
| Permissions.MixedCasePaddedPhrase | backend/chat/commands/builtin/command-management.js:36 | A phrase padded with the same whitespace on both sides grants what its lower-cased core grants |
| CustomCommands.ChatEffects | backend/chat/commands/builtin/command-management.js:244 | Every kept effect is a chat effect taken from the list, and there are no more of them than effects |
| CustomCommands.OtherEffects | backend/chat/commands/builtin/command-management.js:244-262 | Every kept effect is a non-chat effect taken from the list, and there are no more of them than effects |
| CustomCommands.FirstChat | backend/chat/commands/builtin/command-management.js:253 | `find` returns the first chat effect, or nothing when there is none |
| CustomCommands.ChatEffectCount | backend/chat/commands/builtin/command-management.js:244 | No effect list counts 0; the count is at most the number of effects, and is 0 exactly when `find` finds no chat effect |
| CustomCommands.NoChatEffectIffNoChat | backend/chat/commands/builtin/command-management.js:244-253 | The chat filter is empty exactly when `find` finds no chat effect |
| CustomCommands.FiltersOfAppend | backend/chat/commands/builtin/command-management.js:256-261 | Appending an effect extends exactly one of the two filtered lists |
| CustomCommands.FiltersOfChatUpdate | backend/chat/commands/builtin/command-management.js:252-254 | Editing the first chat effect keeps the other effects and replaces that chat effect among the chat effects |
| CustomCommands.NoChatNoneFiltered | backend/chat/commands/builtin/command-management.js:244 | A list without chat effects has no chat effects after filtering, and every effect survives the other filter |
| CustomCommands.WithResponse | backend/chat/commands/builtin/command-management.js:244-262 | Afterwards there is exactly one chat effect, it carries the message, and the other effects are unchanged. With one chat effect only its message changes. With none, a new chat effect is appended |
| CustomCommands.NewCommand | backend/chat/commands/builtin/command-management.js:199-218 | The new command is active and not auto-deleted, with no cooldown and one chat effect with the message. It scans the whole message unless the trigger starts with `!` |
| CustomCommands.FindAny | backend/chat/commands/builtin/command-management.js:434 | `find` returns the first command with the trigger, or nothing when no command has it |
| CustomCommands.FindActive | backend/chat/commands/builtin/command-management.js:236 | Returns the first active command with the trigger, or nothing when no active command has it |
| CustomCommands.ActiveLookupAgrees | backend/chat/commands/builtin/command-management.js:151 | With unique triggers, the active lookup finds the command the full lookup finds when that command is active, and nothing otherwise |
| CustomCommands.UpdateKeepsTriggers | backend/chat/commands/builtin/command-management.js:264 | Saving an edit with the same trigger keeps every lookup and keeps the triggers unique |
| CustomCommands.AppendedIsFound | backend/chat/commands/builtin/command-management.js:192-220 | A command with a new trigger can be appended, keeps the triggers unique, and is then the one found |
| CustomCommands.WithoutTrigger | backend/chat/commands/builtin/command-management.js:428 | After `deleteItemByTrigger` no command has the trigger |
| CustomCommands.DeleteRemovesFound | backend/chat/commands/builtin/command-management.js:419-428 | With unique triggers, deleting by trigger removes exactly the command found, keeps the others in order, and keeps the triggers unique |
| CustomCommands.DeleteOnlyMatch | backend/chat/commands/builtin/command-management.js:428 | Deleting a trigger that only the command at `k` has removes that command and nothing else |
| CustomCommands.RemovalKeepsUnique | backend/chat/commands/builtin/command-management.js:428 | Removing one command keeps the triggers unique |
| CustomCommands.NoTriggerNothingDeleted | backend/chat/commands/builtin/command-management.js:428 | Deleting a trigger that no command has changes nothing |
| ChatCommandEditor.ClampToZero | backend/chat/commands/builtin/command-management.js:290-292 | A negative number becomes 0 and any other number is kept |
| ChatCommandEditor.CommandManagement.constructor | backend/chat/commands/builtin/command-management.js:61-139 | Starts from a registry with unique triggers, with no calls and no replies |
| ChatCommandEditor.CommandManagement.Save | backend/chat/commands/builtin/command-management.js:264 | The command at `i` is replaced by its edit and one `saveItem` call is recorded; the triggers stay unique |
| ChatCommandEditor.CommandManagement.Reply | backend/chat/commands/builtin/command-management.js:186-188 | Exactly one chat message is appended |
| ChatCommandEditor.CommandManagement.Add | backend/chat/commands/builtin/command-management.js:184-227 | Fewer than three words or empty data is rejected before a taken trigger. A free trigger gets a new active command that is then found by its trigger; the save and the reply are recorded |
| ChatCommandEditor.CommandManagement.TriggerIsTaken | backend/chat/commands/builtin/command-management.js:192 | A trigger is taken exactly when a system command has it or some custom command has it |
| ChatCommandEditor.CommandManagement.Append | backend/chat/commands/builtin/command-management.js:199-224 | The new command is appended with two fresh ids, saved, and is then the active command found for its trigger |
| ChatCommandEditor.CommandManagement.Response | backend/chat/commands/builtin/command-management.js:228-271 | Checks in order: usage, not found, more than one chat effect. No effect list makes it throw. Otherwise the command's only chat effect says the message and the other effects are unchanged |
| ChatCommandEditor.CommandManagement.SetCount | backend/chat/commands/builtin/command-management.js:272-303 | A non-numeric count is rejected before the lookup. Otherwise the count is set to the number, clamped at 0, and saved |
| ChatCommandEditor.CommandManagement.Description | backend/chat/commands/builtin/command-management.js:304-330 | Not found is checked before empty data. Otherwise the description becomes the data and is saved |
| ChatCommandEditor.CommandManagement.SetCooldown | backend/chat/commands/builtin/command-management.js:331-372 | The first two tokens must be numbers, checked before the lookup. Global and user cooldowns are set from them, each clamped at 0 |
| ChatCommandEditor.CommandManagement.Restrict | backend/chat/commands/builtin/command-management.js:373-416 | After the usage and lookup checks, the restrictions become exactly one `roles` restriction whose role ids are `mapPermArgToRoleIds` of the data |
| ChatCommandEditor.CommandManagement.SaveRoleRestriction | backend/chat/commands/builtin/command-management.js:389-411 | The command's restrictions become one `roles` restriction with a fresh id, and the command is saved |
| ChatCommandEditor.CommandManagement.Remove | backend/chat/commands/builtin/command-management.js:417-431 | An active command with the trigger is deleted, the rest stay in order, and one `deleteItemByTrigger` call is recorded; otherwise not found |
| ChatCommandEditor.CommandManagement.SetActive | backend/chat/commands/builtin/command-management.js:432-459 | Searches active and inactive commands. A command already in the requested state is refused; otherwise only its `active` flag changes, and it is saved |
| ChatCommandEditor.CommandManagement.OnTriggerEvent | backend/chat/commands/builtin/command-management.js:146-183 | Fewer than two words, or an empty trigger, is rejected with the sub-command's usage. Otherwise the sub-command that `triggeredArg` names runs on the trigger and the remaining data split off the words, with that sub-command's whole effect. An unknown sub-command does nothing, and only then is the outcome `Ignored`. Every outcome except `Ignored` and a `TypeError` appends exactly one reply. A rejection or refusal changes nothing else. A deletion removes one command; a save by anything but `add` keeps the number of commands |
| ChatCommandEditor.CommandManagement.RunSubCommand | backend/chat/commands/builtin/command-management.js:183-463 | Runs exactly the operation of the given sub-command, with its whole effect. No sub-command does nothing and is the only `Ignored` outcome. Every other outcome except a `TypeError` appends exactly one reply and settles the registry |
| ChatCommandEditor.SubCommandOf | backend/chat/commands/builtin/command-management.js:157-163 | Only a present `triggeredArg` can name a sub-command |
| ChatCommandEditor.SubCommandOfWord | backend/chat/commands/builtin/command-management.js:157-163 | The lookup finds each sub-command by its declared word, and by that word only |
| ChatCommandEditor.UsageOf | backend/chat/commands/builtin/command-management.js:155-164 | Without a triggered argument the usage is empty; each sub-command's word shows that sub-command's usage |
| ViewerGroups.FindKey | gui/app/services/groupsService.js:69 | Returns the position of the key in the store, or nothing when the key is absent |
| ViewerGroups.Lookup | gui/app/services/groupsService.js:19 | Reading a key gives the group stored under it, or nothing when the key is absent |
| ViewerGroups.Put | gui/app/services/groupsService.js:69 | Writing a key replaces its entry in place, or appends a new entry at the end |
| ViewerGroups.PutLookup | gui/app/services/groupsService.js:69 | After writing a key, it maps to the written group and every other key is unchanged; keys stay unique and entries keyed by their name |
| ViewerGroups.PutEntries | gui/app/services/groupsService.js:69 | After writing, the entries are the old entries of other keys plus the written one |
| ViewerGroups.PutKeepsUnique | gui/app/services/groupsService.js:69 | Writing keeps the keys unique |
| ViewerGroups.Delete | gui/app/services/groupsService.js:75 | Deleting an absent key changes nothing. Deleting a present key removes exactly that entry and keeps the others in order |
| ViewerGroups.LookupIsMembership | gui/app/services/groupsService.js:19-21 | With unique keys, a key maps to a group exactly when that entry is in the store |
| ViewerGroups.DeletedEntries | gui/app/services/groupsService.js:75 | After deleting, the entries are exactly the old entries of other keys |
| ViewerGroups.DeleteLookup | gui/app/services/groupsService.js:75 | After deleting, the key is absent and every other key is unchanged; keys stay unique and entries keyed by their name |
| ViewerGroups.DeleteKeepsUnique | gui/app/services/groupsService.js:75 | Deleting keeps the keys unique |
| ViewerGroups.Values | gui/app/services/groupsService.js:21 | `_.values` lists the stored groups in store order |
| ViewerGroups.FindNamed | gui/app/services/groupsService.js:100 | `_.findWhere` returns the first group with the name, or nothing when no group has it |
| ViewerGroups.HasBanned | gui/app/services/groupsService.js:111 | `_.any` by name: some group is named "banned" |
| ViewerGroups.NamedIsKeyed | gui/app/services/groupsService.js:100 | In a store keyed by group name, searching the values by name finds the key's position |
| ViewerGroups.EnsuredGroups | gui/app/services/groupsService.js:110-124 | Afterwards a banned group exists. A list that had one is unchanged; otherwise the result is the list followed by exactly one empty banned group |
| ViewerGroups.FindNamedAppended | gui/app/services/groupsService.js:122 | A group appended to a list without that name is the one found |
| ViewerGroups.FindNamedUpdated | gui/app/services/groupsService.js:88-94 | Editing the found group without renaming it keeps it the one found |
| ViewerGroups.EnsureIdempotent | gui/app/services/groupsService.js:110-124 | Ensuring the banned group twice equals ensuring it once |
| ViewerGroups.EnsuredStore | gui/app/services/groupsService.js:110-124 | The store is unchanged when the list had a banned group; otherwise the empty banned group is put under the banned key. Every other key keeps its group, keys stay unique, and entries stay keyed by their name |
| ViewerGroups.WithoutBanned | gui/app/services/groupsService.js:33 | `_.reject` keeps exactly the groups not named "banned" |
| ViewerGroups.WithoutBannedNoBanned | gui/app/services/groupsService.js:33 | A list without a banned group is left unchanged by the filter |
| ViewerGroups.WithoutBannedAppend | gui/app/services/groupsService.js:33 | Rejecting the banned groups from two lists joined is rejecting from each and joining, so order is kept |
| ViewerGroups.WithoutBannedOne | gui/app/services/groupsService.js:33 | A single group is rejected exactly when it is named "banned" |
| ViewerGroups.ReloadKeepsBanned | gui/app/services/groupsService.js:15-25 | Reloading a store whose banned key was not written keeps that key's group, or adds an empty banned group when there was none |
| ViewerGroups.Splice1 | gui/app/services/groupsService.js:94 | `splice(index, 1)` removes the user at a valid index, counts a negative index from the end, removes the first user when the index is before the start, and changes nothing past the end; the others keep their order |
| ViewerGroups.SpliceRemovesOne | gui/app/services/groupsService.js:94 | At a valid index exactly that one user is removed, as a multiset |
| ViewerGroups.SpliceFromEnd | gui/app/services/groupsService.js:94 | A negative index within the list counts from the end |
| ViewerGroups.SpliceUndoesAppend | gui/app/services/groupsService.js:88-94 | Removing at the last index undoes adding a user |
| ViewerGroups.WithUser | gui/app/services/groupsService.js:87-89 | A missing or empty name leaves the group as it is; any other name is appended to its users |
| ViewerGroups.InFlatten | gui/app/services/groupsService.js:50-56 | A name is in the collected list exactly when it is a default group of some scene |
| ViewerGroups.Flatten | gui/app/services/groupsService.js:49-56 | Every scene's default groups are in the collected list, each as many times as that scene lists it |
| ViewerGroups.CollectDefaults | gui/app/services/groupsService.js:47-56 | The nested loops collect every scene's default groups in scene order |
| ViewerGroups.IndexOf | gui/app/services/groupsService.js:60 | `indexOf` returns the first position of the element, or -1 when it is absent |
| ViewerGroups.FirstOccurrences | gui/app/services/groupsService.js:59-61 | The filter keeps each element of the prefix once, at its first occurrence, without duplicates and in order of first appearance |
| ViewerGroups.Dedup | gui/app/services/groupsService.js:59-61 | The filtered list has no duplicates, has the same elements, and keeps the order of first appearance |
| ViewerGroups.DedupOfDistinct | gui/app/services/groupsService.js:59-61 | On a list without duplicates the filter keeps every element of the prefix, in place |
| ViewerGroups.DedupIdempotent | gui/app/services/groupsService.js:59-61 | Filtering twice equals filtering once |
| ViewerGroups.GroupsService.constructor | gui/app/services/groupsService.js:11-13 | Starts with a well-formed store and an empty list |
| ViewerGroups.GroupsService.EnsureBannedGroupExists | gui/app/services/groupsService.js:110-124 | When the list has no banned group, an empty one is written to the store and appended to the list; otherwise nothing changes |
| ViewerGroups.GroupsService.LoadViewerGroups | gui/app/services/groupsService.js:15-25 | The list becomes the store's values with a banned group ensured. Afterwards the list mirrors the store, and the store changes only when it lacked the banned group |
| ViewerGroups.GroupsService.GetViewerGroups | gui/app/services/groupsService.js:27-39 | Only an explicit `false` keeps the banned group. Otherwise the result is the list with the groups named "banned" removed, in order |
| ViewerGroups.GroupsService.GetActiveGroups | gui/app/services/groupsService.js:41-64 | Reloads the groups. Returns each default group of the scenes exactly once, in order of first appearance, and nothing else |
| ViewerGroups.GroupsService.AddOrUpdateViewerGroup | gui/app/services/groupsService.js:66-71 | The banned group is never written. Any other group is stored under its name, other keys keep their groups, the banned key keeps its group (or gets an empty one if it had none), and the list mirrors the store. The new store is exactly the old one with the group `push`ed (replaced in place or appended), then the banned group ensured, so the order of the list is fixed too |
| ViewerGroups.GroupsService.RemoveViewerGroup | gui/app/services/groupsService.js:73-80 | The key is deleted, other keys keep their groups, and the list mirrors the store. Removing another group keeps the banned key's group (or adds an empty one); a removed banned group comes back empty. The new store is exactly the old one without that entry, the rest in order, then the banned group ensured |
| ViewerGroups.GroupsService.GetBannedGroup | gui/app/services/groupsService.js:98-102 | Ensures the banned group, then returns the first group named "banned" and its position |
| ViewerGroups.GroupsService.SaveBannedGroup | gui/app/services/groupsService.js:104-108 | The store's banned key holds the in-memory banned group, and every other key is unchanged. The new store is exactly the ensured store with the banned entry replaced in place (or appended), so entry order is kept |
| ViewerGroups.GroupsService.AddUserToBannedGroup | gui/app/services/groupsService.js:86-91 | The banned group in memory gains the user if the name is given and non-empty; the store holds that group, and other keys are unchanged. The new store is exactly the ensured store with the banned entry replaced in place, so entry order is kept |
| ViewerGroups.GroupsService.RemoveUserFromBannedGroupAtIndex | gui/app/services/groupsService.js:93-96 | The banned group in memory loses the user at `index`, with `splice` semantics; the store holds that group, and other keys are unchanged. The new store is exactly the ensured store with the banned entry replaced in place, so entry order is kept |

## Left out

- Chat transport, the registry's persistence and UI refresh, and JSON file I/O are not modelled. They become the
  `replies` list, the `calls` record, and the ordered keyed `store`.
- `uuidv1` is replaced by a counter. Ids are fresh only with respect to each other.
- `backend/effects/builtin/clips.js` is not part of this model.
- The regular-expression engine is not modelled. The one regular expression used is stated as the set of spans
  it matches, and the leftmost of them is taken.
- Numbers.ParseInt, ChatCommandEditor.CommandManagement.SetCount and ChatCommandEditor.CommandManagement.SetCooldown: integers are exact here. JavaScript numbers are doubles, so `parseInt` rounds tokens above 2^53 and `${n}` switches to exponent form from 1e21. Counts and cooldowns that large are not modelled.
- `isNaN` and `parseInt` on tokens that are not plain, optionally negative, decimal integers are not modelled.
  These include hexadecimal, exponent and decimal-point forms, a leading `+`, surrounding whitespace, and the
  empty token that two adjacent spaces produce. JavaScript accepts some of these; the model rejects them as
  invalid usage.
- `toLowerCase` is modelled on ASCII letters only. Other characters are left as they are.
- `util.capitalize` is not modelled. The `enable`/`disable` reply spells "Enabled"/"Disabled" directly.
- The sub-commands' `minArgs` is enforced by the command router, which is not part of this model. `setcount`
  and `description` do not check the word count themselves.
- The system command's own metadata is not modelled, except its trigger and the sub-command usages. This
  covers its id, name, default restrictions and cooldown.
- Asynchronous execution is not modelled, and neither is the `try`/`catch` around group loading.
- The `roleIds === false` branch of `restrict` can never be taken, because `mapPermArgToRoleIds` always
  returns a list. So the model has no such branch.
- `ChatCommandEditor.CommandManagement.Response`: an active command without an effect list and without chat
  effects makes the source throw a `TypeError` when it pushes to the list. This is modelled as the outcome
  `Threw`, with nothing changed.
- Triggers are compared as exact strings, as `===` does.
- `ViewerGroups.GroupsService.LoadViewerGroups` does not model two things:
  - JavaScript's ordering of integer-like object keys in `_.values`; the store keeps insertion order;
  - the `rawGroups != null` test, which the store always passes.
- `ViewerGroups.GroupsService.AddOrUpdateViewerGroup` and `ViewerGroups.GroupsService.RemoveViewerGroup` do
  not model group names containing `/`, which the JSON database reads as a path in `push` and `delete`, or an
  empty name, which would write or delete the root.
- The board service is left out. `getSelectedBoard` becomes the `scenes` parameter of
  `ViewerGroups.GroupsService.GetActiveGroups`. `deleteViewerGroupFromAllBoards` is not modelled.
- A scene without a `default` list is not modelled. The source would throw there.
- Object aliasing between the list and the group objects is modelled by position. Editing the banned group
  in memory is an update of `groups` at the index `getBannedGroup` returns.
- `ViewerGroups.GroupsService.GetViewerGroups` models `filterOutBannedGroup` as a missing argument or a
  boolean. The loose `!=` comparison against non-boolean values is not modelled.
- `ViewerGroups.GroupsService.AddUserToBannedGroup` models `username` as a missing value (null or undefined)
  or a string. Other types are not modelled.
