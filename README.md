# IA event system in Dafny

This project models the dispatch core of the IA Discord bot framework:
- the `EventSystem` class of `IA/Events/EventSystem.cs`;
- the event definition of `IA-SDK/Event.cs`;
- the bot module of `IA/Events/Module.cs`.

It proves properties of that model.

The `EventSystem` keeps seven pieces of state:
- the events, in six insertion-ordered dictionaries keyed by the lower-cased event name (commands, mentions, command-done hooks, guild-join, guild-leave, continuous);
- one alias table, shared by every category but the continuous events, that maps an alias to the lower-cased name of the event that declared it (a command, a mention, a command-done hook, or a guild event);
- a per-guild prefix cache (`identifier`), filled lazily from the `identifier` table of the database;
- one enabled cache per event, keyed by channel or guild id and filled lazily from the `event` table;
- the developer list, the ignored guilds, and the default and override prefixes.

The model has one datatype or function module per concern:

| module | file | what it holds |
|---|---|---|
| `Base` | `base.dfy` | C# `int` wrap-around, the .NET exceptions the code can throw (`Fault`), ASCII `ToLower`, ordinal `StartsWith`, `Split(' ')[0]` |
| `Modules` | `module.dfy` | the bot module and its `GetState` |
| `Events` | `event.dfy` | the event, its defaults, and the order on accessibility tiers |
| `Registry` | `registry.dfy` | the insertion-ordered dictionaries, the event container and its `GetEvent`, the alias loop, and the six `Add*Event` methods |
| `Store` | `store.dfy` | the database as two tables plus a request log |
| `State` | `state.dfy` | the whole `EventSystem` state as one `World` value, and `GetUserAccessibility` |
| `Prefixes` | `prefixes.dfy` | `LoadIdentifier`, `SetIdentifierAsync` and `GetIdentifier` |
| `EnabledState` | `enabled.dfy` | `IsEnabled` and `SetEnabled` |
| `Dispatch` | `dispatch.dfy` | `CheckIdentifier`, `OnMessageRecieved`, the guild passes, `OnMention` and `OnCommandDone` |
| `Listing` | `listing.dfy` | `ListCommands`, and both `CommandsUsed` overloads |
| `Dispatcher` | `eventsystem.dfy` | the class and its methods |

The class `Dispatcher.EventSystem` has the C# fields, updated in place. Each method does what the C# method does, step by step, including its loops. It ensures that its result and its new state are what the function of the same name in `Prefixes`, `EnabledState`, `Dispatch` or `Listing` computes from the old state. The dispatcher's properties are lemmas about those functions. The class invariant `Valid()` also holds every event under its lower-cased name (`Registry.EventContainer.Keyed`). Each function that changes the events is proved to keep that (the `…KeepsKeyed` lemmas).

Handler calls (`Check`, `processEvent`) are recorded in an `invoked` log instead of being run. Database requests are likewise recorded in the store's log, so a lemma can state that a cache hit sends no request.

Every exception that the dispatcher's own code raises on well-formed events is part of the model (`Try`/`Status` with a `Fault`). Null fields, handler exceptions and store failures are not; "## Left out" lists them. The modelled exceptions are:
- `Dictionary.Add` on a present key gives `DuplicateKey`: a second alias, a second registration, or `LoadIdentifier` on a cached guild.
- An indexer read on an absent key gives `KeyNotFound`.
- Line 413 reads `events.CommandEvents[aliases[command]]`, which throws for an alias whose target is not a command.
- Line 433 is reached only on a cache hit (line 431). It reads `events.CommandEvents[e.name]`, which is keyed by the lower-cased name. It throws when no command has the event's exact name as its key, for instance when the name has upper case. A non-command event whose name is also a command's key reads that command's cache instead of its own.
- `usage[0]` on an empty array gives `IndexOutOfRange`.
- Line 225 dereferences a null event before testing for null, which gives `NullReference`.
- Line 356 dereferences the result of `GetEvent`, so it throws `NullReference` for an unknown name.

Some behaviour of the code differs from what the system's documentation suggests. In each case the model follows the code:
- The override prefix (`botname.`) is tried only when the message already starts with the guild's prefix (line 306). On its own, the override prefix never runs a command (`Dispatch.OverrideNeedsGuildPrefix`).
- `OnMention` runs every mention event without a bot, enabled or tier test.
- On a first lookup, when the table has a row, line 443 caches `defaultEnabled` and not the stored value. A second lookup then answers the default (`EnabledState.StoredStateForgotten`).
- The `OrderBy` calls (lines 275-282) and `output.Remove` (line 292) discard their results. The listing therefore follows registration order, and every name, including each group's last, is followed by ", " (`Listing.TrailingSeparatorKept`).
- `ListCommands` makes every lookup first and groups afterwards. Each lookup changes only the cache of its own event and the store, so the answers are those of the source's interleaved loop. This is proved in `Listing.ProbeAllAnswers` and needs distinct keys.

## Model

| member | source | states |
|---|---|---|
| `Base.Wrap32` | IA/Events/EventSystem.cs:349 | The unchecked C# `int` addition: the result is in `int` range, equals an in-range input, and differs from the exact value by a multiple of 2^32 |
| `Base.WrapAdd` | IA/Events/EventSystem.cs:346-351 | Wrapping after every addition is the same as wrapping the exact sum once |
| `Base.Lower` | IA/Events/EventSystem.cs:304 | `ToLower` keeps the length, maps each ASCII upper-case letter to its lower-case letter (code + 32), leaves every other character as it is, and leaves no upper-case letter |
| `Base.LowerChar` | IA/Events/EventSystem.cs:304 | One character: an ASCII upper-case letter goes to its lower-case letter, and any other character is unchanged |
| `Base.LowerFixpoint` | IA/Events/EventSystem.cs:304 | Lower-casing leaves a string unchanged if and only if it is already lower case |
| `Base.LowerIdempotent` | IA/Events/EventSystem.cs:93 | Lower-casing a registry key again gives the same key |
| `Base.FirstToken` | IA/Events/EventSystem.cs:395 | `Split(' ')[0]` is a prefix of the string, holds no space, and is followed by a space or the end |
| `Base.FirstTokenUnique` | IA/Events/EventSystem.cs:395 | Those three properties determine the first token uniquely |
| `Base.FirstTokenOfWord` | IA/Events/EventSystem.cs:395 | A word without spaces is its own first token |
| `Modules.NewModule` | IA/Events/Module.cs:13-18 | The module takes the given name and flag, and the flag defaults to enabled |
| `Modules.FromAddon` | IA/Events/Module.cs:23-28 | The module copies the add-on's name and flag |
| `Modules.GetState` | IA/Events/Module.cs:30-33 | The state is the name followed by ": ACTIVE", whatever the flag |
| `Modules.GetStateIdentifiesName` | IA/Events/Module.cs:30-33 | Two modules report the same state if and only if they have the same name |
| `Modules.FromAddonKeepsState` | IA/Events/Module.cs:23-33 | Converting an add-on keeps the state it reports |
| `Modules.RunHook` | IA/Events/Module.cs:35-48 | `Initialize`, `Install` and `Uninstall` change nothing |
| `Events.AtLeastTotalOrder` | IA/Events/EventSystem.cs:250 | `>=` on tiers is a total order from PUBLIC up to DEVELOPERONLY |
| `Events.NewEvent` | IA-SDK/Event.cs:12-25 | Every field initialiser: name, description, usage and error message sentinels, no aliases, can be disabled, enabled by default, not overridable, no module, PUBLIC |
| `Registry.Dict.Insert` | IA/Events/EventSystem.cs:93 | `Add` on an absent key puts it at the end of the enumeration order, with the value stored, and keeps the keys distinct |
| `Registry.Dict.Set` | IA/Events/EventSystem.cs:236 | Writing a changed event back into its present slot replaces the value and keeps the order. Lines 236 and 440-443 change the event's own `enabled` map, and line 236 can add a channel to it. Because events are reference objects, the change shows in the category dictionary, and `Set` models that write-back |
| `Registry.DistinctSnoc` | IA/Events/EventSystem.cs:93 | Appending a key that is absent keeps the keys distinct |
| `Registry.EmptyDict` | IA/Events/EventSystem.cs:46 | A new dictionary has no keys and no entries |
| `Registry.EmptyContainer` | IA/Events/EventSystem.cs:46 | A new container is well formed, and every event category is empty |
| `Registry.SetKeepsValid` | IA/Events/EventSystem.cs:236 | Replacing a stored event keeps every dictionary well formed |
| `Registry.SetKeepsKeyed` | IA/Events/EventSystem.cs:236 | Replacing an event by one with the same name keeps every event under its lower-cased name |
| `Registry.SameDefinitionsTrans` | IA/Events/EventSystem.cs:236 | Keeping every event's definition composes over a sequence of steps |
| `Registry.SetKeepsDefinitions` | IA/Events/EventSystem.cs:236 | Writing back an event whose `enabled` cache alone changed keeps every event's definition and every order |
| `Registry.SetKeepsDefinitionsIn` | IA/Events/EventSystem.cs:236 | The same for the one dictionary that is written |
| `Registry.SameDefinitionsKeepKeyed` | IA/Events/EventSystem.cs:72-155 | Events that keep their definitions stay under their lower-cased names |
| `Registry.KeyIsOwnName` | IA/Events/EventSystem.cs:433 | Only an already lower-case name is itself a key of a category |
| `Registry.InsertAliasesOutcome` | IA/Events/EventSystem.cs:65-71 | The alias loop completes if and only if the aliases are fresh and distinct. It fails only with a duplicate key, keeps the earlier entries, and adds only entries that point at the target |
| `Registry.PrepareCommand` | IA/Events/EventSystem.cs:82-85 | An empty usage throws; otherwise the "usage not set!" sentinel becomes the name and nothing else changes |
| `Registry.Register` | IA/Events/EventSystem.cs:60-158 | Each `Add*Event` keeps the registry well formed |
| `Registry.RegisterOutcome` | IA/Events/EventSystem.cs:60-158 | Registration completes if and only if the usage is non-empty (commands), the aliases are fresh (not continuous), and the lower-cased name is new. On success, the event goes at the end under that name. On failure, no event is stored. Other categories never change |
| `Registry.RegisterKeepsKeyed` | IA/Events/EventSystem.cs:72-155 | Every event is stored under its lower-cased name |
| `Registry.RegisterAliases` | IA/Events/EventSystem.cs:86-92 | Old aliases stay, new aliases point at the lower-cased name, and continuous events add none |
| `Registry.UsageSentinel` | IA/Events/EventSystem.cs:82-85 | Only commands have the usage sentinel replaced by their name |
| `Registry.DefaultUsageIsName` | IA/Events/EventSystem.cs:82-85 | A command left with the default usage shows its own name as usage |
| `Store.ReadEnabled` | IA/Events/EventSystem.cs:436-437 | The stored flag as 1 or 0, or -1 when there is no row; the read is logged |
| `Store.UpdateEnabled` | IA/Events/EventSystem.cs:234 | The UPDATE never creates a row. An existing (name, id) row takes the new flag, and every other row keeps its flag. The request is logged, and the prefix table is untouched |
| `Store.ReadPrefixRow` | IA/Events/EventSystem.cs:363 | The stored prefix, or "ERROR" when there is no row; the read is logged |
| `Store.UpdatePrefixRow` | IA/Events/EventSystem.cs:195 | The UPDATE never creates a row. The guild's existing row takes the new prefix, and every other row keeps its prefix. The request is logged, and the event table and the configured flag are untouched |
| `State.GetUserAccessibility` | IA/Events/EventSystem.cs:334-342 | Outside a guild channel everyone is PUBLIC. In a guild channel, developers are DEVELOPERONLY and ManagePermissions holders are ADMINONLY, each case as an if-and-only-if |
| `State.AccessibilityMonotone` | IA/Events/EventSystem.cs:334-342 | Adding developers or granting ManagePermissions never lowers a tier |
| `Prefixes.LoadIdentifier` | IA/Events/EventSystem.cs:359-378 | Completes if and only if the guild is not cached, and otherwise throws a duplicate key. With a store, a missing row ("ERROR") writes and caches the default, logs the read and the write, and leaves the event table alone; a present row is cached and only the read is logged. Without a store, the default is cached and the store is untouched |
| `Prefixes.SetIdentifier` | IA/Events/EventSystem.cs:184-196 | The cache takes the new prefix and no other guild's cache entry changes. One UPDATE is logged. It changes the guild's row only if there is one, keeps every other guild's row, and leaves the event table and the configured flag alone |
| `Prefixes.GetIdentifier` | IA/Events/EventSystem.cs:379-389 | A cache hit makes no store request. A miss reads the store, gets "ERROR" without a row, and caches nothing |
| `Prefixes.LoadThenGet` | IA/Events/EventSystem.cs:359-389 | After a load the prefix is served from the cache. A missing row is written once with the default |
| `Prefixes.SetThenGet` | IA/Events/EventSystem.cs:184-196 | A set prefix is read back from the cache, and other guilds are unaffected |
| `Prefixes.ErrorPrefixOverwritten` | IA/Events/EventSystem.cs:363-367 | A stored prefix that reads "ERROR" is overwritten by the default |
| `EnabledState.WithSlot` | IA/Events/EventSystem.cs:440 | Replacing one event changes nothing else and keeps every order |
| `EnabledState.IsEnabled` | IA/Events/EventSystem.cs:427-445 | Without a store the answer is `defaultEnabled` and nothing changes. It throws only KeyNotFound, and then nothing changes. No order changes, and every event keeps its definition (only its `enabled` cache may differ) |
| `EnabledState.AfterLookup` | IA/Events/EventSystem.cs:427-445 | A lookup changes only the events' `enabled` caches and the store: the keys and their order stay, and every event keeps its definition (only its `enabled` cache may differ) |
| `EnabledState.IsEnabledCases` | IA/Events/EventSystem.cs:431-444 | A cache hit answers the command's cached flag, read by name, and throws when that is missing. A first lookup caches `defaultEnabled`, and then either inserts the default (no row) or answers the stored row |
| `EnabledState.LookupKeepsKeyed` | IA/Events/EventSystem.cs:440-443 | A lookup keeps every event under its lower-cased name |
| `EnabledState.CommandCacheHit` | IA/Events/EventSystem.cs:431-434 | For a command, a cache hit answers the cached flag exactly when the name is lower case, and throws otherwise |
| `EnabledState.StoredStateForgotten` | IA/Events/EventSystem.cs:436-444 | A command with a stored row answers the row once, then answers `defaultEnabled` from the cache |
| `EnabledState.FirstLookupPersistsDefault` | IA/Events/EventSystem.cs:436-442 | A first lookup without a row inserts and caches the default. The next lookup answers it with no request |
| `EnabledState.NonCommandSecondLookupThrows` | IA/Events/EventSystem.cs:431-433 | A non-command event succeeds on its first lookup and throws on the second |
| `EnabledState.IsEnabledDependsOn` | IA/Events/EventSystem.cs:427-445 | The answer depends only on the event, its command entry, and its stored row |
| `EnabledState.ProbeIndependent` | IA/Events/EventSystem.cs:248-250 | Looking up one command leaves another command's entry and answer unchanged |
| `Registry.EventContainer.GetEvent` | IA/Events/EventSystem.cs:165-168 | A category holding the id, and no category earlier in the search order (commands, mentions, command-done, join, leave, continuous) holds it. Null if and only if no category holds it. A command's id always resolves to commands |
| `EnabledState.SetEnabled` | IA/Events/EventSystem.cs:220-240 | An unknown event throws a null dereference. A locked event that is being disabled answers false and changes nothing. Otherwise the cache is set, the UPDATE is sent when there is a store, and the answer is true |
| `EnabledState.SetEnabledKeepsKeyed` | IA/Events/EventSystem.cs:220-240 | Setting a flag keeps every event under its lower-cased name |
| `EnabledState.SetThenLookup` | IA/Events/EventSystem.cs:220-240 | After a successful set, a lower-case command's lookup answers the new flag with no request. Without a store it answers `defaultEnabled` |
| `Dispatch.Resolve` | IA/Events/EventSystem.cs:397-413 | An exact command name wins over its aliases. An alias resolves only to a command, an alias to a missing command is dangling, and anything else is unknown |
| `Dispatch.CommandKey` | IA/Events/EventSystem.cs:395 | The key follows the prefix in the message, holds no space, and ends at a space or the end |
| `Dispatch.RunCommand` | IA/Events/EventSystem.cs:399-419 | The handler runs, and the answer is true, if and only if the lookup answers true, the gate is open and the tier suffices. It throws exactly when the lookup does. Only then is a call logged. The events and the store are those the lookup left, so every event keeps its definition (only its `enabled` cache may differ) |
| `Dispatch.CheckIdentifier` | IA/Events/EventSystem.cs:391-425 | Without the prefix the answer is false and nothing changes. True means a resolved, enabled, permitted command ran, logged once. For a resolved command the events and the store are those its lookup left, and every event keeps its definition (only its `enabled` cache may differ) |
| `Dispatch.CheckIdentifierRuns` | IA/Events/EventSystem.cs:397-424 | Conversely, a resolved command runs if and only if it is enabled and permitted, and by name only when `doRunCommand`. An unknown key answers false. A dangling alias throws |
| `Dispatch.Attempts` | IA/Events/EventSystem.cs:308-315 | At most one command runs, through the guild prefix or the override prefix, and every event keeps its definition (only its `enabled` cache may differ) |
| `Dispatch.OverrideTriedOnlyAfterGuildPrefix` | IA/Events/EventSystem.cs:308-315 | The override attempt is made only after the guild attempt answered false |
| `Dispatch.OnMessageRecieved` | IA/Events/EventSystem.cs:298-316 | Only the prefix cache, the event caches, the store and the handler log can change, and every event keeps its definition (only its `enabled` cache may differ) |
| `Dispatch.BotsAndIgnoredGuildsDoNothing` | IA/Events/EventSystem.cs:300 | A bot's message, or one from an ignored guild, changes nothing at all |
| `Dispatch.AtMostOneHandler` | IA/Events/EventSystem.cs:298-316 | A message runs at most one command, and none unless it starts with the guild prefix |
| `Dispatch.OverrideNeedsGuildPrefix` | IA/Events/EventSystem.cs:306 | The override prefix alone never runs a command |
| `Dispatch.PrefixedCommandRuns` | IA/Events/EventSystem.cs:298-308 | Without a store, a public default-enabled command typed after the cached prefix runs, and nothing else changes |
| `Dispatch.GuildPass` | IA/Events/EventSystem.cs:198-218 | A guild pass changes only caches, the store and the log, keeps every order, and every event keeps its definition (only its `enabled` cache may differ) |
| `Dispatch.GuildStep` | IA/Events/EventSystem.cs:202-205 | One event of a pass changes only caches, the store and the log, and every event keeps its definition (only its `enabled` cache may differ) |
| `Dispatch.GuildPassCalls` | IA/Events/EventSystem.cs:198-218 | A pass appends exactly the calls, in order, of events picked from the keys at increasing indices, each of the pass's category and for the guild. So there are no more calls than events, and each is for one of them |
| `Dispatch.GuildStepCalls` | IA/Events/EventSystem.cs:202-205 | An event's handler is called if and only if its lookup answers true, and then once. The step throws if and only if the lookup throws. The events and the store are those the lookup left |
| `Dispatch.Pick` | IA/Events/EventSystem.cs:200-205 | The keys a mask selects, in order: never more than the keys, and each one of them |
| `Dispatch.PickDistinct` | IA/Events/EventSystem.cs:200-205 | Selecting from distinct keys gives distinct keys |
| `Dispatch.GuildCallsNone` | IA/Events/EventSystem.cs:198-218 | A pass that stops before any call appends the calls of an empty selection |
| `Dispatch.GuildPassCallsOnce` | IA/Events/EventSystem.cs:198-218 | Over distinct keys, as in a category's registration order, a pass calls each event at most once |
| `Dispatch.GuildCallsDistinct` | IA/Events/EventSystem.cs:198-218 | The calls of a selection from distinct keys are pairwise distinct |
| `Dispatch.GuildPassWithoutStore` | IA/Events/EventSystem.cs:198-218 | Without a store, a pass runs exactly the events enabled by default, in registration order |
| `Dispatch.GuildPassStepWithoutStore` | IA/Events/EventSystem.cs:211-216 | Without a store, the first event runs exactly when it is enabled by default |
| `Dispatch.MentionCalls` | IA/Events/EventSystem.cs:326-332 | One call per mention event, in order |
| `Dispatch.CommandDoneCalls` | IA/Events/EventSystem.cs:318-324 | One call per command-done hook, in order, each with the executed command |
| `Dispatch.RunCommandKeepsKeyed` | IA/Events/EventSystem.cs:399-419 | Running a command keeps every event under its lower-cased name |
| `Dispatch.CheckIdentifierKeepsKeyed` | IA/Events/EventSystem.cs:391-425 | Checking a message for a command keeps every event under its lower-cased name |
| `Dispatch.AttemptsKeepsKeyed` | IA/Events/EventSystem.cs:304-315 | Both prefix attempts keep every event under its lower-cased name |
| `Dispatch.OnMessageKeepsKeyed` | IA/Events/EventSystem.cs:298-316 | Handling a message keeps every event under its lower-cased name |
| `Dispatch.GuildPassKeepsKeyed` | IA/Events/EventSystem.cs:198-218 | A guild pass keeps every event under its lower-cased name |
| `Dispatch.GuildEventsKeepKeyed` | IA/Events/EventSystem.cs:198-218 | `OnGuildJoin` and `OnGuildLeave` keep every event under its lower-cased name |
| `Listing.InitialGroups` | IA/Events/EventSystem.cs:244-245 | Grouping starts with one empty "Misc" group |
| `Listing.AddToGroup` | IA/Events/EventSystem.cs:252-266 | A command's name is appended to its module's group, or to "Misc". A new group goes last, and other groups are unchanged |
| `Listing.ProbeAll` | IA/Events/EventSystem.cs:248-250 | The lookups keep the command order, and give one answer per command when none throws |
| `Listing.ProbeAllFrame` | IA/Events/EventSystem.cs:248-250 | The lookups change only the events' `enabled` caches and the store: they keep every key and order, and every event keeps its definition (only its `enabled` cache may differ) |
| `Listing.DropEmptyMisc` | IA/Events/EventSystem.cs:270-273 | "Misc" is removed exactly when it received no command. Everything else stays, in order |
| `Listing.GroupCommands` | IA/Events/EventSystem.cs:248-268 | The grouping loop produces the grouping of the selected commands in order |
| `Listing.GroupStep` | IA/Events/EventSystem.cs:250-266 | One command is grouped if it is shown, then the rest are grouped |
| `Listing.RenderGroups` | IA/Events/EventSystem.cs:284-295 | The rendering loops produce the headings and names of every group in order |
| `Listing.ItemStep` | IA/Events/EventSystem.cs:288-291 | Appending one name and ", ", then the rest, renders the names from that one on |
| `Listing.RenderStep` | IA/Events/EventSystem.cs:285-294 | Rendering one group piece by piece, then the rest, renders the groups from that one on |
| `Listing.ListCommands` | IA/Events/EventSystem.cs:242-296 | Listing changes only caches and the store, keeps every order, and every event keeps its definition (only its `enabled` cache may differ) |
| `Listing.ProbeResults` | IA/Events/EventSystem.cs:250 | One answer per command when no lookup throws |
| `Listing.ProbeResultsMeaning` | IA/Events/EventSystem.cs:250 | The lookups succeed if and only if each command's lookup does. Each answer is true exactly when that lookup answers true |
| `Listing.GroupAll` | IA/Events/EventSystem.cs:248-268 | Grouping keeps "Misc" first and the dictionary well formed |
| `Listing.GroupAllGroups` | IA/Events/EventSystem.cs:254-256 | The groups are the initial ones plus one per module used |
| `Listing.GroupAllOrder` | IA/Events/EventSystem.cs:254-256 | Grouping never reorders existing groups; new groups follow |
| `Listing.GroupAllNames` | IA/Events/EventSystem.cs:260-265 | Each group holds the names of its commands, in registration order |
| `Listing.ProbeAllAnswers` | IA/Events/EventSystem.cs:248-250 | The answers of the sequential lookups are those each lookup gives on the starting state |
| `Listing.ProbeStep` | IA/Events/EventSystem.cs:248-250 | One lookup does not change what the later commands' lookups answer |
| `Listing.ProbeResultsFrame` | IA/Events/EventSystem.cs:250 | The results depend only on the individual lookups |
| `Listing.SelectMembers` | IA/Events/EventSystem.cs:250 | A command is selected if and only if its lookup answered true and the user's tier reaches its accessibility |
| `Listing.ProbeAllStep` | IA/Events/EventSystem.cs:248-250 | The lookups are the first lookup, then the rest on the state it left, stopping at a throw |
| `Listing.ProbeLoopStep` | IA/Events/EventSystem.cs:248-250 | One turn of the listing loop: the next lookup and then the rest on the world it left, or the lookup's fault |
| `Listing.ListCommandsOutput` | IA/Events/EventSystem.cs:242-296 | A failed lookup makes the listing throw the same fault. Otherwise the output is the rendering of the grouped selection, with an empty "Misc" dropped |
| `Listing.ListCommandsThrows` | IA/Events/EventSystem.cs:248-250 | The listing throws if and only if some command's lookup throws |
| `Listing.ListedExactly` | IA/Events/EventSystem.cs:250 | A command is listed if and only if it is enabled in the channel and permitted to the user |
| `Listing.ListingGroups` | IA/Events/EventSystem.cs:244-273 | The listed groups are exactly those used, each with its commands' names in order. "Misc" appears exactly when a listed command has no module or has a module named "Misc" |
| `Listing.ListedUnderItsGroup` | IA/Events/EventSystem.cs:252-265 | Every listed command appears in the section of its module, or of "Misc" when it has no module |
| `Listing.NamesInHas` | IA/Events/EventSystem.cs:260-265 | A command's name is among the names of its own group |
| `Listing.NamesInEmpty` | IA/Events/EventSystem.cs:270 | A group receives no names if and only if no command goes to it |
| `Listing.TrailingSeparatorKept` | IA/Events/EventSystem.cs:290-292 | Every name is followed by ", ", including the last, because `Remove` is discarded |
| `Listing.SectionShape` | IA/Events/EventSystem.cs:287-293 | A section is the bold heading, the names with their separators, and a blank line |
| `Listing.CommandsUsed` | IA/Events/EventSystem.cs:344-352 | The counters of all commands, summed with 32-bit wrap-around |
| `Listing.UsedTotalIsWrappedSum` | IA/Events/EventSystem.cs:346-351 | Wrapping at every step gives the exact sum wrapped once |
| `Listing.CommandsUsedOf` | IA/Events/EventSystem.cs:354-357 | An unknown name throws a null dereference, and a command's counter is read by name |
| `Listing.UsedSumSnoc` | IA/Events/EventSystem.cs:346-351 | The sum over the enumeration order splits before the last key |
| `Listing.UsedSumFrame` | IA/Events/EventSystem.cs:346-351 | The sum reads only the counters of the keys it is given |
| `Listing.RegisterKeepsCommandsUsed` | IA/Events/EventSystem.cs:344-352 | Registering an event with a zero counter (as `NewEvent` makes it) leaves `CommandsUsed()` unchanged, whether or not registration completes and whatever the category |
| `Listing.ProbeAllKeepsKeyed` | IA/Events/EventSystem.cs:248-250 | The listing's lookups keep every event under its lower-cased name |
| `Listing.ListCommandsKeepsKeyed` | IA/Events/EventSystem.cs:242-296 | Listing keeps every event under its lower-cased name |
| `Dispatcher.EventSystem.constructor` | IA/Events/EventSystem.cs:37-53 | No events, aliases or prefixes are cached. The override prefix is the lower-cased bot name followed by "." |
| `Dispatcher.EventSystem.AddEvent` | IA/Events/EventSystem.cs:60-158 | The status and new registry are those of `Registry.Register` |
| `Dispatcher.EventSystem.GetCommandEvent` | IA/Events/EventSystem.cs:175-182 | The command under exactly that key, or null |
| `Dispatcher.EventSystem.GetEvent` | IA/Events/EventSystem.cs:165-168 | The event in the first category holding the key, or null when none does |
| `Dispatcher.EventSystem.LoadIdentifier` | IA/Events/EventSystem.cs:359-378 | The state after `Prefixes.LoadIdentifier` |
| `Dispatcher.EventSystem.SetIdentifier` | IA/Events/EventSystem.cs:184-196 | The state after `Prefixes.SetIdentifier` |
| `Dispatcher.EventSystem.GetIdentifier` | IA/Events/EventSystem.cs:379-389 | The answer and state of `Prefixes.GetIdentifier` |
| `Dispatcher.EventSystem.IsEnabled` | IA/Events/EventSystem.cs:427-445 | The answer and state of `EnabledState.IsEnabled` |
| `Dispatcher.EventSystem.FirstLookup` | IA/Events/EventSystem.cs:436-444 | The answer and state of `EnabledState.IsEnabled` on a first lookup with a store |
| `Dispatcher.EventSystem.SetEnabled` | IA/Events/EventSystem.cs:220-240 | The answer and state of `EnabledState.SetEnabled` |
| `Dispatcher.EventSystem.RunCommand` | IA/Events/EventSystem.cs:399-419 | The answer and state of `Dispatch.RunCommand` |
| `Dispatcher.EventSystem.CheckIdentifier` | IA/Events/EventSystem.cs:391-425 | The answer and state of `Dispatch.CheckIdentifier` |
| `Dispatcher.EventSystem.OnMessageRecieved` | IA/Events/EventSystem.cs:298-316 | The state after `Dispatch.OnMessageRecieved` |
| `Dispatcher.EventSystem.GuildStep` | IA/Events/EventSystem.cs:202-205 | The state after `Dispatch.GuildStep` |
| `Dispatcher.EventSystem.RunGuildEvents` | IA/Events/EventSystem.cs:198-218 | The loop gives the state after `Dispatch.GuildPass` over the category's events |
| `Dispatcher.EventSystem.OnGuildJoin` | IA/Events/EventSystem.cs:209-218 | The state after a pass over the join events |
| `Dispatcher.EventSystem.OnGuildLeave` | IA/Events/EventSystem.cs:198-207 | The state after a pass over the leave events |
| `Dispatcher.EventSystem.OnMention` | IA/Events/EventSystem.cs:326-332 | Only the calls of `Dispatch.MentionCalls` are appended |
| `Dispatcher.EventSystem.OnCommandDone` | IA/Events/EventSystem.cs:318-324 | Only the calls of `Dispatch.CommandDoneCalls` are appended |
| `Dispatcher.EventSystem.ProbeCommands` | IA/Events/EventSystem.cs:248-250 | The loop gives the answers and state of `Listing.ProbeAll` |
| `Dispatcher.EventSystem.ListCommands` | IA/Events/EventSystem.cs:242-296 | The output and state of `Listing.ListCommands` |
| `Dispatcher.EventSystem.CommandsUsed` | IA/Events/EventSystem.cs:344-352 | The loop's wrapped total is `Listing.CommandsUsed` |
| `Dispatcher.EventSystem.CommandsUsedOf` | IA/Events/EventSystem.cs:354-357 | The counter or fault of `Listing.CommandsUsedOf` |

## Left out

- The MySQL driver and the SQL text. The database is two tables and a request log. The bodies of `sql.IsEventEnabled`, `sql.GetIdentifier`, `sql.SetIdentifier` and `MySQL.Query` are not part of this model; they are given their evident meaning.
- `MySQL.TryCreateTable` (lines 49, 74-157): it creates tables only and does not change the modelled state.
- `IA/Database/SQLInformation.cs` and `IA/SDK/RuntimeAddonInstance.cs` are not part of this model.
- The singleton guard and its `Log.Warning` (lines 39-43): the static `bot` field and logging are process-wide state outside the class.
- `async`/`await` and `Task.Run`: each call is modelled as running to completion before the next statement, so concurrent handlers are not modelled.
- Discord types: a message is reduced to the fields the dispatcher reads. The ManagePermissions test is a boolean of the message.
- Handlers: `Check` and `processEvent` are not part of this model. Each call is recorded in the `invoked` log.
- `OnPrivateMessage` (lines 55-58): it only completes a task.
- The configurator `Action<…>` of each `Add*Event`: `AddEvent` takes the event the configurator produced.
- The `eventSystem` back-reference (line 64 and its copies): it is never read by the modelled code.
- The `Module(Action<ModuleInformation>)` constructor (`IA/Events/Module.cs:19-22`): it passes a null `defaultInfo` to the configurator, whose code is not part of this model.
- The unused `enabled` dictionary of `IA/Events/Module.cs:11`: nothing reads it.
- The `enabled` cache and the `CommandUsed` counter of an event come from event subclasses that are not part of this model. They are fields of `Events.Event`. Nothing in the modelled code increments the counter.
- `Base.Lower`: lower-cases ASCII letters only; culture-specific and non-ASCII case mapping is not modelled.
- `Base.StartsWith`: ordinal comparison; culture-sensitive `StartsWith` is not modelled.
- `Registry.Dict.Insert`: assumes `Dictionary` enumeration follows insertion order, which holds while no key is removed. The dictionaries modelled here only grow, except the grouping dictionary, which loses "Misc" only as its first key.
- `Registry.EventContainer.GetEvent`: `EventContainer` (the type of `events`) is not part of this model. `GetEvent` is taken to search the categories in the order commands, mentions, command-done, join, leave, continuous, to return the first event stored under the id, and to return null when there is none. Its contract states that order, but nothing in the modelled code fixes it.
- Null fields: a null name, aliases array or usage array throws `NullReferenceException`, and a null alias throws `ArgumentNullException` at `aliases.Add` (line 90). Events are assumed to carry non-null fields.
- Exceptions thrown by handlers (`Check`, `processEvent`) and failures of the database driver are not modelled. A handler call is only logged, and a store request always answers.
- `Listing.ProbeAllAnswers`: needs distinct command keys, which the dictionary guarantees.
- `Dispatch.OnMessageRecieved`: its own contract states only what may change and that every event keeps its definition. Which handler runs is stated by `Dispatch.AtMostOneHandler`, `Dispatch.OverrideNeedsGuildPrefix` and `Dispatch.PrefixedCommandRuns`.
