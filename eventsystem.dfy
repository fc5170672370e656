/**
 * The `EventSystem` class of IA/Events/EventSystem.cs, with its fields
 * updated in place. Each method does what the C# method does, step by
 * step, and promises that its result and the new state are what the
 * specification function of the same name computes from the old state;
 * the properties of the dispatcher are lemmas about those functions.
 */
module Dispatcher {
  import opened Base
  import opened Events
  import opened Registry
  import opened Store
  import opened State
  import Prefixes
  import EnabledState
  import Dispatch
  import Listing

  class EventSystem {
    var developers: seq<ulong>
    var ignore: seq<ulong>
    var identifier: map<ulong, string>
    var aliases: map<string, string>
    var events: EventContainer
    /** The MySQL database, or none when the bot has no `SqlInformation`. */
    var store: Store
    /** The handler calls made so far, in order. */
    var invoked: seq<Invocation>
    const defaultIdentifier: string
    const overrideIdentifier: string

    /** Every field at once. */
    ghost function W(): World
      reads this
    {
      World(developers, ignore, identifier, aliases, events, store, invoked, defaultIdentifier, overrideIdentifier)
    }

    /** The state is well formed and every event is stored under its lower-cased name. */
    ghost predicate Valid()
      reads this
    {
      State.Valid(W()) && events.Keyed()
    }

    /**
     * `EventSystem(botInfo)` given what the configurator sets: the bot's
     * name, its default prefix and its database. The override prefix is the
     * lower-cased name followed by a dot.
     */
    constructor (botName: string, botIdentifier: string, database: Store)
      requires Consistent(database)
      ensures Valid()
      ensures W() == World([], [], map[], map[], EmptyContainer(), database, [], botIdentifier, Lower(botName) + ".")
    {
      developers := [];
      ignore := [];
      identifier := map[];
      aliases := map[];
      events := EmptyContainer();
      store := database;
      invoked := [];
      defaultIdentifier := botIdentifier;
      overrideIdentifier := Lower(botName) + ".";
    }

    /**
     * `Add{Command,Mention,CommandDone,Join,Leave,Continuous}Event` given the
     * configured event: the usage sentinel of a command is replaced, each
     * alias is added to the alias table in turn, then the event is added
     * under its lower-cased name. An exception leaves what was added before it.
     */
    method AddEvent(cat: Category, ev: Event) returns (status: Status)
      requires Valid()
      modifies this
      ensures Valid()
      ensures var reg := Register(old(aliases), old(events), cat, ev);
        status == reg.status && W() == old(W()).(aliases := reg.aliases, events := reg.events)
    {
      ghost var reg := Register(aliases, events, cat, ev);
      RegisterKeepsKeyed(aliases, events, cat, ev);
      var prepared := if cat == Commands then PrepareCommand(ev) else Ok(ev);
      if prepared.Throws? {
        return Threw(prepared.fault);
      }
      var e := prepared.value;
      var key := Lower(e.name);
      if cat != Continuous {
        ghost var start := aliases;
        var i := 0;
        while i < |e.aliases|
          invariant 0 <= i <= |e.aliases|
          invariant InsertAliases(start, e.aliases, key) == InsertAliases(aliases, e.aliases[i..], key)
          invariant W() == old(W()).(aliases := aliases)
        {
          assert e.aliases[i..][0] == e.aliases[i] && e.aliases[i..][1..] == e.aliases[i + 1..];
          if e.aliases[i] in aliases {
            return Threw(DuplicateKey);
          }
          aliases := aliases[e.aliases[i] := key];
          i := i + 1;
        }
        assert e.aliases[i..] == [];
      }
      if key in events.Get(cat).entries {
        return Threw(DuplicateKey);
      }
      events := events.Put(cat, events.Get(cat).Insert(key, e));
      return Completed;
    }

    /** `GetCommandEvent(id)`: the command stored under exactly `id`, or null. */
    method GetCommandEvent(id: string) returns (r: Option<Event>)
      requires Valid()
      ensures r.Some? <==> id in events.commands.entries
      ensures r.Some? ==> r.value == events.commands.entries[id]
    {
      if id in events.commands.entries {
        return Some(events.commands.entries[id]);
      }
      return None;
    }

    /** `GetEvent(id)`: the event under `id` in the first category holding it, or null. */
    method GetEvent(id: string) returns (r: Option<Event>)
      requires Valid()
      ensures r.None? <==> forall c: Category :: id !in events.Get(c).entries
      ensures r.Some? ==> var cat := events.GetEvent(id).value; r.value == events.Get(cat).entries[id]
      ensures id in events.commands.entries ==> r == Some(events.commands.entries[id])
    {
      match events.GetEvent(id)
      case None => return None;
      case Some(cat) => return Some(events.Get(cat).entries[id]);
    }

    /** `LoadIdentifier(server)`. */
    method LoadIdentifier(server: ulong) returns (status: Status)
      requires Valid()
      modifies this
      ensures Valid()
      ensures (status, W()) == Prefixes.LoadIdentifier(old(W()), server)
    {
      var prefix := defaultIdentifier;
      if store.configured {
        var read := ReadPrefixRow(store, server);
        store := read.1;
        if read.0 == PrefixMissing {
          store := WritePrefixRow(store, server, defaultIdentifier);
        } else {
          prefix := read.0;
        }
      }
      if server in identifier {
        return Threw(DuplicateKey);
      }
      identifier := identifier[server := prefix];
      return Completed;
    }

    /** `SetIdentifierAsync(guild, prefix)`. */
    method SetIdentifier(guild: ulong, prefix: string)
      requires Valid()
      modifies this
      ensures Valid()
      ensures W() == Prefixes.SetIdentifier(old(W()), guild, prefix)
    {
      if guild in identifier {
        identifier := identifier[guild := prefix];
      } else {
        identifier := identifier[guild := prefix];
      }
      store := UpdatePrefixRow(store, guild, prefix);
    }

    /** `GetIdentifier(server_id)`. */
    method GetIdentifier(server: ulong) returns (prefix: string)
      requires Valid()
      modifies this
      ensures Valid()
      ensures (prefix, W()) == Prefixes.GetIdentifier(old(W()), server)
    {
      if server in identifier {
        return identifier[server];
      }
      var read := ReadPrefixRow(store, server);
      store := read.1;
      return read.0;
    }

    /** `IsEnabled(e, id)` for the event stored under (`cat`, `key`). */
    method IsEnabled(cat: Category, key: string, id: ulong) returns (r: Try<bool>)
      requires Valid() && key in events.Get(cat).entries
      modifies this
      ensures Valid()
      ensures (r, W()) == EnabledState.IsEnabled(old(W()), cat, key, id)
    {
      var e := events.Get(cat).entries[key];
      if !store.configured {
        return Ok(e.defaultEnabled);
      }
      if id in e.enabled {
        var cmds := events.commands.entries;
        if e.name in cmds && id in cmds[e.name].enabled {
          return Ok(cmds[e.name].enabled[id]);
        }
        return Throws(KeyNotFound);
      }
      r := FirstLookup(cat, key, id);
    }

    /** The first lookup of an event in a channel: read the row, insert the default when it is missing, cache it. */
    method FirstLookup(cat: Category, key: string, id: ulong) returns (r: Try<bool>)
      requires Valid() && key in events.Get(cat).entries
      requires store.configured && id !in events.Get(cat).entries[key].enabled
      modifies this
      ensures Valid()
      ensures (r, W()) == EnabledState.IsEnabled(old(W()), cat, key, id)
    {
      ghost var before := W();
      EnabledState.LookupKeepsKeyed(before, cat, key, id);
      var e := events.Get(cat).entries[key];
      var read := ReadEnabled(store, e.name, id);
      store := read.1;
      if read.0 == -1 {
        store := InsertEnabled(store, e.name, id, e.defaultEnabled);
      }
      events := events.Put(cat, events.Get(cat).Set(key, e.(enabled := e.enabled[id := e.defaultEnabled])));
      assert W() == EnabledState.AfterLookup(before, cat, key, id);
      if read.0 == -1 {
        return Ok(e.defaultEnabled);
      }
      return Ok(read.0 == 1);
    }

    /** `SetEnabled(eventName, channelId, enabled)`. */
    method SetEnabled(eventName: string, channelId: ulong, enabled: bool) returns (r: Try<bool>)
      requires Valid()
      modifies this
      ensures Valid()
      ensures (r, W()) == EnabledState.SetEnabled(old(W()), eventName, channelId, enabled)
    {
      EnabledState.SetEnabledKeepsKeyed(W(), eventName, channelId, enabled);
      match events.GetEvent(eventName)
      case None =>
        return Throws(NullReference);
      case Some(cat) =>
        var e := events.Get(cat).entries[eventName];
        if !e.canBeDisabled && !enabled {
          return Ok(false);
        }
        if store.configured {
          store := UpdateEnabled(store, e.name, channelId, enabled);
        }
        SetKeepsValid(events, cat, eventName, e.(enabled := e.enabled[channelId := enabled]));
        events := events.Put(cat, events.Get(cat).Set(eventName, e.(enabled := e.enabled[channelId := enabled])));
        return Ok(true);
    }

    /** Lines 399-407 and 413-419: the lookup, the gate and the tier test, then the handler. */
    method RunCommand(key: string, prefix: string, e: Message, gate: bool) returns (r: Try<bool>)
      requires Valid() && key in events.commands.entries
      modifies this
      ensures Valid()
      ensures (r, W()) == Dispatch.RunCommand(old(W()), key, prefix, e, gate)
    {
      var tier := events.commands.entries[key].accessibility;
      assert events.Get(Commands) == events.commands;
      r := IsEnabled(Commands, key, e.channelId);
      if r.Throws? {
        return;
      }
      if r.value && gate && AtLeast(GetUserAccessibility(developers, e), tier) {
        invoked := invoked + [RanCommand(key, prefix, e)];
        return Ok(true);
      }
      return Ok(false);
    }

    /** `CheckIdentifier(message, identifier, e, doRunCommand)`. */
    method CheckIdentifier(message: string, prefix: string, e: Message, doRun: bool) returns (r: Try<bool>)
      requires Valid()
      modifies this
      ensures Valid()
      ensures (r, W()) == Dispatch.CheckIdentifier(old(W()), message, prefix, e, doRun)
    {
      if !StartsWith(message, prefix) {
        return Ok(false);
      }
      var command := Dispatch.CommandKey(message, prefix);
      if command in events.commands.entries {
        r := RunCommand(command, prefix, e, doRun);
      } else if command in aliases {
        if aliases[command] !in events.commands.entries {
          return Throws(KeyNotFound);
        }
        r := RunCommand(aliases[command], prefix, e, true);
      } else {
        r := Ok(false);
      }
    }

    /** `OnMessageRecieved(e, g)`. */
    method OnMessageRecieved(e: Message) returns (status: Status)
      requires Valid()
      modifies this
      ensures Valid()
      ensures (status, W()) == Dispatch.OnMessageRecieved(old(W()), e)
    {
      if e.authorIsBot || e.guildId in ignore {
        return Completed;
      }
      if e.guildId !in identifier {
        var _ := LoadIdentifier(e.guildId);
      }
      var message := Lower(e.content);
      var prefix := identifier[e.guildId];
      if !StartsWith(message, prefix) {
        return Completed;
      }
      var first := CheckIdentifier(message, prefix, e, true);
      if first.Throws? {
        return Threw(first.fault);
      }
      if first.value {
        return Completed;
      }
      var second := CheckIdentifier(message, overrideIdentifier, e, true);
      if second.Throws? {
        return Threw(second.fault);
      }
      return Completed;
    }

    /** One event of `OnGuildJoin` or `OnGuildLeave`. */
    method GuildStep(cat: Category, key: string, guild: ulong) returns (status: Status)
      requires Valid() && key in events.Get(cat).entries
      modifies this
      ensures Valid()
      ensures (status, W()) == Dispatch.GuildStep(old(W()), cat, key, guild)
    {
      var enabled := IsEnabled(cat, key, guild);
      if enabled.Throws? {
        return Threw(enabled.fault);
      }
      if enabled.value {
        invoked := invoked + [RanGuildEvent(cat, key, guild)];
      }
      return Completed;
    }

    /** The loop of `OnGuildJoin` and `OnGuildLeave` over the events of `cat`. */
    method RunGuildEvents(cat: Category, guild: ulong) returns (status: Status)
      requires Valid()
      modifies this
      ensures Valid()
      ensures (status, W()) == Dispatch.GuildPass(old(W()), cat, old(events.Get(cat).keys), guild)
    {
      var keys := events.Get(cat).keys;
      var i := 0;
      while i < |keys|
        invariant 0 <= i <= |keys|
        invariant Valid() && events.Get(cat).keys == keys
        invariant Dispatch.GuildPass(old(W()), cat, keys, guild) == Dispatch.GuildPass(W(), cat, keys[i..], guild)
      {
        assert keys[i..][0] == keys[i] && keys[i..][1..] == keys[i + 1..];
        status := GuildStep(cat, keys[i], guild);
        if status.Threw? {
          return;
        }
        i := i + 1;
      }
      assert keys[i..] == [];
      return Completed;
    }

    /** `OnGuildJoin(g)`. */
    method OnGuildJoin(guild: ulong) returns (status: Status)
      requires Valid()
      modifies this
      ensures Valid()
      ensures (status, W()) == Dispatch.OnGuildJoin(old(W()), guild)
    {
      status := RunGuildEvents(Join, guild);
    }

    /** `OnGuildLeave(g)`. */
    method OnGuildLeave(guild: ulong) returns (status: Status)
      requires Valid()
      modifies this
      ensures Valid()
      ensures (status, W()) == Dispatch.OnGuildLeave(old(W()), guild)
    {
      status := RunGuildEvents(Leave, guild);
    }

    /** `OnMention(e, g)`: every mention event is called, with no enabled or tier test. */
    method OnMention(e: Message)
      requires Valid()
      modifies this
      ensures Valid()
      ensures W() == old(W()).(invoked := old(invoked) + Dispatch.MentionCalls(old(events.mentions.keys), e))
    {
      var keys := events.mentions.keys;
      var i := 0;
      while i < |keys|
        invariant 0 <= i <= |keys|
        invariant W() == old(W()).(invoked := old(invoked) + Dispatch.MentionCalls(keys[..i], e))
      {
        assert keys[..i + 1] == keys[..i] + [keys[i]];
        invoked := invoked + [RanMention(keys[i], e)];
        i := i + 1;
      }
      assert keys[..i] == keys;
    }

    /** `OnCommandDone(e, commandEvent)`: every command-done hook is called with the command. */
    method OnCommandDone(e: Message, command: Event)
      requires Valid()
      modifies this
      ensures Valid()
      ensures W() == old(W()).(invoked := old(invoked) + Dispatch.CommandDoneCalls(old(events.commandDone.keys), e, command))
    {
      var keys := events.commandDone.keys;
      var i := 0;
      while i < |keys|
        invariant 0 <= i <= |keys|
        invariant W() == old(W()).(invoked := old(invoked) + Dispatch.CommandDoneCalls(keys[..i], e, command))
      {
        assert keys[..i + 1] == keys[..i] + [keys[i]];
        invoked := invoked + [RanCommandDone(keys[i], e, command)];
        i := i + 1;
      }
      assert keys[..i] == keys;
    }

    /** The lookups of `ListCommands`: every command of `keys`, in order, until one throws. */
    method ProbeCommands(keys: seq<string>, id: ulong) returns (r: Try<seq<bool>>)
      requires Valid() && forall k :: k in keys ==> k in events.commands.entries
      modifies this
      ensures Valid()
      ensures (r, W()) == Listing.ProbeAll(old(W()), keys, id)
    {
      ghost var probed := Listing.ProbeAll(W(), keys, id);
      var answers: seq<bool> := [];
      var i := 0;
      while i < |keys|
        invariant 0 <= i <= |keys| && |answers| == i
        invariant Valid() && forall k :: k in keys ==> k in events.commands.entries
        invariant probed == Listing.Prepend(answers, Listing.ProbeAll(W(), keys[i..], id))
      {
        Listing.ProbeLoopStep(W(), keys, i, answers, id);
        var enabled := IsEnabled(Commands, keys[i], id);
        if enabled.Throws? {
          return Throws(enabled.fault);
        }
        answers := answers + [enabled.value];
        i := i + 1;
      }
      assert keys[i..] == [] && answers + [] == answers;
      return Ok(answers);
    }

    /**
     * `ListCommands(e)`: the commands are looked up in order, and the names
     * of those enabled and permitted go to their groups, which are then
     * rendered.
     */
    method ListCommands(e: Message) returns (r: Try<string>)
      requires Valid()
      modifies this
      ensures Valid()
      ensures (r, W()) == Listing.ListCommands(old(W()), e)
    {
      var d := events.commands;
      var tier := GetUserAccessibility(developers, e);
      var answers := ProbeCommands(d.keys, e.channelId);
      if answers.Throws? {
        return Throws(answers.fault);
      }
      var g := Listing.GroupCommands(d, d.keys, answers.value, tier);
      var shown := Listing.DropEmptyMisc(g);
      var output := Listing.RenderGroups(shown);
      return Ok(output);
    }

    /** `CommandsUsed()`: the usage counters of every command, summed in C# `int`. */
    method CommandsUsed() returns (total: int32)
      requires Valid()
      ensures total == Listing.CommandsUsed(W())
    {
      var d := events.commands;
      assert events.Get(Commands) == d;
      total := 0;
      var i := 0;
      while i < |d.keys|
        invariant 0 <= i <= |d.keys|
        invariant Listing.UsedTotal(d, d.keys, 0) == Listing.UsedTotal(d, d.keys[i..], total)
      {
        assert d.keys[i..][0] == d.keys[i] && d.keys[i..][1..] == d.keys[i + 1..];
        total := Wrap32(total + d.entries[d.keys[i]].commandUsed);
        i := i + 1;
      }
      assert d.keys[i..] == [];
      Listing.UsedTotalIsWrappedSum(d, d.keys, 0);
    }

    /** `CommandsUsed(eventName)`. */
    method CommandsUsedOf(eventName: string) returns (r: Try<int32>)
      requires Valid()
      ensures r == Listing.CommandsUsedOf(W(), eventName)
    {
      var ev := GetEvent(eventName);
      if ev.None? {
        return Throws(NullReference);
      }
      return Ok(ev.value.commandUsed);
    }
  }
}
