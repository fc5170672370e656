/**
 * The message dispatcher of IA/Events/EventSystem.cs: `CheckIdentifier`,
 * `OnMessageRecieved`, and the hook passes `OnGuildJoin`, `OnGuildLeave`,
 * `OnMention` and `OnCommandDone`.
 */
module Dispatch {
  import opened Base
  import opened Events
  import opened Registry
  import opened State
  import opened Prefixes
  import opened EnabledState

  /** How a command key is resolved: an exact command name wins over the alias table. */
  datatype Resolution =
    | ByName(key: string)
    | ByAlias(key: string)
    | DanglingAlias        // the alias points at no command: line 413 throws
    | Unknown

  function Resolve(w: World, command: string): (r: Resolution)
    ensures command in w.events.commands.entries ==> r == ByName(command)
    ensures r.ByName? ==> r.key == command
    ensures r.ByAlias? <==>
      command !in w.events.commands.entries && command in w.aliases && w.aliases[command] in w.events.commands.entries
    ensures r.ByAlias? ==> r.key == w.aliases[command]
    ensures r == DanglingAlias <==>
      command !in w.events.commands.entries && command in w.aliases && w.aliases[command] !in w.events.commands.entries
    ensures r == Unknown <==> command !in w.events.commands.entries && command !in w.aliases
  {
    if command in w.events.commands.entries then ByName(command)
    else if command in w.aliases then
      if w.aliases[command] in w.events.commands.entries then ByAlias(w.aliases[command]) else DanglingAlias
    else Unknown
  }

  /** `message.Substring(identifier.Length).Split(' ')[0]`. */
  function CommandKey(message: string, prefix: string): (command: string)
    requires StartsWith(message, prefix)
    ensures StartsWith(message, prefix + command)
    ensures forall i :: 0 <= i < |command| ==> command[i] != ' '
    ensures |prefix + command| < |message| ==> message[|prefix + command|] == ' '
  {
    var rest := message[|prefix|..];
    var command := FirstToken(rest);
    assert message[..|prefix + command|] == message[..|prefix|] + rest[..|command|];
    command
  }

  /** `e` may run the command stored under `key`. */
  predicate MayRun(w: World, key: string, e: Message)
    requires key in w.events.commands.entries
  {
    AtLeast(GetUserAccessibility(w.developers, e), w.events.commands.entries[key].accessibility)
  }

  /**
   * Lines 399-407 and 413-419: look the command up in the enabled cache
   * and, when it is enabled, `gate` holds and the author's tier is high
   * enough, run its handler once.
   */
  function RunCommand(w: World, key: string, prefix: string, e: Message, gate: bool): (r: (Try<bool>, World))
    requires Valid(w) && key in w.events.commands.entries
    ensures Valid(r.1)
    ensures r.1 == w.(events := r.1.events, store := r.1.store, invoked := r.1.invoked)
    ensures r.0 == Ok(true) <==>
      IsEnabled(w, Commands, key, e.channelId).0 == Ok(true) && gate && MayRun(w, key, e)
    ensures r.0 == Ok(true) ==> r.1.invoked == w.invoked + [RanCommand(key, prefix, e)]
    ensures r.0 != Ok(true) ==> r.1.invoked == w.invoked
    ensures r.0.Throws? <==> IsEnabled(w, Commands, key, e.channelId).0.Throws?
    ensures var probe := IsEnabled(w, Commands, key, e.channelId).1;
      r.1.events == probe.events && r.1.store == probe.store
    ensures SameDefinitions(w.events, r.1.events)
  {
    var probe := IsEnabled(w, Commands, key, e.channelId);
    if probe.0.Throws? then probe
    else if probe.0.value && gate && MayRun(w, key, e) then
      (Ok(true), probe.1.(invoked := probe.1.invoked + [RanCommand(key, prefix, e)]))
    else (Ok(false), probe.1)
  }

  /**
   * `CheckIdentifier(message, identifier, e, doRunCommand)`. Nothing happens
   * unless the message starts with the prefix; the key is the first token
   * after it; an exact name is tried before the alias table, and
   * `doRunCommand` gates only the exact-name branch.
   */
  function CheckIdentifier(w: World, message: string, prefix: string, e: Message, doRun: bool): (r: (Try<bool>, World))
    requires Valid(w)
    ensures Valid(r.1)
    ensures r.1 == w.(events := r.1.events, store := r.1.store, invoked := r.1.invoked)
    ensures !StartsWith(message, prefix) ==> r == (Ok(false), w)
    ensures r.0 != Ok(true) ==> r.1.invoked == w.invoked
    ensures r.0 == Ok(true) ==>
      && StartsWith(message, prefix)
      && var res := Resolve(w, CommandKey(message, prefix));
         && (res.ByName? || res.ByAlias?)
         && MayRun(w, res.key, e)
         && IsEnabled(w, Commands, res.key, e.channelId).0 == Ok(true)
         && r.1.invoked == w.invoked + [RanCommand(res.key, prefix, e)]
    ensures StartsWith(message, prefix) ==>
      var res := Resolve(w, CommandKey(message, prefix));
      (res.ByName? || res.ByAlias?) ==>
        var probe := IsEnabled(w, Commands, res.key, e.channelId).1;
        r.1.events == probe.events && r.1.store == probe.store
    ensures SameDefinitions(w.events, r.1.events)
  {
    if !StartsWith(message, prefix) then (Ok(false), w)
    else
      match Resolve(w, CommandKey(message, prefix))
      case Unknown => (Ok(false), w)
      case DanglingAlias => (Throws(KeyNotFound), w)
      case ByName(key) => RunCommand(w, key, prefix, e, doRun)
      case ByAlias(key) => RunCommand(w, key, prefix, e, true)
  }

  /** The converse: every command that resolves, is enabled and is permitted runs. */
  lemma CheckIdentifierRuns(w: World, message: string, prefix: string, e: Message, doRun: bool)
    requires Valid(w) && StartsWith(message, prefix)
    ensures var res := Resolve(w, CommandKey(message, prefix));
      (res.ByName? || res.ByAlias?) ==>
        (CheckIdentifier(w, message, prefix, e, doRun).0 == Ok(true) <==>
          && IsEnabled(w, Commands, res.key, e.channelId).0 == Ok(true)
          && MayRun(w, res.key, e)
          && (res.ByName? ==> doRun))
    ensures Resolve(w, CommandKey(message, prefix)) == Unknown ==>
      CheckIdentifier(w, message, prefix, e, doRun) == (Ok(false), w)
    ensures Resolve(w, CommandKey(message, prefix)) == DanglingAlias ==>
      CheckIdentifier(w, message, prefix, e, doRun) == (Throws(KeyNotFound), w)
  {
  }

  /** `after` is `before`, or `before` plus one command run for `e` through `p1` or `p2`. */
  predicate AtMostOneCommand(before: seq<Invocation>, after: seq<Invocation>, e: Message, p1: string, p2: string) {
    || after == before
    || (&& |after| == |before| + 1
        && after == before + [after[|before|]]
        && after[|before|].RanCommand?
        && after[|before|].message == e
        && (after[|before|].prefix == p1 || after[|before|].prefix == p2))
  }

  /**
   * Lines 308-315: the guild prefix attempt, then the override prefix attempt
   * only when the first returned false.
   */
  function Attempts(w: World, message: string, prefix: string, e: Message): (r: (Status, World))
    requires Valid(w)
    ensures Valid(r.1)
    ensures r.1 == w.(events := r.1.events, store := r.1.store, invoked := r.1.invoked)
    ensures AtMostOneCommand(w.invoked, r.1.invoked, e, prefix, w.overrideIdentifier)
    ensures SameDefinitions(w.events, r.1.events)
  {
    var first := CheckIdentifier(w, message, prefix, e, true);
    if first.0.Throws? then (Threw(first.0.fault), first.1)
    else if first.0.value then (Completed, first.1)
    else
      SameDefinitionsTrans(w.events, first.1.events, CheckIdentifier(first.1, message, w.overrideIdentifier, e, true).1.events);
      var second := CheckIdentifier(first.1, message, w.overrideIdentifier, e, true);
      if second.0.Throws? then (Threw(second.0.fault), second.1) else (Completed, second.1)
  }

  /** The override prefix is tried only after the guild prefix attempt returned false. */
  lemma OverrideTriedOnlyAfterGuildPrefix(w: World, message: string, prefix: string, e: Message)
    requires Valid(w)
    ensures var first := CheckIdentifier(w, message, prefix, e, true);
      first.0 != Ok(false) ==>
        Attempts(w, message, prefix, e) == (if first.0.Throws? then Threw(first.0.fault) else Completed, first.1)
    ensures var first := CheckIdentifier(w, message, prefix, e, true);
      first.0 == Ok(false) ==>
        var second := CheckIdentifier(first.1, message, w.overrideIdentifier, e, true);
        Attempts(w, message, prefix, e) == (if second.0.Throws? then Threw(second.0.fault) else Completed, second.1)
  {
  }

  /**
   * `OnMessageRecieved(e, g)`. Bot authors and ignored guilds are dropped;
   * the guild's prefix is loaded on first use; the lower-cased content must
   * start with it before any attempt is made. An exception from either
   * attempt ends the dispatch.
   */
  function OnMessageRecieved(w: World, e: Message): (r: (Status, World))
    requires Valid(w)
    ensures Valid(r.1)
    ensures r.1 == w.(identifier := r.1.identifier, events := r.1.events, store := r.1.store, invoked := r.1.invoked)
    ensures SameDefinitions(w.events, r.1.events)
  {
    if e.authorIsBot || e.guildId in w.ignore then (Completed, w)
    else
      var loaded := if e.guildId !in w.identifier then LoadIdentifier(w, e.guildId).1 else w;
      var message := Lower(e.content);
      var prefix := loaded.identifier[e.guildId];
      if !StartsWith(message, prefix) then (Completed, loaded)
      else Attempts(loaded, message, prefix, e)
  }

  /** The guild's prefix as `OnMessageRecieved` sees it after loading. */
  function GuildPrefix(w: World, guild: ulong): string
    requires Valid(w)
  {
    if guild in w.identifier then w.identifier[guild] else LoadIdentifier(w, guild).1.identifier[guild]
  }

  /** A message from a bot, or from an ignored guild, changes nothing at all. */
  lemma BotsAndIgnoredGuildsDoNothing(w: World, e: Message)
    requires Valid(w) && (e.authorIsBot || e.guildId in w.ignore)
    ensures OnMessageRecieved(w, e) == (Completed, w)
  {
  }

  /**
   * At most one handler runs per message, and only if the lower-cased
   * content starts with the guild's prefix; the handler is a command run
   * through the guild prefix or the override prefix.
   */
  lemma AtMostOneHandler(w: World, e: Message)
    requires Valid(w)
    ensures AtMostOneCommand(w.invoked, OnMessageRecieved(w, e).1.invoked, e,
                             GuildPrefix(w, e.guildId), w.overrideIdentifier)
    ensures e.authorIsBot || e.guildId in w.ignore || !StartsWith(Lower(e.content), GuildPrefix(w, e.guildId)) ==>
      OnMessageRecieved(w, e).1.invoked == w.invoked
  {
    if !e.authorIsBot && e.guildId !in w.ignore {
      var loaded := if e.guildId !in w.identifier then LoadIdentifier(w, e.guildId).1 else w;
      assert loaded.invoked == w.invoked && loaded.overrideIdentifier == w.overrideIdentifier;
      assert loaded.identifier[e.guildId] == GuildPrefix(w, e.guildId);
    }
  }

  /**
   * The override prefix alone does not reach a command: a message that
   * does not also start with the guild's prefix is dropped before it is tried.
   */
  lemma OverrideNeedsGuildPrefix(w: World, e: Message)
    requires Valid(w) && !e.authorIsBot && e.guildId !in w.ignore
    requires StartsWith(Lower(e.content), w.overrideIdentifier)
    requires !StartsWith(Lower(e.content), GuildPrefix(w, e.guildId))
    ensures OnMessageRecieved(w, e).1.invoked == w.invoked
  {
    AtMostOneHandler(w, e);
  }

  /**
   * With no store, a message "<prefix><name>" from a non-bot author whose
   * guild prefix is cached runs the public, enabled-by-default command
   * `name` once, through the guild prefix.
   */
  lemma PrefixedCommandRuns(w: World, e: Message, prefix: string, name: string)
    requires Valid(w) && !w.store.configured
    requires !e.authorIsBot && e.guildId !in w.ignore
    requires e.guildId in w.identifier && w.identifier[e.guildId] == prefix
    requires Lower(e.content) == prefix + name
    requires forall i :: 0 <= i < |name| ==> name[i] != ' '
    requires name in w.events.commands.entries
    requires w.events.commands.entries[name].defaultEnabled
    requires w.events.commands.entries[name].accessibility == Public
    ensures OnMessageRecieved(w, e) ==
      (Completed, w.(invoked := w.invoked + [RanCommand(name, prefix, e)]))
  {
    var message := Lower(e.content);
    assert message[|prefix|..] == name;
    FirstTokenOfWord(name);
    assert CommandKey(message, prefix) == name;
    assert w.events.Get(Commands) == w.events.commands;
  }

  // ---------------------------------------------------------------------
  // Hook passes

  /**
   * `foreach (GuildEvent ev in events.{Join,Leave}ServerEvents.Values)`:
   * each event in registration order is looked up in the enabled cache with
   * the guild's id and run when enabled. An exception ends the pass.
   */
  function GuildPass(w: World, cat: Category, keys: seq<string>, guild: ulong): (r: (Status, World))
    requires Valid(w)
    requires forall k :: k in keys ==> k in w.events.Get(cat).entries
    ensures Valid(r.1)
    ensures r.1 == w.(events := r.1.events, store := r.1.store, invoked := r.1.invoked)
    ensures forall c :: r.1.events.Get(c).keys == w.events.Get(c).keys
    ensures SameDefinitions(w.events, r.1.events)
    decreases |keys|
  {
    if keys == [] then (Completed, w)
    else
      var step := GuildStep(w, cat, keys[0], guild);
      if step.0.Threw? then step
      else
        assert forall k :: k in keys[1..] ==> k in keys;
        SameDefinitionsTrans(w.events, step.1.events, GuildPass(step.1, cat, keys[1..], guild).1.events);
        GuildPass(step.1, cat, keys[1..], guild)
  }

  /** One event of a guild pass: the lookup, then the call when it answered true. */
  function GuildStep(w: World, cat: Category, key: string, guild: ulong): (r: (Status, World))
    requires Valid(w) && key in w.events.Get(cat).entries
    ensures Valid(r.1)
    ensures r.1 == w.(events := r.1.events, store := r.1.store, invoked := r.1.invoked)
    ensures forall c :: r.1.events.Get(c).keys == w.events.Get(c).keys
    ensures SameDefinitions(w.events, r.1.events)
  {
    var probe := IsEnabled(w, cat, key, guild);
    if probe.0.Throws? then (Threw(probe.0.fault), probe.1)
    else if probe.0.value then (Completed, probe.1.(invoked := probe.1.invoked + [RanGuildEvent(cat, key, guild)]))
    else (Completed, probe.1)
  }

  /** The keys whose flag in `mask` is set, in order: a subsequence of `keys` taken at increasing indices. */
  function Pick(keys: seq<string>, mask: seq<bool>): (r: seq<string>)
    requires |mask| == |keys|
    ensures |r| <= |keys|
    ensures forall k :: k in r ==> k in keys
  {
    if keys == [] then []
    else (if mask[0] then [keys[0]] else []) + Pick(keys[1..], mask[1..])
  }

  /** With no flag set nothing is picked. */
  lemma {:induction false} PickNone(keys: seq<string>)
    ensures Pick(keys, seq(|keys|, i => false)) == []
    decreases |keys|
  {
    if keys != [] {
      assert seq(|keys|, i => false)[1..] == seq(|keys[1..]|, i => false);
      PickNone(keys[1..]);
    }
  }

  /** Picking from distinct keys gives distinct keys. */
  lemma {:induction false} PickDistinct(keys: seq<string>, mask: seq<bool>)
    requires |mask| == |keys| && Distinct(keys)
    ensures Distinct(Pick(keys, mask))
    decreases |keys|
  {
    if keys != [] {
      PickDistinct(keys[1..], mask[1..]);
      if mask[0] {
        assert Pick(keys, mask) == [keys[0]] + Pick(keys[1..], mask[1..]);
        assert ([keys[0]] + Pick(keys[1..], mask[1..]))[1..] == Pick(keys[1..], mask[1..]);
      } else {
        assert Pick(keys, mask) == Pick(keys[1..], mask[1..]);
      }
    }
  }

  /** No element of a distinct sequence occurs at two indices. */
  lemma {:induction false} DistinctAt<T>(s: seq<T>, i: int, j: int)
    requires Distinct(s) && 0 <= i < j < |s|
    ensures s[i] != s[j]
    decreases |s|
  {
    if i == 0 {
      assert s[j] == s[1..][j - 1];
    } else {
      assert s[i] == s[1..][i - 1] && s[j] == s[1..][j - 1];
      DistinctAt(s[1..], i - 1, j - 1);
    }
  }

  /**
   * `after` extends `before` by the calls, in order, of the events of
   * category `cat` picked from `keys` at increasing indices, each for `guild`;
   * so there are at most `|keys|` of them and each is for an event among `keys`.
   */
  ghost predicate GuildCallsOnly(before: seq<Invocation>, after: seq<Invocation>, cat: Category, keys: seq<string>, guild: ulong) {
    && |before| <= |after| <= |before| + |keys|
    && after[..|before|] == before
    && (forall i :: |before| <= i < |after| ==>
         after[i].RanGuildEvent? && after[i].cat == cat && after[i].key in keys && after[i].guildId == guild)
    && exists mask: seq<bool> :: |mask| == |keys| && after == before + GuildCalls(cat, Pick(keys, mask), guild)
  }

  /** A pass that stops before calling anything satisfies `GuildCallsOnly`. */
  lemma GuildCallsNone(before: seq<Invocation>, cat: Category, keys: seq<string>, guild: ulong)
    ensures GuildCallsOnly(before, before, cat, keys, guild)
  {
    assert before[..|before|] == before;
    var mask := seq(|keys|, i => false);
    PickNone(keys);
    assert before == before + GuildCalls(cat, Pick(keys, mask), guild);
  }

  /** One step of a pass: the call for `k` (if any) followed by the calls for the rest. */
  lemma GuildCallsStep(before: seq<Invocation>, mid: seq<Invocation>, after: seq<Invocation>,
                       cat: Category, keys: seq<string>, guild: ulong)
    requires keys != []
    requires mid == before || mid == before + [RanGuildEvent(cat, keys[0], guild)]
    requires GuildCallsOnly(mid, after, cat, keys[1..], guild)
    ensures GuildCallsOnly(before, after, cat, keys, guild)
  {
    assert after[..|before|] == after[..|mid|][..|before|];
    assert forall i :: |before| <= i < |mid| ==> after[i] == mid[i];
    assert forall k :: k in keys[1..] ==> k in keys;
    var m' :| |m'| == |keys[1..]| && after == mid + GuildCalls(cat, Pick(keys[1..], m'), guild);
    var mask := [mid != before] + m';
    assert mask[1..] == m';
    var head := if mid != before then [keys[0]] else [];
    assert Pick(keys, mask) == head + Pick(keys[1..], m');
    GuildCallsAppend(cat, head, Pick(keys[1..], m'), guild);
    assert mid == before + GuildCalls(cat, head, guild);
    SeqAssoc(before, GuildCalls(cat, head, guild), GuildCalls(cat, Pick(keys[1..], m'), guild));
  }

  /**
   * A guild pass only appends calls, at most one per event, each for an
   * event of the pass's category among `keys` and for the guild at hand.
   */
  lemma {:induction false} GuildPassCalls(w: World, cat: Category, keys: seq<string>, guild: ulong)
    requires Valid(w)
    requires forall k :: k in keys ==> k in w.events.Get(cat).entries
    ensures GuildCallsOnly(w.invoked, GuildPass(w, cat, keys, guild).1.invoked, cat, keys, guild)
    decreases |keys|
  {
    if keys == [] {
      GuildCallsNone(w.invoked, cat, keys, guild);
    } else {
      var step := GuildStep(w, cat, keys[0], guild);
      GuildStepCalls(w, cat, keys[0], guild);
      if step.0.Threw? {
        GuildCallsNone(w.invoked, cat, keys, guild);
      } else {
        assert forall k :: k in keys[1..] ==> k in keys;
        GuildPassCalls(step.1, cat, keys[1..], guild);
        GuildCallsStep(w.invoked, step.1.invoked, GuildPass(step.1, cat, keys[1..], guild).1.invoked, cat, keys, guild);
      }
    }
  }

  /** One event of a pass makes at most its own call, and none when the lookup throws. */
  lemma GuildStepCalls(w: World, cat: Category, key: string, guild: ulong)
    requires Valid(w) && key in w.events.Get(cat).entries
    ensures var step := GuildStep(w, cat, key, guild);
      || step.1.invoked == w.invoked
      || (step.0 == Completed && step.1.invoked == w.invoked + [RanGuildEvent(cat, key, guild)])
    ensures GuildStep(w, cat, key, guild).0.Threw? ==> GuildStep(w, cat, key, guild).1.invoked == w.invoked
    ensures var step := GuildStep(w, cat, key, guild);
      var probe := IsEnabled(w, cat, key, guild);
      && (step.1.invoked != w.invoked <==> probe.0 == Ok(true))
      && (step.0.Threw? <==> probe.0.Throws?)
      && step.1.events == probe.1.events && step.1.store == probe.1.store
  {
  }

  /**
   * Over distinct keys, such as a category's registration order, a pass
   * calls each event at most once.
   */
  lemma GuildPassCallsOnce(w: World, cat: Category, keys: seq<string>, guild: ulong)
    requires Valid(w) && Distinct(keys)
    requires forall k :: k in keys ==> k in w.events.Get(cat).entries
    ensures var after := GuildPass(w, cat, keys, guild).1.invoked;
      forall i, j :: |w.invoked| <= i < j < |after| ==> after[i] != after[j]
  {
    GuildPassCalls(w, cat, keys, guild);
    GuildCallsDistinct(w.invoked, GuildPass(w, cat, keys, guild).1.invoked, cat, keys, guild);
  }

  /** Calls picked from distinct keys are distinct. */
  lemma GuildCallsDistinct(before: seq<Invocation>, after: seq<Invocation>, cat: Category, keys: seq<string>, guild: ulong)
    requires Distinct(keys) && GuildCallsOnly(before, after, cat, keys, guild)
    ensures forall i, j :: |before| <= i < j < |after| ==> after[i] != after[j]
  {
    var mask :| |mask| == |keys| && after == before + GuildCalls(cat, Pick(keys, mask), guild);
    PickDistinct(keys, mask);
    CallsOfDistinct(before, cat, Pick(keys, mask), guild);
  }

  /** The calls for distinct keys are distinct. */
  lemma CallsOfDistinct(before: seq<Invocation>, cat: Category, ran: seq<string>, guild: ulong)
    requires Distinct(ran)
    ensures var after := before + GuildCalls(cat, ran, guild);
      forall i, j :: |before| <= i < j < |after| ==> after[i] != after[j]
  {
    var calls := GuildCalls(cat, ran, guild);
    var after := before + calls;
    var n := |before|;
    forall i, j | n <= i < j < |after| ensures after[i] != after[j] {
      assert after[i] == calls[i - n] && after[j] == calls[j - n];
      DistinctAt(ran, i - n, j - n);
    }
  }

  /** `OnGuildJoin(g)`. */
  function OnGuildJoin(w: World, guild: ulong): (Status, World)
    requires Valid(w)
  {
    GuildPass(w, Join, w.events.join.keys, guild)
  }

  /** `OnGuildLeave(g)`. */
  function OnGuildLeave(w: World, guild: ulong): (Status, World)
    requires Valid(w)
  {
    GuildPass(w, Leave, w.events.leave.keys, guild)
  }

  /** The events of `keys` whose `defaultEnabled` is set, in order. */
  function DefaultOn(d: Dict<Event>, keys: seq<string>): seq<string>
    requires forall k :: k in keys ==> k in d.entries
  {
    if keys == [] then []
    else (if d.entries[keys[0]].defaultEnabled then [keys[0]] else []) + DefaultOn(d, keys[1..])
  }

  /** Without a store a guild pass runs exactly the events enabled by default, in registration order. */
  lemma {:induction false} GuildPassWithoutStore(w: World, cat: Category, keys: seq<string>, guild: ulong)
    requires Valid(w) && !w.store.configured
    requires forall k :: k in keys ==> k in w.events.Get(cat).entries
    ensures GuildPass(w, cat, keys, guild) ==
      (Completed, w.(invoked := w.invoked + GuildCalls(cat, DefaultOn(w.events.Get(cat), keys), guild)))
    decreases |keys|
  {
    if keys == [] {
      assert w.invoked + [] == w.invoked;
    } else {
      var d := w.events.Get(cat);
      var e := d.entries[keys[0]];
      var first := GuildCalls(cat, if e.defaultEnabled then [keys[0]] else [], guild);
      var w1 := w.(invoked := w.invoked + first);
      GuildPassStepWithoutStore(w, cat, keys, guild, w1);
      GuildPassWithoutStore(w1, cat, keys[1..], guild);
      var tail := DefaultOn(d, keys[1..]);
      assert w1.events.Get(cat) == d;
      assert DefaultOn(d, keys) == (if e.defaultEnabled then [keys[0]] else []) + tail;
      GuildCallsAppend(cat, if e.defaultEnabled then [keys[0]] else [], tail, guild);
      var calls := GuildCalls(cat, DefaultOn(d, keys), guild);
      assert first + GuildCalls(cat, tail, guild) == calls;
      SeqAssoc(w.invoked, first, GuildCalls(cat, tail, guild));
      var r := GuildPass(w1, cat, keys[1..], guild);
      assert r == (Completed, w.(invoked := w.invoked + calls));
      assert GuildPass(w, cat, keys, guild) == r;
    }
  }

  /** Without a store, the first event of a pass runs exactly when it is enabled by default. */
  lemma GuildPassStepWithoutStore(w: World, cat: Category, keys: seq<string>, guild: ulong, w1: World)
    requires Valid(w) && !w.store.configured && keys != []
    requires forall k :: k in keys ==> k in w.events.Get(cat).entries
    requires var e := w.events.Get(cat).entries[keys[0]];
      w1 == w.(invoked := w.invoked + GuildCalls(cat, if e.defaultEnabled then [keys[0]] else [], guild))
    ensures Valid(w1) && forall k :: k in keys[1..] ==> k in w1.events.Get(cat).entries
    ensures GuildStep(w, cat, keys[0], guild) == (Completed, w1)
    ensures GuildPass(w, cat, keys, guild) == GuildPass(w1, cat, keys[1..], guild)
  {
    var e := w.events.Get(cat).entries[keys[0]];
    assert forall k :: k in keys[1..] ==> k in keys;
    assert IsEnabled(w, cat, keys[0], guild) == (Ok(e.defaultEnabled), w);
    if e.defaultEnabled {
      assert GuildCalls(cat, [keys[0]], guild) == [RanGuildEvent(cat, keys[0], guild)];
    } else {
      assert w.invoked + GuildCalls(cat, [], guild) == w.invoked;
    }
  }

  /** The calls a guild pass makes for `ran`, in order. */
  function GuildCalls(cat: Category, ran: seq<string>, guild: ulong): (calls: seq<Invocation>)
    ensures |calls| == |ran|
    ensures forall i :: 0 <= i < |ran| ==> calls[i] == RanGuildEvent(cat, ran[i], guild)
  {
    seq(|ran|, i requires 0 <= i < |ran| => RanGuildEvent(cat, ran[i], guild))
  }

  lemma GuildCallsAppend(cat: Category, a: seq<string>, b: seq<string>, guild: ulong)
    ensures GuildCalls(cat, a + b, guild) == GuildCalls(cat, a, guild) + GuildCalls(cat, b, guild)
  {
  }

  /** `OnMention`'s calls: every mention event, in registration order, ungated. */
  function MentionCalls(keys: seq<string>, e: Message): (calls: seq<Invocation>)
    ensures |calls| == |keys|
    ensures forall i :: 0 <= i < |keys| ==> calls[i] == RanMention(keys[i], e)
  {
    seq(|keys|, i requires 0 <= i < |keys| => RanMention(keys[i], e))
  }

  /** `OnCommandDone`'s calls: every command-done hook, in registration order, with the executed command. */
  function CommandDoneCalls(keys: seq<string>, e: Message, command: Event): (calls: seq<Invocation>)
    ensures |calls| == |keys|
    ensures forall i :: 0 <= i < |keys| ==> calls[i] == RanCommandDone(keys[i], e, command)
  {
    seq(|keys|, i requires 0 <= i < |keys| => RanCommandDone(keys[i], e, command))
  }

  // ---------------------------------------------------------------------
  // Every event stays under its lower-cased name

  /** Running a command keeps every event under its lower-cased name. */
  lemma RunCommandKeepsKeyed(w: World, key: string, prefix: string, e: Message, gate: bool)
    requires Valid(w) && w.events.Keyed() && key in w.events.commands.entries
    ensures RunCommand(w, key, prefix, e, gate).1.events.Keyed()
  {
    assert w.events.Get(Commands) == w.events.commands;
    LookupKeepsKeyed(w, Commands, key, e.channelId);
  }

  /** One `CheckIdentifier` attempt keeps every event under its lower-cased name. */
  lemma CheckIdentifierKeepsKeyed(w: World, message: string, prefix: string, e: Message, doRun: bool)
    requires Valid(w) && w.events.Keyed()
    ensures CheckIdentifier(w, message, prefix, e, doRun).1.events.Keyed()
  {
    if StartsWith(message, prefix) {
      match Resolve(w, CommandKey(message, prefix))
      case Unknown =>
      case DanglingAlias =>
      case ByName(key) => RunCommandKeepsKeyed(w, key, prefix, e, doRun);
      case ByAlias(key) => RunCommandKeepsKeyed(w, key, prefix, e, true);
    }
  }

  /** Dispatching a message keeps every event under its lower-cased name. */
  lemma OnMessageKeepsKeyed(w: World, e: Message)
    requires Valid(w) && w.events.Keyed()
    ensures OnMessageRecieved(w, e).1.events.Keyed()
  {
    if !e.authorIsBot && e.guildId !in w.ignore {
      var loaded := if e.guildId !in w.identifier then LoadIdentifier(w, e.guildId).1 else w;
      assert loaded.events == w.events;
      AttemptsKeepsKeyed(loaded, Lower(e.content), loaded.identifier[e.guildId], e);
    }
  }

  /** Both attempts of a message keep every event under its lower-cased name. */
  lemma AttemptsKeepsKeyed(w: World, message: string, prefix: string, e: Message)
    requires Valid(w) && w.events.Keyed()
    ensures Attempts(w, message, prefix, e).1.events.Keyed()
  {
    var first := CheckIdentifier(w, message, prefix, e, true);
    CheckIdentifierKeepsKeyed(w, message, prefix, e, true);
    CheckIdentifierKeepsKeyed(first.1, message, w.overrideIdentifier, e, true);
  }

  /** A guild pass keeps every event under its lower-cased name. */
  lemma {:induction false} GuildPassKeepsKeyed(w: World, cat: Category, keys: seq<string>, guild: ulong)
    requires Valid(w) && w.events.Keyed()
    requires forall k :: k in keys ==> k in w.events.Get(cat).entries
    ensures GuildPass(w, cat, keys, guild).1.events.Keyed()
    decreases |keys|
  {
    if keys != [] {
      var step := GuildStep(w, cat, keys[0], guild);
      LookupKeepsKeyed(w, cat, keys[0], guild);
      if !step.0.Threw? {
        assert forall k :: k in keys[1..] ==> k in keys;
        GuildPassKeepsKeyed(step.1, cat, keys[1..], guild);
      }
    }
  }

  /** `OnGuildJoin` and `OnGuildLeave` keep every event under its lower-cased name. */
  lemma GuildEventsKeepKeyed(w: World, guild: ulong)
    requires Valid(w) && w.events.Keyed()
    ensures OnGuildJoin(w, guild).1.events.Keyed()
    ensures OnGuildLeave(w, guild).1.events.Keyed()
  {
    assert w.events.Get(Join) == w.events.join && w.events.Get(Leave) == w.events.leave;
    GuildPassKeepsKeyed(w, Join, w.events.join.keys, guild);
    GuildPassKeepsKeyed(w, Leave, w.events.leave.keys, guild);
  }
}
