/**
 * The per-(event, channel) enabled-state cache of IA/Events/EventSystem.cs:
 * each event's `enabled` map, filled on first use from the `event` table
 * by `IsEnabled`, and written through by `SetEnabled`.
 */
module EnabledState {
  import opened Base
  import opened Events
  import opened Registry
  import opened Store
  import opened State

  /** The event stored under `key` in category `cat`. */
  function Slot(w: World, cat: Category, key: string): Event
    requires key in w.events.Get(cat).entries
  {
    w.events.Get(cat).entries[key]
  }

  /** `w` with the event under (`cat`, `key`) replaced by `e`. */
  function WithSlot(w: World, cat: Category, key: string, e: Event): (r: World)
    requires Valid(w) && key in w.events.Get(cat).entries
    ensures Valid(r)
    ensures r == w.(events := r.events)
    ensures forall c :: r.events.Get(c).keys == w.events.Get(c).keys
    ensures r.events.Get(cat).entries == w.events.Get(cat).entries[key := e]
    ensures forall c :: c != cat ==> r.events.Get(c) == w.events.Get(c)
  {
    SetKeepsValid(w.events, cat, key, e);
    w.(events := w.events.Put(cat, w.events.Get(cat).Set(key, e)))
  }

  /**
   * `IsEnabled(e, id)` for the event `e` stored under (`cat`, `key`).
   *  - no store: `defaultEnabled`, nothing changes;
   *  - `id` cached in `e.enabled`: line 433 reads the cache of
   *    `CommandEvents[e.name]`, which throws when there is no command under
   *    the event's unlowered name or it has nothing cached for `id`;
   *  - otherwise the row is read; a missing row is inserted with
   *    `defaultEnabled`, which is returned; a present row's flag is returned.
   *    Either way `defaultEnabled`, not the stored flag, is cached.
   */
  function IsEnabled(w: World, cat: Category, key: string, id: ulong): (r: (Try<bool>, World))
    requires Valid(w) && key in w.events.Get(cat).entries
    ensures Valid(r.1)
    ensures r.1 == w.(events := r.1.events, store := r.1.store)
    ensures forall c :: r.1.events.Get(c).keys == w.events.Get(c).keys
    ensures SameDefinitions(w.events, r.1.events)
    ensures r.0.Throws? ==> r.0.fault == KeyNotFound && r.1 == w
    ensures !w.store.configured ==> r == (Ok(Slot(w, cat, key).defaultEnabled), w)
  {
    (EnabledAnswer(w, cat, key, id), AfterLookup(w, cat, key, id))
  }

  /** What `IsEnabled` returns, or the exception it throws. */
  function EnabledAnswer(w: World, cat: Category, key: string, id: ulong): Try<bool>
    requires Valid(w) && key in w.events.Get(cat).entries
  {
    var e := Slot(w, cat, key);
    var cmds := w.events.commands.entries;
    if !w.store.configured then Ok(e.defaultEnabled)
    else if id in e.enabled then
      if e.name in cmds && id in cmds[e.name].enabled then Ok(cmds[e.name].enabled[id]) else Throws(KeyNotFound)
    else
      var state := ReadEnabled(w.store, e.name, id).0;
      Ok(if state == -1 then e.defaultEnabled else state == 1)
  }

  /** The world after `IsEnabled`: only a first lookup with a store changes the event's cache and the store. */
  function AfterLookup(w: World, cat: Category, key: string, id: ulong): (r: World)
    requires Valid(w) && key in w.events.Get(cat).entries
    ensures Valid(r)
    ensures r == w.(events := r.events, store := r.store)
    ensures forall c :: r.events.Get(c).keys == w.events.Get(c).keys
    ensures SameDefinitions(w.events, r.events)
  {
    var e := Slot(w, cat, key);
    if !w.store.configured || id in e.enabled then w
    else
      SetKeepsDefinitions(w.events, cat, key, e.enabled[id := e.defaultEnabled]);
      var read := ReadEnabled(w.store, e.name, id);
      var store := if read.0 == -1 then InsertEnabled(read.1, e.name, id, e.defaultEnabled) else read.1;
      WithSlot(w, cat, key, e.(enabled := e.enabled[id := e.defaultEnabled])).(store := store)
  }

  /** The two cases of `IsEnabled` with a store: a cache hit, and a first lookup in the channel. */
  lemma IsEnabledCases(w: World, cat: Category, key: string, id: ulong)
    requires Valid(w) && key in w.events.Get(cat).entries
    ensures var r := IsEnabled(w, cat, key, id);
      w.store.configured && id in Slot(w, cat, key).enabled ==>
      var name := Slot(w, cat, key).name;
      var cmds := w.events.commands.entries;
      && r.1 == w
      && (r.0.Ok? <==> name in cmds && id in cmds[name].enabled)
      && (r.0.Ok? ==> r.0.value == cmds[name].enabled[id])
    ensures var r := IsEnabled(w, cat, key, id);
      w.store.configured && id !in Slot(w, cat, key).enabled ==>
      var e := Slot(w, cat, key);
      && r.1 == WithSlot(w, cat, key, e.(enabled := e.enabled[id := e.defaultEnabled])).(store := r.1.store)
      && ((e.name, id) !in w.store.eventRows ==>
            && r.0 == Ok(e.defaultEnabled)
            && r.1.store == InsertEnabled(ReadEnabled(w.store, e.name, id).1, e.name, id, e.defaultEnabled))
      && ((e.name, id) in w.store.eventRows ==>
            && r.0 == Ok(w.store.eventRows[(e.name, id)])
            && r.1.store == w.store.(log := w.store.log + [ReadEvent(e.name, id)]))
  {
  }

  /** A lookup keeps every event under its lower-cased name: it changes only an event's cache. */
  lemma LookupKeepsKeyed(w: World, cat: Category, key: string, id: ulong)
    requires Valid(w) && w.events.Keyed() && key in w.events.Get(cat).entries
    ensures IsEnabled(w, cat, key, id).1.events.Keyed()
  {
    var e := Slot(w, cat, key);
    if w.store.configured && id !in e.enabled {
      SetKeepsKeyed(w.events, cat, key, e.(enabled := e.enabled[id := e.defaultEnabled]));
    }
  }

  /**
   * For a command, line 433 reads the command's own cache exactly when its
   * name is already lower case (it is then the key it is stored under); a
   * command registered with upper-case letters in its name throws instead.
   */
  lemma CommandCacheHit(w: World, key: string, id: ulong)
    requires Valid(w) && w.events.Keyed() && key in w.events.commands.entries && w.store.configured
    requires id in Slot(w, Commands, key).enabled
    ensures IsLower(Slot(w, Commands, key).name) ==>
      IsEnabled(w, Commands, key, id).0 == Ok(Slot(w, Commands, key).enabled[id])
    ensures !IsLower(Slot(w, Commands, key).name) ==>
      IsEnabled(w, Commands, key, id).0 == Throws(KeyNotFound)
  {
    var e := Slot(w, Commands, key);
    assert w.events.Get(Commands) == w.events.commands;
    assert KeyedByLowerName(w.events.Get(Commands));
    assert key == Lower(e.name);
    LowerFixpoint(e.name);
    if e.name in w.events.commands.entries {
      KeyIsOwnName(w.events, Commands, key, e.name);
    }
  }

  /**
   * The first lookup of a command in a channel with a stored row returns the
   * stored flag but caches `defaultEnabled`, so every later lookup returns
   * `defaultEnabled` instead.
   */
  lemma StoredStateForgotten(w: World, key: string, id: ulong)
    requires Valid(w) && w.events.Keyed() && key in w.events.commands.entries && w.store.configured
    requires IsLower(Slot(w, Commands, key).name)
    requires id !in Slot(w, Commands, key).enabled
    requires (Slot(w, Commands, key).name, id) in w.store.eventRows
    ensures var e := Slot(w, Commands, key);
      var first := IsEnabled(w, Commands, key, id);
      && first.0 == Ok(w.store.eventRows[(e.name, id)])
      && IsEnabled(first.1, Commands, key, id) == (Ok(e.defaultEnabled), first.1)
  {
    var e := Slot(w, Commands, key);
    var first := IsEnabled(w, Commands, key, id);
    assert first.1.events.Get(Commands) == first.1.events.commands;
    assert Slot(first.1, Commands, key) == e.(enabled := e.enabled[id := e.defaultEnabled]);
    LookupKeepsKeyed(w, Commands, key, id);
    CommandCacheHit(first.1, key, id);
  }

  /**
   * With a store and no row yet, the first lookup reads once, inserts
   * `defaultEnabled` once and returns it; the second returns the same value
   * and makes no store request.
   */
  lemma FirstLookupPersistsDefault(w: World, key: string, id: ulong)
    requires Valid(w) && w.events.Keyed() && key in w.events.commands.entries && w.store.configured
    requires IsLower(Slot(w, Commands, key).name)
    requires id !in Slot(w, Commands, key).enabled
    requires (Slot(w, Commands, key).name, id) !in w.store.eventRows
    ensures var e := Slot(w, Commands, key);
      var first := IsEnabled(w, Commands, key, id);
      && first.0 == Ok(e.defaultEnabled)
      && first.1.store.log == w.store.log + [ReadEvent(e.name, id), InsertEvent(e.name, id, e.defaultEnabled)]
      && first.1.store.eventRows == w.store.eventRows[(e.name, id) := e.defaultEnabled]
      && IsEnabled(first.1, Commands, key, id) == (Ok(e.defaultEnabled), first.1)
  {
    var e := Slot(w, Commands, key);
    var first := IsEnabled(w, Commands, key, id);
    assert first.1.events.Get(Commands) == first.1.events.commands;
    assert Slot(first.1, Commands, key) == e.(enabled := e.enabled[id := e.defaultEnabled]);
    LookupKeepsKeyed(w, Commands, key, id);
    CommandCacheHit(first.1, key, id);
  }

  /**
   * A join, leave, mention, command-done or continuous event whose name is
   * not a command key throws on every lookup after the first one that filled
   * its cache.
   */
  lemma NonCommandSecondLookupThrows(w: World, cat: Category, key: string, id: ulong)
    requires Valid(w) && cat != Commands && key in w.events.Get(cat).entries && w.store.configured
    requires id !in Slot(w, cat, key).enabled
    requires Slot(w, cat, key).name !in w.events.commands.entries
    ensures var first := IsEnabled(w, cat, key, id);
      first.0.Ok? && IsEnabled(first.1, cat, key, id).0 == Throws(KeyNotFound)
  {
    var first := IsEnabled(w, cat, key, id);
    assert first.1.events.commands == w.events.Get(Commands);
  }

  /**
   * What a lookup answers depends only on whether a store is configured,
   * the event itself, the command cache line 433 reads, and the event's row.
   */
  lemma IsEnabledDependsOn(w: World, v: World, cat: Category, key: string, id: ulong)
    requires Valid(w) && Valid(v)
    requires key in w.events.Get(cat).entries && key in v.events.Get(cat).entries
    requires Slot(w, cat, key) == Slot(v, cat, key)
    requires w.store.configured == v.store.configured
    requires var n := Slot(w, cat, key).name;
      && (n in w.events.commands.entries <==> n in v.events.commands.entries)
      && (n in w.events.commands.entries ==> w.events.commands.entries[n] == v.events.commands.entries[n])
      && ((n, id) in w.store.eventRows <==> (n, id) in v.store.eventRows)
      && ((n, id) in w.store.eventRows ==> w.store.eventRows[(n, id)] == v.store.eventRows[(n, id)])
    ensures EnabledAnswer(w, cat, key, id) == EnabledAnswer(v, cat, key, id)
  {
  }

  /**
   * Looking one command up leaves what a lookup of any other command sees
   * unchanged: the two have different names, so the first touches neither
   * the other's cache, nor the cache line 433 reads for it, nor its row.
   */
  lemma ProbeIndependent(w: World, k1: string, k2: string, id: ulong)
    requires Valid(w) && w.events.Keyed() && k1 != k2
    requires k1 in w.events.commands.entries && k2 in w.events.commands.entries
    ensures var w1 := IsEnabled(w, Commands, k1, id).1;
      && k2 in w1.events.commands.entries
      && Slot(w1, Commands, k2) == Slot(w, Commands, k2)
      && EnabledAnswer(w1, Commands, k2, id) == EnabledAnswer(w, Commands, k2, id)
  {
    assert w.events.Get(Commands) == w.events.commands;
    var w1 := IsEnabled(w, Commands, k1, id).1;
    var e1 := Slot(w, Commands, k1);
    var e2 := Slot(w, Commands, k2);
    if w.store.configured && id !in e1.enabled {
      assert w1.events.Get(Commands) == w1.events.commands;
      var e1' := e1.(enabled := e1.enabled[id := e1.defaultEnabled]);
      assert w1.events.commands.entries == w.events.commands.entries[k1 := e1'];
      assert KeyedByLowerName(w.events.Get(Commands));
      assert k1 == Lower(e1.name) && k2 == Lower(e2.name);
      if e2.name == k1 {
        LowerIdempotent(e1.name);
        assert false;
      }
      assert w1.store.eventRows == w.store.eventRows || w1.store.eventRows == w.store.eventRows[(e1.name, id) := e1.defaultEnabled];
      IsEnabledDependsOn(w1, w, Commands, k2, id);
    }
  }

  // ---------------------------------------------------------------------
  // SetEnabled

  /**
   * `SetEnabled(eventName, channelId, enabled)`. The guard at line 225
   * dereferences the event before its null test, so an unknown name throws.
   * Disabling an event that cannot be disabled answers false and changes
   * nothing. Otherwise the row is updated when a store is configured (an
   * UPDATE, so only an existing row changes), the event's cache takes the
   * new flag, and the answer is true.
   */
  function SetEnabled(w: World, eventName: string, channelId: ulong, enabled: bool): (r: (Try<bool>, World))
    requires Valid(w)
    ensures Valid(r.1)
    ensures r.1 == w.(events := r.1.events, store := r.1.store)
    ensures w.events.GetEvent(eventName).None? ==> r == (Throws(NullReference), w)
    ensures w.events.GetEvent(eventName).Some? ==>
      var cat := w.events.GetEvent(eventName).value;
      var e := Slot(w, cat, eventName);
      if !e.canBeDisabled && !enabled then r == (Ok(false), w)
      else
        && r.0 == Ok(true)
        && r.1.events == WithSlot(w, cat, eventName, e.(enabled := e.enabled[channelId := enabled])).events
        && r.1.store == (if w.store.configured then UpdateEnabled(w.store, e.name, channelId, enabled) else w.store)
  {
    match w.events.GetEvent(eventName)
    case None => (Throws(NullReference), w)
    case Some(cat) =>
      var e := Slot(w, cat, eventName);
      if !e.canBeDisabled && !enabled then (Ok(false), w)
      else
        var store := if w.store.configured then UpdateEnabled(w.store, e.name, channelId, enabled) else w.store;
        (Ok(true), WithSlot(w, cat, eventName, e.(enabled := e.enabled[channelId := enabled])).(store := store))
  }

  /**
   * Setting a command's flag is what later lookups see when a store is
   * configured and the name is lower case; without a store lookups keep
   * answering `defaultEnabled`, so the setting has no effect on them.
   */
  lemma SetThenLookup(w: World, key: string, channelId: ulong, enabled: bool)
    requires Valid(w) && w.events.Keyed() && key in w.events.commands.entries
    requires SetEnabled(w, key, channelId, enabled).0 == Ok(true)
    ensures var w' := SetEnabled(w, key, channelId, enabled).1;
      && key in w'.events.commands.entries
      && (w.store.configured && IsLower(Slot(w, Commands, key).name) ==>
            IsEnabled(w', Commands, key, channelId) == (Ok(enabled), w'))
      && (!w.store.configured ==>
            IsEnabled(w', Commands, key, channelId) == (Ok(Slot(w, Commands, key).defaultEnabled), w'))
  {
    var w' := SetEnabled(w, key, channelId, enabled).1;
    var e := Slot(w, Commands, key);
    assert w.events.Get(Commands) == w.events.commands;
    assert w'.events.Get(Commands) == w'.events.commands;
    assert Slot(w', Commands, key) == e.(enabled := e.enabled[channelId := enabled]);
    if w.store.configured && IsLower(e.name) {
      SetKeepsKeyed(w.events, Commands, key, e.(enabled := e.enabled[channelId := enabled]));
      CommandCacheHit(w', key, channelId);
    }
  }

  /** Setting a flag keeps every event under its lower-cased name: it changes only an event's cache. */
  lemma SetEnabledKeepsKeyed(w: World, eventName: string, channelId: ulong, enabled: bool)
    requires Valid(w) && w.events.Keyed()
    ensures SetEnabled(w, eventName, channelId, enabled).1.events.Keyed()
  {
    match w.events.GetEvent(eventName)
    case None =>
    case Some(cat) =>
      var e := Slot(w, cat, eventName);
      SetKeepsKeyed(w.events, cat, eventName, e.(enabled := e.enabled[channelId := enabled]));
  }
}
