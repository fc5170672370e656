/**
 * The event registry of IA/Events/EventSystem.cs: one insertion-ordered
 * dictionary per event category, keyed by the lower-cased event name, and
 * one alias table shared by every category.
 */
module Registry {
  import opened Base
  import opened Events

  /**
   * A .NET `Dictionary<string, V>` that only ever grows (or loses one key),
   * so that enumeration follows insertion order: `keys` is that order.
   */
  datatype Dict<V> = Dict(keys: seq<string>, entries: map<string, V>) {

    ghost predicate Valid() {
      && Distinct(keys)
      && (forall k :: k in entries <==> k in keys)
    }

    /** `Add` on a key that is absent: the key goes to the end of the order. */
    function Insert(k: string, v: V): (d: Dict<V>)
      requires Valid() && k !in entries
      ensures d.Valid() && d.keys == keys + [k] && d.entries == entries[k := v]
    {
      DistinctSnoc(keys, k);
      Dict(keys + [k], entries[k := v])
    }

    /** The indexer assignment on a present key: the order is unchanged. */
    function Set(k: string, v: V): (d: Dict<V>)
      requires Valid() && k in entries
      ensures d.Valid() && d.keys == keys && d.entries == entries[k := v]
    {
      Dict(keys, entries[k := v])
    }
  }

  /** No element occurs twice: each is absent from the rest of the sequence. */
  ghost predicate Distinct<T>(s: seq<T>)
    decreases |s|
  {
    s == [] || (s[0] !in s[1..] && Distinct(s[1..]))
  }

  /** Appending an element that does not occur yet keeps a sequence distinct. */
  lemma {:induction false} DistinctSnoc<T>(s: seq<T>, x: T)
    requires Distinct(s) && x !in s
    ensures Distinct(s + [x])
    decreases |s|
  {
    if s != [] {
      assert (s + [x])[1..] == s[1..] + [x];
      DistinctSnoc(s[1..], x);
    }
  }

  function EmptyDict<V>(): (d: Dict<V>)
    ensures d.Valid() && d.keys == [] && d.entries == map[]
  {
    Dict([], map[])
  }

  /** The six dictionaries of `EventContainer`. */
  datatype Category = Commands | Mentions | CommandDone | Join | Leave | Continuous

  datatype EventContainer = EventContainer(
    commands: Dict<Event>,
    mentions: Dict<Event>,
    commandDone: Dict<Event>,
    join: Dict<Event>,
    leave: Dict<Event>,
    continuous: Dict<Event>)
  {
    function Get(c: Category): Dict<Event> {
      match c
      case Commands => commands
      case Mentions => mentions
      case CommandDone => commandDone
      case Join => join
      case Leave => leave
      case Continuous => continuous
    }

    function Put(c: Category, d: Dict<Event>): (r: EventContainer)
      ensures r.Get(c) == d
      ensures forall c' :: c' != c ==> r.Get(c') == Get(c')
    {
      match c
      case Commands => this.(commands := d)
      case Mentions => this.(mentions := d)
      case CommandDone => this.(commandDone := d)
      case Join => this.(join := d)
      case Leave => this.(leave := d)
      case Continuous => this.(continuous := d)
    }

    /**
     * Every category is a well-formed dictionary. The commands are named
     * again so that contracts about them need not go through `Get`.
     */
    ghost predicate Valid() {
      && (forall c: Category :: Get(c).Valid())
      && commands.Valid()
    }

    /**
     * `events.GetEvent(id)`. Its body is not part of this model; it is taken
     * to look `id` up as a key in the categories in `SearchRank` order and
     * to return null when none holds it.
     */
    function GetEvent(id: string): (r: Option<Category>)
      ensures r.Some? ==> id in Get(r.value).entries
      ensures r.Some? ==> forall c: Category :: SearchRank(c) < SearchRank(r.value) ==> id !in Get(c).entries
      ensures r.None? <==> forall c: Category :: id !in Get(c).entries
      ensures id in commands.entries ==> r == Some(Commands)
    {
      if id in commands.entries then Some(Commands)
      else if id in mentions.entries then Some(Mentions)
      else if id in commandDone.entries then Some(CommandDone)
      else if id in join.entries then Some(Join)
      else if id in leave.entries then Some(Leave)
      else if id in continuous.entries then Some(Continuous)
      else None
    }

    /** Every event is stored under its lower-cased name, as the `Add*Event` methods store it. */
    ghost predicate Keyed() {
      forall c: Category :: KeyedByLowerName(Get(c))
    }
  }

  /** The order in which `GetEvent` searches the categories. */
  function SearchRank(c: Category): nat {
    match c
    case Commands => 0
    case Mentions => 1
    case CommandDone => 2
    case Join => 3
    case Leave => 4
    case Continuous => 5
  }

  ghost predicate KeyedByLowerName(d: Dict<Event>) {
    forall k :: k in d.entries ==> k == Lower(d.entries[k].name)
  }

  function EmptyContainer(): (r: EventContainer)
    ensures r.Valid() && r.Keyed()
    ensures forall c: Category :: r.Get(c).keys == []
  {
    EventContainer(EmptyDict(), EmptyDict(), EmptyDict(), EmptyDict(), EmptyDict(), EmptyDict())
  }

  /** Replacing one event keeps the container valid. */
  lemma SetKeepsValid(c: EventContainer, cat: Category, key: string, e: Event)
    requires c.Valid() && key in c.Get(cat).entries
    ensures c.Put(cat, c.Get(cat).Set(key, e)).Valid()
  {
    var r := c.Put(cat, c.Get(cat).Set(key, e));
    forall c': Category ensures r.Get(c').Valid() {
      if c' != cat {
        assert r.Get(c') == c.Get(c');
      }
    }
  }

  /** Replacing one event by one with the same name keeps every event under its lower-cased name. */
  lemma SetKeepsKeyed(c: EventContainer, cat: Category, key: string, e: Event)
    requires c.Valid() && c.Keyed() && key in c.Get(cat).entries
    requires e.name == c.Get(cat).entries[key].name
    ensures c.Put(cat, c.Get(cat).Set(key, e)).Keyed()
  {
    var r := c.Put(cat, c.Get(cat).Set(key, e));
    forall c': Category ensures KeyedByLowerName(r.Get(c')) {
      if c' != cat {
        assert r.Get(c') == c.Get(c');
      }
    }
  }

  /**
   * `b` holds the events of `a` under the same keys, in the same order, and
   * each differs from its original at most in its `enabled` cache: the
   * definition an `Add*Event` registered is never changed afterwards.
   */
  ghost predicate SameDefinitionsIn(a: Dict<Event>, b: Dict<Event>) {
    && a.keys == b.keys
    && (forall k :: k in a.entries <==> k in b.entries)
    && (forall k :: k in a.entries ==> b.entries[k] == a.entries[k].(enabled := b.entries[k].enabled))
  }

  /** Every category of `b` keeps the definitions of the same category of `a`. */
  ghost predicate SameDefinitions(a: EventContainer, b: EventContainer) {
    forall c: Category :: SameDefinitionsIn(a.Get(c), b.Get(c))
  }

  /** Keeping the definitions composes. */
  lemma SameDefinitionsTrans(a: EventContainer, b: EventContainer, c: EventContainer)
    requires SameDefinitions(a, b) && SameDefinitions(b, c)
    ensures SameDefinitions(a, c)
  {
    forall cat: Category ensures SameDefinitionsIn(a.Get(cat), c.Get(cat)) {
      assert SameDefinitionsIn(a.Get(cat), b.Get(cat)) && SameDefinitionsIn(b.Get(cat), c.Get(cat));
    }
  }

  /** Replacing an event's `enabled` cache, and nothing else, keeps every definition. */
  lemma SetKeepsDefinitions(c: EventContainer, cat: Category, key: string, enabled: map<ulong, bool>)
    requires c.Valid() && key in c.Get(cat).entries
    ensures SameDefinitions(c, c.Put(cat, c.Get(cat).Set(key, c.Get(cat).entries[key].(enabled := enabled))))
  {
    var d := c.Get(cat);
    var r := c.Put(cat, d.Set(key, d.entries[key].(enabled := enabled)));
    SetKeepsDefinitionsIn(d, key, enabled);
    forall c': Category ensures SameDefinitionsIn(c.Get(c'), r.Get(c')) {
      if c' != cat {
        assert r.Get(c') == c.Get(c');
      }
    }
  }

  /** The same for a single dictionary. */
  lemma SetKeepsDefinitionsIn(d: Dict<Event>, key: string, enabled: map<ulong, bool>)
    requires d.Valid() && key in d.entries
    ensures SameDefinitionsIn(d, d.Set(key, d.entries[key].(enabled := enabled)))
  {
  }

  /** Events that keep their definitions keep their names, so they stay under their lower-cased names. */
  lemma SameDefinitionsKeepKeyed(a: EventContainer, b: EventContainer)
    requires a.Keyed() && SameDefinitions(a, b)
    ensures b.Keyed()
  {
    forall c: Category ensures KeyedByLowerName(b.Get(c)) {
      assert SameDefinitionsIn(a.Get(c), b.Get(c)) && KeyedByLowerName(a.Get(c));
    }
  }

  /** In a valid container a key names the event stored under it only if that name is already lower case. */
  lemma KeyIsOwnName(c: EventContainer, cat: Category, key: string, name: string)
    requires c.Valid() && c.Keyed() && key in c.Get(cat).entries
    requires name in c.Get(cat).entries
    requires Lower(name) == key
    ensures name == key
  {
    assert name == Lower(c.Get(cat).entries[name].name);
    LowerIdempotent(c.Get(cat).entries[name].name);
  }

  // ---------------------------------------------------------------------
  // Aliases

  /** No alias is taken already and no alias repeats. */
  ghost predicate FreshAliases(m: map<string, string>, als: seq<string>) {
    && (forall i :: 0 <= i < |als| ==> als[i] !in m)
    && (forall i, j :: 0 <= i < j < |als| ==> als[i] != als[j])
  }

  /**
   * The `foreach (string s in aliases) aliases.Add(s, target)` loop: each
   * alias is added in turn, and the first one already present throws,
   * leaving the ones before it in the table.
   */
  function InsertAliases(m: map<string, string>, als: seq<string>, target: string): (r: (Status, map<string, string>))
    decreases |als|
  {
    if als == [] then (Completed, m)
    else if als[0] in m then (Threw(DuplicateKey), m)
    else InsertAliases(m[als[0] := target], als[1..], target)
  }

  /**
   * The loop completes exactly when the aliases are fresh; it then adds each
   * of them pointing at `target`. It never overwrites an entry, only adds
   * entries pointing at `target`, and can fail only with a duplicate key.
   */
  lemma {:induction false} InsertAliasesOutcome(m: map<string, string>, als: seq<string>, target: string)
    ensures InsertAliases(m, als, target).0 == Completed <==> FreshAliases(m, als)
    ensures InsertAliases(m, als, target).0 != Completed ==> InsertAliases(m, als, target).0 == Threw(DuplicateKey)
    ensures var r := InsertAliases(m, als, target).1;
      forall k :: k in m ==> k in r && r[k] == m[k]
    ensures var r := InsertAliases(m, als, target).1;
      forall k :: k in r && k !in m ==> k in als && r[k] == target
    ensures var r := InsertAliases(m, als, target);
      r.0 == Completed ==> forall a :: a in als ==> a in r.1 && r.1[a] == target
    decreases |als|
  {
    if als == [] {
    } else if als[0] in m {
      assert !FreshAliases(m, als);
    } else {
      var m' := m[als[0] := target];
      InsertAliasesOutcome(m', als[1..], target);
      var r := InsertAliases(m', als[1..], target);
      assert InsertAliases(m, als, target) == r;
      if FreshAliases(m, als) {
        forall i | 0 <= i < |als[1..]| ensures als[1..][i] !in m' {
          assert als[1..][i] == als[i + 1];
          assert als[i + 1] != als[0];
        }
        forall i, j | 0 <= i < j < |als[1..]| ensures als[1..][i] != als[1..][j] {
          assert als[1..][i] == als[i + 1] && als[1..][j] == als[j + 1];
        }
        assert FreshAliases(m', als[1..]);
      }
      if FreshAliases(m', als[1..]) {
        forall i | 0 <= i < |als| ensures als[i] !in m {
          if i > 0 { assert als[i] == als[1..][i - 1]; }
        }
        forall i, j | 0 <= i < j < |als| ensures als[i] != als[j] {
          if i == 0 {
            assert als[j] == als[1..][j - 1];
            assert als[j] !in m';
          } else {
            assert als[i] == als[1..][i - 1] && als[j] == als[1..][j - 1];
          }
        }
      }
      forall k | k in r.1 && k !in m ensures k in als && r.1[k] == target {
        if k in m' {
          assert k == als[0];
        } else {
          assert k in als[1..];
        }
      }
      if r.0 == Completed {
        forall a | a in als ensures a in r.1 && r.1[a] == target {
          if a != als[0] {
            assert a in als[1..];
          }
        }
      }
    }
  }

  // ---------------------------------------------------------------------
  // Registration

  /**
   * Lines 82-85 of `AddCommandEvent`: reading `usage[0]` throws on an empty
   * usage array; the "usage not set!" sentinel is replaced by the name.
   */
  function PrepareCommand(ev: Event): (r: Try<Event>)
    ensures r.Ok? <==> |ev.usage| > 0
    ensures r.Ok? ==> r.value == ev.(usage := r.value.usage) && |r.value.usage| == |ev.usage|
    ensures r.Ok? ==> r.value.usage[0] == (if ev.usage[0] == UsageNotSet then ev.name else ev.usage[0])
    ensures r.Ok? ==> r.value.usage[1..] == ev.usage[1..]
  {
    if |ev.usage| == 0 then Throws(IndexOutOfRange)
    else if ev.usage[0] == UsageNotSet then Ok(ev.(usage := ev.usage[0 := ev.name]))
    else Ok(ev)
  }

  datatype Registration = Registration(status: Status, aliases: map<string, string>, events: EventContainer)

  /**
   * `AddCommandEvent`, `AddMentionEvent`, `AddCommandDoneEvent`,
   * `AddJoinEvent`, `AddLeaveEvent` and `AddContinuousEvent`, given the
   * event their configurator produced. Only commands go through
   * `PrepareCommand`; continuous events add no aliases; every other step is
   * the same for all six.
   */
  function Register(aliases: map<string, string>, events: EventContainer, cat: Category, ev: Event): (r: Registration)
    requires events.Valid()
    ensures r.events.Valid()
  {
    var prepared := if cat == Commands then PrepareCommand(ev) else Ok(ev);
    if prepared.Throws? then Registration(Threw(prepared.fault), aliases, events)
    else
      var e := prepared.value;
      var key := Lower(e.name);
      var added := if cat == Continuous then (Completed, aliases) else InsertAliases(aliases, e.aliases, key);
      if added.0.Threw? then Registration(added.0, added.1, events)
      else if key in events.Get(cat).entries then Registration(Threw(DuplicateKey), added.1, events)
      else
        var d := events.Get(cat).Insert(key, e);
        var r := events.Put(cat, d);
        assert forall c': Category :: c' != cat ==> r.Get(c') == events.Get(c');
        Registration(Completed, added.1, r)
  }

  /** What `Register` stores for an event of category `cat`. */
  function Stored(cat: Category, ev: Event): Event
    requires cat == Commands ==> |ev.usage| > 0
  {
    if cat == Commands then PrepareCommand(ev).value else ev
  }

  /** When registration succeeds, and what it leaves in the registry either way. */
  lemma {:induction false} RegisterOutcome(aliases: map<string, string>, events: EventContainer, cat: Category, ev: Event)
    requires events.Valid()
    ensures var r := Register(aliases, events, cat, ev);
      r.status == Completed <==>
        && (cat == Commands ==> |ev.usage| > 0)
        && (cat != Continuous ==> FreshAliases(aliases, ev.aliases))
        && Lower(ev.name) !in events.Get(cat).entries
    ensures var r := Register(aliases, events, cat, ev);
      r.status == Completed ==>
        && r.events.Get(cat).keys == events.Get(cat).keys + [Lower(ev.name)]
        && r.events.Get(cat).entries == events.Get(cat).entries[Lower(ev.name) := Stored(cat, ev)]
    ensures var r := Register(aliases, events, cat, ev);
      r.status != Completed ==> r.events == events
    ensures var r := Register(aliases, events, cat, ev);
      forall c :: c != cat ==> r.events.Get(c) == events.Get(c)
  {
    var r := Register(aliases, events, cat, ev);
    if cat == Commands && |ev.usage| == 0 {
    } else {
      var e := Stored(cat, ev);
      assert e.name == ev.name && e.aliases == ev.aliases;
      if cat != Continuous {
        InsertAliasesOutcome(aliases, ev.aliases, Lower(ev.name));
      }
    }
  }

  /** Registration stores every event under its lower-cased name. */
  lemma RegisterKeepsKeyed(aliases: map<string, string>, events: EventContainer, cat: Category, ev: Event)
    requires events.Valid() && events.Keyed()
    ensures Register(aliases, events, cat, ev).events.Keyed()
  {
    var r := Register(aliases, events, cat, ev);
    if r.status == Completed {
      RegisterOutcome(aliases, events, cat, ev);
      assert Stored(cat, ev).name == ev.name;
      forall c: Category ensures KeyedByLowerName(r.events.Get(c)) {
        if c != cat {
          assert r.events.Get(c) == events.Get(c);
        }
      }
    }
  }

  /** Aliases point at the lower-cased name; continuous events add none; old aliases stay. */
  lemma {:induction false} RegisterAliases(aliases: map<string, string>, events: EventContainer, cat: Category, ev: Event)
    requires events.Valid()
    ensures var r := Register(aliases, events, cat, ev);
      forall a :: a in aliases ==> a in r.aliases && r.aliases[a] == aliases[a]
    ensures var r := Register(aliases, events, cat, ev);
      forall a :: a in r.aliases && a !in aliases ==> a in ev.aliases && r.aliases[a] == Lower(ev.name)
    ensures var r := Register(aliases, events, cat, ev);
      r.status == Completed && cat != Continuous ==>
        forall a :: a in ev.aliases ==> a in r.aliases && r.aliases[a] == Lower(ev.name)
    ensures cat == Continuous ==> Register(aliases, events, cat, ev).aliases == aliases
  {
    if !(cat == Commands && |ev.usage| == 0) {
      var e := Stored(cat, ev);
      assert e.name == ev.name && e.aliases == ev.aliases;
      if cat != Continuous {
        InsertAliasesOutcome(aliases, ev.aliases, Lower(ev.name));
      }
    }
  }

  /** Only commands have the usage sentinel replaced by their name. */
  lemma UsageSentinel(cat: Category, ev: Event)
    requires |ev.usage| > 0 && ev.usage[0] == UsageNotSet
    ensures cat == Commands ==> Stored(cat, ev).usage == ev.usage[0 := ev.name]
    ensures cat != Commands ==> Stored(cat, ev).usage == ev.usage
  {
  }

  /** A command left with the default usage lists its own name as usage. */
  lemma DefaultUsageIsName(name: string)
    ensures Stored(Commands, NewEvent().(name := name)).usage == [name]
  {
  }
}
