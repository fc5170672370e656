/**
 * `ListCommands` and the two `CommandsUsed` overloads of
 * IA/Events/EventSystem.cs.
 *
 * `ListCommands` probes every command in registration order, groups the
 * names of those that are enabled and permitted under their module's name
 * ("Misc" for commands without a module), drops "Misc" when it stayed
 * empty, and renders each group as a bold heading followed by every name
 * and ", ". The `OrderBy` calls and the `Remove` on the output string
 * discard their results, so groups keep their first-use order, names keep
 * registration order, and the last ", " of each group stays.
 */
module Listing {
  import opened Base
  import opened Events
  import opened Registry
  import opened State
  import opened EnabledState

  const Misc: string := "Misc"

  /** The group a listed command goes to: its module's name, or "Misc". */
  function GroupOf(ev: Event): string {
    if ev.eventModule.Some? then ev.eventModule.value.name else Misc
  }

  /** The grouping dictionary while commands are being collected: "Misc" is its first key. */
  ghost predicate Collecting(g: Dict<seq<string>>) {
    g.Valid() && |g.keys| > 0 && g.keys[0] == Misc
  }

  /** `moduleEvents` as created at lines 244-245. */
  function InitialGroups(): (g: Dict<seq<string>>)
    ensures Collecting(g) && g.keys == [Misc] && g.entries == map[Misc := []]
  {
    EmptyDict<seq<string>>().Insert(Misc, [])
  }

  /**
   * Lines 252-266: the command's name is appended to its group, which is
   * created at the end of the order on first use. The tier test at line 258
   * repeats the one at line 250 and always holds here.
   */
  function AddToGroup(g: Dict<seq<string>>, ev: Event): (r: Dict<seq<string>>)
    requires Collecting(g)
    ensures Collecting(r)
    ensures GroupOf(ev) in r.entries
    ensures r.keys == if GroupOf(ev) in g.entries then g.keys else g.keys + [GroupOf(ev)]
    ensures forall k :: k in r.entries && k != GroupOf(ev) ==> k in g.entries && r.entries[k] == g.entries[k]
    ensures r.entries[GroupOf(ev)] == (if GroupOf(ev) in g.entries then g.entries[GroupOf(ev)] else []) + [ev.name]
  {
    var k := GroupOf(ev);
    var g' := if k in g.entries then g else g.Insert(k, []);
    g'.Set(k, g'.entries[k] + [ev.name])
  }


  /**
   * The lookups of the loop at lines 248-268: one `IsEnabled` per command of
   * `keys`, in order, each on the world the previous one left. The first
   * exception ends the loop; otherwise the answers come back in order.
   */
  function ProbeAll(w: World, keys: seq<string>, id: ulong): (r: (Try<seq<bool>>, World))
    requires Valid(w)
    requires forall k :: k in keys ==> k in w.events.commands.entries
    ensures Valid(r.1)
    ensures r.1.events.commands.keys == w.events.commands.keys
    ensures r.0.Ok? ==> |r.0.value| == |keys|
    decreases |keys|
  {
    assert w.events.Get(Commands) == w.events.commands;
    if keys == [] then (Ok([]), w)
    else
      var probe := IsEnabled(w, Commands, keys[0], id);
      if probe.0.Throws? then (Throws(probe.0.fault), probe.1)
      else
        assert probe.1.events.Get(Commands) == probe.1.events.commands;
        assert forall k :: k in keys[1..] ==> k in keys;
        var rest := ProbeAll(probe.1, keys[1..], id);
        if rest.0.Throws? then rest else (Ok([probe.0.value] + rest.0.value), rest.1)
  }

  /** The lookups of a listing change no field but the events' caches and the store, and keep every key. */
  lemma {:induction false} ProbeAllFrame(w: World, keys: seq<string>, id: ulong)
    requires Valid(w)
    requires forall k :: k in keys ==> k in w.events.commands.entries
    ensures var r := ProbeAll(w, keys, id);
      && r.1 == w.(events := r.1.events, store := r.1.store)
      && (forall c :: r.1.events.Get(c).keys == w.events.Get(c).keys)
      && SameDefinitions(w.events, r.1.events)
    decreases |keys|
  {
    if keys != [] {
      assert w.events.Get(Commands) == w.events.commands;
      var probe := IsEnabled(w, Commands, keys[0], id);
      if probe.0.Ok? {
        assert probe.1.events.Get(Commands) == probe.1.events.commands;
        assert forall k :: k in keys[1..] ==> k in keys;
        ProbeAllFrame(probe.1, keys[1..], id);
        SameDefinitionsTrans(w.events, probe.1.events, ProbeAll(probe.1, keys[1..], id).1.events);
      }
    }
  }

  /**
   * The events of `keys` whose lookup answered true and whose accessibility
   * `tier` reaches (the test at line 250), in order.
   */
  function Select(d: Dict<Event>, keys: seq<string>, answers: seq<bool>, tier: Accessibility): seq<Event>
    requires |answers| == |keys|
    requires forall k :: k in keys ==> k in d.entries
  {
    if keys == [] then []
    else
      assert forall k :: k in keys[1..] ==> k in keys;
      (if answers[0] && AtLeast(tier, d.entries[keys[0]].accessibility) then [d.entries[keys[0]]] else [])
        + Select(d, keys[1..], answers[1..], tier)
  }

  /** Lines 270-273: "Misc" is dropped when no command went to it. */
  function DropEmptyMisc(g: Dict<seq<string>>): (r: Dict<seq<string>>)
    requires Collecting(g)
    ensures r.Valid()
    ensures Misc in r.entries <==> g.entries[Misc] != []
    ensures forall k :: k != Misc ==> (k in r.entries <==> k in g.entries)
    ensures forall k :: k in r.entries ==> r.entries[k] == g.entries[k]
    ensures r.keys == if g.entries[Misc] == [] then g.keys[1..] else g.keys
  {
    if g.entries[Misc] == [] then
      assert forall i :: 1 <= i < |g.keys| ==> g.keys[i] != Misc;
      assert forall k :: k in g.keys[1..] <==> k in g.keys && k != Misc;
      Dict(g.keys[1..], g.entries - {Misc})
    else g
  }

  /** `items.Value[i] + ", "` for every name of a group. */
  function Items(names: seq<string>): string {
    if names == [] then "" else names[0] + ", " + Items(names[1..])
  }

  /** One group: a bold heading, the names, and a blank line. */
  function Section(key: string, names: seq<string>): string {
    "**" + key + "**\n" + Items(names) + "\n\n"
  }

  /** The loop at lines 285-294 over the groups in order. */
  function Render(g: Dict<seq<string>>, keys: seq<string>): string
    requires forall k :: k in keys ==> k in g.entries
  {
    if keys == [] then "" else Section(keys[0], g.entries[keys[0]]) + Render(g, keys[1..])
  }


  /**
   * The grouping in the loop at lines 248-268: each command whose lookup
   * answered true and whose accessibility `tier` reaches has its name
   * appended to its group.
   */
  method GroupCommands(d: Dict<Event>, keys: seq<string>, answers: seq<bool>, tier: Accessibility)
    returns (g: Dict<seq<string>>)
    requires |answers| == |keys|
    requires forall k :: k in keys ==> k in d.entries
    ensures Collecting(g)
    ensures g == GroupAll(InitialGroups(), Select(d, keys, answers, tier))
  {
    g := InitialGroups();
    ghost var grouped := GroupAll(g, Select(d, keys, answers, tier));
    var i := 0;
    while i < |keys|
      invariant 0 <= i <= |keys|
      invariant Collecting(g)
      invariant forall k :: k in keys[i..] ==> k in d.entries
      invariant GroupAll(g, Select(d, keys[i..], answers[i..], tier)) == grouped
    {
      var ev := d.entries[keys[i]];
      GroupStep(g, d, keys, answers, tier, i);
      if answers[i] && AtLeast(tier, ev.accessibility) {
        g := AddToGroup(g, ev);
      }
      i := i + 1;
    }
  }

  /** Grouping the selection from command `i` on is grouping command `i`, if shown, then the rest. */
  lemma GroupStep(g: Dict<seq<string>>, d: Dict<Event>, keys: seq<string>, answers: seq<bool>, tier: Accessibility, i: nat)
    requires Collecting(g) && |answers| == |keys| && i < |keys|
    requires forall k :: k in keys[i..] ==> k in d.entries
    ensures keys[i] in d.entries && forall k :: k in keys[i + 1..] ==> k in d.entries
    ensures var ev := d.entries[keys[i]];
      GroupAll(g, Select(d, keys[i..], answers[i..], tier)) ==
      GroupAll(if answers[i] && AtLeast(tier, ev.accessibility) then AddToGroup(g, ev) else g,
               Select(d, keys[i + 1..], answers[i + 1..], tier))
  {
    var ks, ans := keys[i..], answers[i..];
    assert ks[0] == keys[i] && ans[0] == answers[i];
    assert ks[1..] == keys[i + 1..] && ans[1..] == answers[i + 1..];
    var ev := d.entries[keys[i]];
    SelectStep(d, ks, ans, tier);
    var rest := Select(d, ks[1..], ans[1..], tier);
    if answers[i] && AtLeast(tier, ev.accessibility) {
      GroupAllCons(g, ev, rest);
    } else {
      assert [] + rest == rest;
    }
  }

  /** The loops at lines 284-294: every group in order, each name followed by ", ". */
  method RenderGroups(g: Dict<seq<string>>) returns (output: string)
    requires g.Valid()
    ensures output == Render(g, g.keys)
  {
    output := "";
    ghost var rendered := Render(g, g.keys);
    var j := 0;
    while j < |g.keys|
      invariant 0 <= j <= |g.keys|
      invariant output + Render(g, g.keys[j..]) == rendered
    {
      var names := g.entries[g.keys[j]];
      ghost var before := output;
      output := output + "**" + g.keys[j] + "**\n";
      ghost var section := output + Items(names);
      var i := 0;
      while i < |names|
        invariant 0 <= i <= |names|
        invariant output + Items(names[i..]) == section
      {
        ItemStep(output, names, i);
        output := output + names[i] + ", ";
        i := i + 1;
      }
      assert names[i..] == [] && output + "" == output;
      assert output == section;
      output := output + "\n\n";
      RenderStep(before, g, g.keys, j);
      j := j + 1;
    }
    assert g.keys[j..] == [];
  }

  /** Appending name `i` and ", " before the names after it is appending the names from `i` on. */
  lemma ItemStep(prefix: string, names: seq<string>, i: nat)
    requires i < |names|
    ensures prefix + names[i] + ", " + Items(names[i + 1..]) == prefix + Items(names[i..])
  {
    assert names[i..][0] == names[i] && names[i..][1..] == names[i + 1..];
    SeqAssoc(prefix + names[i], ", ", Items(names[i + 1..]));
    SeqAssoc(prefix, names[i], ", " + Items(names[i + 1..]));
  }

  /** Appending group `j`'s section piece by piece, then the groups after it, is appending the groups from `j` on. */
  lemma RenderStep(before: string, g: Dict<seq<string>>, keys: seq<string>, j: nat)
    requires j < |keys| && forall k :: k in keys ==> k in g.entries
    ensures forall k :: k in keys[j..] ==> k in g.entries
    ensures before + "**" + keys[j] + "**\n" + Items(g.entries[keys[j]]) + "\n\n" + Render(g, keys[j + 1..])
      == before + Render(g, keys[j..])
  {
    assert forall k :: k in keys[j..] ==> k in keys;
    assert keys[j..][0] == keys[j] && keys[j..][1..] == keys[j + 1..];
    SectionAppended(before, keys[j], g.entries[keys[j]], Render(g, keys[j + 1..]));
  }

  /** Appending a section piece by piece, then the rest, is appending the section and then the rest. */
  lemma SectionAppended(before: string, key: string, names: seq<string>, rest: string)
    ensures before + "**" + key + "**\n" + Items(names) + "\n\n" + rest == before + (Section(key, names) + rest)
  {
  }

  /**
   * `ListCommands(e)`: the listing, or the exception a lookup threw, and the
   * world after the lookups. The source groups each command right after its
   * lookup; here the lookups run first and the grouping after them, which
   * gives the same listing because grouping reads only a command's name,
   * module and accessibility, and lookups change none of them.
   */
  function ListCommands(w: World, e: Message): (r: (Try<string>, World))
    requires Valid(w)
    ensures Valid(r.1)
    ensures r.1 == w.(events := r.1.events, store := r.1.store)
    ensures forall c :: r.1.events.Get(c).keys == w.events.Get(c).keys
    ensures SameDefinitions(w.events, r.1.events)
  {
    assert w.events.Get(Commands) == w.events.commands;
    var d := w.events.commands;
    ProbeAllFrame(w, d.keys, e.channelId);
    var probes := ProbeAll(w, d.keys, e.channelId);
    if probes.0.Throws? then (Throws(probes.0.fault), probes.1)
    else
      var g := DropEmptyMisc(GroupAll(InitialGroups(), Select(d, d.keys, probes.0.value, GetUserAccessibility(w.developers, e))));
      (Ok(Render(g, g.keys)), probes.1)
  }

  // ---------------------------------------------------------------------
  // What the listing holds

  /** The lookup `ListCommands` makes for `key`, evaluated on the world it started from. */
  function Probe(w: World, key: string, id: ulong): Try<bool>
    requires Valid(w) && key in w.events.commands.entries
  {
    assert w.events.Get(Commands) == w.events.commands;
    EnabledAnswer(w, Commands, key, id)
  }

  /** The command under `key` is listed: enabled in the channel and permitted to `tier`. */
  predicate Shown(w: World, key: string, tier: Accessibility, id: ulong)
    requires Valid(w) && key in w.events.commands.entries
  {
    Probe(w, key, id) == Ok(true) && AtLeast(tier, w.events.commands.entries[key].accessibility)
  }

  /**
   * What each lookup of `keys` answers when asked on `w` itself: the first
   * exception, or every answer in order.
   */
  function ProbeResults(w: World, keys: seq<string>, id: ulong): (r: Try<seq<bool>>)
    requires Valid(w)
    requires forall k :: k in keys ==> k in w.events.commands.entries
    ensures r.Ok? ==> |r.value| == |keys|
    decreases |keys|
  {
    if keys == [] then Ok([])
    else
      assert forall k :: k in keys[1..] ==> k in keys;
      match Probe(w, keys[0], id)
      case Throws(f) => Throws(f)
      case Ok(b) =>
        var rest := ProbeResults(w, keys[1..], id);
        if rest.Throws? then rest else Ok([b] + rest.value)
  }

  /**
   * The lookups of `keys` all succeed exactly when no single lookup throws,
   * and then answer, in order, whether each command is enabled.
   */
  lemma {:induction false} ProbeResultsMeaning(w: World, keys: seq<string>, id: ulong)
    requires Valid(w)
    requires forall k :: k in keys ==> k in w.events.commands.entries
    ensures ProbeResults(w, keys, id).Ok? <==> forall k :: k in keys ==> Probe(w, k, id).Ok?
    ensures var r := ProbeResults(w, keys, id);
      r.Ok? ==> forall i :: 0 <= i < |keys| ==> r.value[i] == (Probe(w, keys[i], id) == Ok(true))
    decreases |keys|
  {
    if keys != [] {
      assert forall k :: k in keys <==> k == keys[0] || k in keys[1..];
      ProbeResultsMeaning(w, keys[1..], id);
      var r := ProbeResults(w, keys, id);
      if r.Ok? {
        var rest := ProbeResults(w, keys[1..], id);
        assert r.value == [Probe(w, keys[0], id).value] + rest.value;
        forall i | 0 <= i < |keys| ensures r.value[i] == (Probe(w, keys[i], id) == Ok(true)) {
          if i > 0 {
            assert r.value[i] == rest.value[i - 1] && keys[i] == keys[1..][i - 1];
          }
        }
      }
    }
  }

  /** Every event of `evs`, in order, added to its group. */
  function GroupAll(g: Dict<seq<string>>, evs: seq<Event>): (r: Dict<seq<string>>)
    requires Collecting(g)
    ensures Collecting(r)
    decreases |evs|
  {
    if evs == [] then g else GroupAll(AddToGroup(g, evs[0]), evs[1..])
  }

  /** The names of the events of `evs` that go to group `k`, in order. */
  function NamesIn(evs: seq<Event>, k: string): seq<string> {
    if evs == [] then [] else (if GroupOf(evs[0]) == k then [evs[0].name] else []) + NamesIn(evs[1..], k)
  }

  /** Some event of `evs` goes to group `k`. */
  predicate UsesGroup(evs: seq<Event>, k: string) {
    exists i :: 0 <= i < |evs| && GroupOf(evs[i]) == k
  }

  /** Grouping keeps the groups there were and adds one per group used. */
  lemma {:induction false} GroupAllGroups(g: Dict<seq<string>>, evs: seq<Event>)
    requires Collecting(g)
    ensures forall k :: k in GroupAll(g, evs).entries <==> k in g.entries || UsesGroup(evs, k)
    decreases |evs|
  {
    if evs != [] {
      var g1 := AddToGroup(g, evs[0]);
      GroupAllGroups(g1, evs[1..]);
      var r := GroupAll(g1, evs[1..]);
      assert GroupAll(g, evs) == r;
      forall k ensures k in r.entries <==> k in g.entries || UsesGroup(evs, k) {
        UsesGroupCons(evs, k);
      }
    }
  }

  /** Grouping never reorders the groups there were: new groups go after them. */
  lemma {:induction false} GroupAllOrder(g: Dict<seq<string>>, evs: seq<Event>)
    requires Collecting(g)
    ensures IsPrefix(g.keys, GroupAll(g, evs).keys)
    decreases |evs|
  {
    if evs == [] {
      assert g.keys[..|g.keys|] == g.keys;
    } else {
      var g1 := AddToGroup(g, evs[0]);
      GroupAllOrder(g1, evs[1..]);
      assert GroupAll(g, evs) == GroupAll(g1, evs[1..]);
      assert IsPrefix(g.keys, g1.keys) by {
        assert g1.keys[..|g.keys|] == g.keys;
      }
      PrefixTrans(g.keys, g1.keys, GroupAll(g1, evs[1..]).keys);
    }
  }

  predicate IsPrefix<T(==)>(a: seq<T>, b: seq<T>) {
    |a| <= |b| && b[..|a|] == a
  }

  lemma PrefixTrans<T>(a: seq<T>, b: seq<T>, c: seq<T>)
    requires IsPrefix(a, b) && IsPrefix(b, c)
    ensures IsPrefix(a, c)
  {
    assert c[..|a|] == c[..|b|][..|a|];
  }

  /** A group is used by `evs` when the first event goes to it or the rest use it. */
  lemma UsesGroupCons(evs: seq<Event>, k: string)
    requires evs != []
    ensures UsesGroup(evs, k) <==> GroupOf(evs[0]) == k || UsesGroup(evs[1..], k)
  {
    if UsesGroup(evs[1..], k) {
      var i :| 0 <= i < |evs[1..]| && GroupOf(evs[1..][i]) == k;
      assert GroupOf(evs[i + 1]) == k;
    }
    if UsesGroup(evs, k) && GroupOf(evs[0]) != k {
      var i :| 0 <= i < |evs| && GroupOf(evs[i]) == k;
      assert GroupOf(evs[1..][i - 1]) == k;
    }
  }

  /** Each group ends with the names of the events that go to it, in their order. */
  lemma {:induction false} GroupAllNames(g: Dict<seq<string>>, evs: seq<Event>)
    requires Collecting(g)
    ensures forall k :: k in GroupAll(g, evs).entries ==>
      GroupAll(g, evs).entries[k] == (if k in g.entries then g.entries[k] else []) + NamesIn(evs, k)
    decreases |evs|
  {
    if evs != [] {
      var g1 := AddToGroup(g, evs[0]);
      GroupAllNames(g1, evs[1..]);
      var r := GroupAll(g1, evs[1..]);
      assert GroupAll(g, evs) == r;
      forall k | k in r.entries
        ensures r.entries[k] == (if k in g.entries then g.entries[k] else []) + NamesIn(evs, k)
      {
        var before := if k in g.entries then g.entries[k] else [];
        var mid := if k in g1.entries then g1.entries[k] else [];
        assert r.entries[k] == mid + NamesIn(evs[1..], k);
        if GroupOf(evs[0]) == k {
          assert mid == before + [evs[0].name];
          assert NamesIn(evs, k) == [evs[0].name] + NamesIn(evs[1..], k);
          SeqAssoc(before, [evs[0].name], NamesIn(evs[1..], k));
        } else {
          assert mid == before;
          assert NamesIn(evs, k) == NamesIn(evs[1..], k);
        }
      }
    }
  }

  /**
   * The lookups of a listing answer what each would have answered first:
   * lookups of different commands do not interfere.
   */
  lemma {:induction false} ProbeAllAnswers(w: World, keys: seq<string>, id: ulong)
    requires Valid(w) && w.events.Keyed()
    requires forall k :: k in keys ==> k in w.events.commands.entries
    requires Distinct(keys)
    ensures ProbeAll(w, keys, id).0 == ProbeResults(w, keys, id)
    decreases |keys|
  {
    if keys != [] {
      assert w.events.Get(Commands) == w.events.commands;
      ProbeStep(w, keys, id);
      if Probe(w, keys[0], id).Ok? {
        ProbeAllAnswers(IsEnabled(w, Commands, keys[0], id).1, keys[1..], id);
      }
    }
  }

  /**
   * After the first lookup of a listing, the remaining commands are still
   * there, still distinct, and answer as they would have from the start.
   */
  lemma ProbeStep(w: World, keys: seq<string>, id: ulong)
    requires Valid(w) && w.events.Keyed() && keys != []
    requires forall k :: k in keys ==> k in w.events.commands.entries
    requires Distinct(keys)
    ensures var w1 := IsEnabled(w, Commands, keys[0], id).1;
      && Valid(w1) && w1.events.Keyed()
      && (forall k :: k in keys[1..] ==> k in w1.events.commands.entries && k in w.events.commands.entries)
      && Distinct(keys[1..])
      && ProbeResults(w1, keys[1..], id) == ProbeResults(w, keys[1..], id)
  {
    assert w.events.Get(Commands) == w.events.commands;
    var w1 := IsEnabled(w, Commands, keys[0], id).1;
    assert w1.events.Get(Commands) == w1.events.commands;
    forall k | k in keys[1..]
      ensures k in w1.events.commands.entries && k in w.events.commands.entries
      ensures Probe(w1, k, id) == Probe(w, k, id)
    {
      var j :| 0 <= j < |keys[1..]| && keys[1..][j] == k;
      assert keys[j + 1] == k;
      ProbeIndependent(w, keys[0], k, id);
    }
    ProbeResultsFrame(w1, w, keys[1..], id);
    LookupKeepsKeyed(w, Commands, keys[0], id);
  }

  /** `ProbeResults` depends only on what the lookups of `keys` answer. */
  lemma {:induction false} ProbeResultsFrame(v: World, w: World, keys: seq<string>, id: ulong)
    requires Valid(v) && Valid(w)
    requires forall k :: k in keys ==> k in w.events.commands.entries && k in v.events.commands.entries
    requires forall k :: k in keys ==> Probe(v, k, id) == Probe(w, k, id)
    ensures ProbeResults(v, keys, id) == ProbeResults(w, keys, id)
    decreases |keys|
  {
    if keys != [] {
      assert forall k :: k in keys[1..] ==> k in keys;
      ProbeResultsFrame(v, w, keys[1..], id);
    }
  }

  /** An event is selected exactly when it is under one of `keys` whose answer is true and whose tier is reached. */
  lemma {:induction false} SelectMembers(d: Dict<Event>, keys: seq<string>, answers: seq<bool>, tier: Accessibility, ev: Event)
    requires |answers| == |keys|
    requires forall k :: k in keys ==> k in d.entries
    ensures ev in Select(d, keys, answers, tier) <==>
      exists i :: 0 <= i < |keys| && answers[i] && AtLeast(tier, d.entries[keys[i]].accessibility) && d.entries[keys[i]] == ev
    decreases |keys|
  {
    if keys != [] {
      assert forall k :: k in keys[1..] ==> k in keys;
      SelectMembers(d, keys[1..], answers[1..], tier, ev);
      var head := if answers[0] && AtLeast(tier, d.entries[keys[0]].accessibility) then [d.entries[keys[0]]] else [];
      assert Select(d, keys, answers, tier) == head + Select(d, keys[1..], answers[1..], tier);
      if exists i :: 0 <= i < |keys| && answers[i] && AtLeast(tier, d.entries[keys[i]].accessibility) && d.entries[keys[i]] == ev {
        var i :| 0 <= i < |keys| && answers[i] && AtLeast(tier, d.entries[keys[i]].accessibility) && d.entries[keys[i]] == ev;
        if i > 0 {
          assert keys[1..][i - 1] == keys[i] && answers[1..][i - 1] == answers[i];
        }
      }
      if ev in Select(d, keys[1..], answers[1..], tier) {
        var i :| 0 <= i < |keys[1..]| && answers[1..][i] && AtLeast(tier, d.entries[keys[1..][i]].accessibility) && d.entries[keys[1..][i]] == ev;
        assert keys[i + 1] == keys[1..][i] && answers[i + 1] == answers[1..][i];
      }
    }
  }

  /** The answers `a` followed by those of a later run of lookups, unless that run threw. */
  function Prepend(a: seq<bool>, r: (Try<seq<bool>>, World)): (p: (Try<seq<bool>>, World))
    ensures p.1 == r.1
    ensures p.0.Throws? <==> r.0.Throws?
    ensures r.0.Throws? ==> p.0 == r.0
    ensures r.0.Ok? ==> |p.0.value| == |a| + |r.0.value| && p.0.value[..|a|] == a && p.0.value[|a|..] == r.0.value
  {
    if r.0.Throws? then r else (Ok(a + r.0.value), r.1)
  }

  /** One lookup of a listing, then the rest of them on the world it left. */
  lemma ProbeAllStep(w: World, keys: seq<string>, id: ulong)
    requires Valid(w) && keys != []
    requires forall k :: k in keys ==> k in w.events.commands.entries
    ensures keys[0] in w.events.Get(Commands).entries
    ensures var probe := IsEnabled(w, Commands, keys[0], id);
      && (forall k :: k in keys[1..] ==> k in probe.1.events.commands.entries)
      && ProbeAll(w, keys, id) ==
           if probe.0.Throws? then (Throws(probe.0.fault), probe.1)
           else Prepend([probe.0.value], ProbeAll(probe.1, keys[1..], id))
  {
    assert w.events.Get(Commands) == w.events.commands;
    var probe := IsEnabled(w, Commands, keys[0], id);
    assert probe.1.events.Get(Commands) == probe.1.events.commands;
    assert forall k :: k in keys[1..] ==> k in keys;
  }

  /**
   * One turn of a loop that has collected `answers` for `keys[..i]`: the
   * lookup of `keys[i]`, then the rest on the world it left, or its fault.
   */
  lemma ProbeLoopStep(w: World, keys: seq<string>, i: int, answers: seq<bool>, id: ulong)
    requires Valid(w) && 0 <= i < |keys|
    requires forall k :: k in keys ==> k in w.events.commands.entries
    ensures keys[i] in w.events.Get(Commands).entries
    ensures var probe := IsEnabled(w, Commands, keys[i], id);
      && (forall k :: k in keys ==> k in probe.1.events.commands.entries)
      && Prepend(answers, ProbeAll(w, keys[i..], id)) ==
           if probe.0.Throws? then (Throws(probe.0.fault), probe.1)
           else Prepend(answers + [probe.0.value], ProbeAll(probe.1, keys[i + 1..], id))
  {
    assert forall k :: k in keys[i..] ==> k in keys;
    ProbeAllStep(w, keys[i..], id);
    assert keys[i..][0] == keys[i] && keys[i..][1..] == keys[i + 1..];
    var probe := IsEnabled(w, Commands, keys[i], id);
    assert probe.1.events.Get(Commands) == probe.1.events.commands;
    if probe.0.Ok? {
      PrependSnoc(answers, probe.0.value, ProbeAll(probe.1, keys[i + 1..], id));
    }
  }

  /** Prepending answers one at a time is prepending them all at once. */
  lemma PrependSnoc(a: seq<bool>, b: bool, r: (Try<seq<bool>>, World))
    ensures Prepend(a, Prepend([b], r)) == Prepend(a + [b], r)
  {
    if r.0.Ok? {
      SeqAssoc(a, [b], r.0.value);
    }
  }

  /** `GroupAll` on a non-empty sequence of events. */
  lemma GroupAllCons(g: Dict<seq<string>>, ev: Event, rest: seq<Event>)
    requires Collecting(g)
    ensures GroupAll(g, [ev] + rest) == GroupAll(AddToGroup(g, ev), rest)
  {
    assert ([ev] + rest)[0] == ev;
    assert ([ev] + rest)[1..] == rest;
  }

  /** `Select` on a non-empty run of keys. */
  lemma SelectStep(d: Dict<Event>, keys: seq<string>, answers: seq<bool>, tier: Accessibility)
    requires |answers| == |keys| && keys != []
    requires forall k :: k in keys ==> k in d.entries
    ensures forall k :: k in keys[1..] ==> k in d.entries
    ensures Select(d, keys, answers, tier) ==
      (if answers[0] && AtLeast(tier, d.entries[keys[0]].accessibility) then [d.entries[keys[0]]] else [])
        + Select(d, keys[1..], answers[1..], tier)
  {
    assert forall k :: k in keys[1..] ==> k in keys;
  }

  /**
   * When no lookup throws, `ListCommands` renders, grouped, exactly the
   * commands that are enabled in the channel and permitted to the author;
   * otherwise it throws the first lookup's exception.
   */
  lemma ListCommandsOutput(w: World, e: Message)
    requires Valid(w) && w.events.Keyed()
    ensures var d := w.events.commands;
      match ProbeResults(w, d.keys, e.channelId)
      case Throws(f) => ListCommands(w, e).0 == Throws(f)
      case Ok(answers) =>
        var g := DropEmptyMisc(GroupAll(InitialGroups(), Select(d, d.keys, answers, GetUserAccessibility(w.developers, e))));
        ListCommands(w, e).0 == Ok(Render(g, g.keys))
  {
    assert w.events.Get(Commands) == w.events.commands;
    assert w.events.commands.Valid();
    ProbeAllAnswers(w, w.events.commands.keys, e.channelId);
  }

  /** `ListCommands` throws exactly when the lookup of some command does. */
  lemma ListCommandsThrows(w: World, e: Message)
    requires Valid(w) && w.events.Keyed()
    ensures ListCommands(w, e).0.Throws? <==>
      exists k :: k in w.events.commands.keys && Probe(w, k, e.channelId).Throws?
  {
    ListCommandsOutput(w, e);
    ProbeResultsMeaning(w, w.events.commands.keys, e.channelId);
  }

  /**
   * A command is listed exactly when its lookup answers true and the
   * author's tier reaches its accessibility.
   */
  lemma ListedExactly(w: World, keys: seq<string>, id: ulong, answers: seq<bool>, tier: Accessibility, ev: Event)
    requires Valid(w)
    requires forall k :: k in keys ==> k in w.events.commands.entries
    requires ProbeResults(w, keys, id) == Ok(answers)
    ensures ev in Select(w.events.commands, keys, answers, tier) <==>
      exists k :: k in keys && Shown(w, k, tier, id) && w.events.commands.entries[k] == ev
  {
    ProbeResultsMeaning(w, keys, id);
    SelectMembers(w.events.commands, keys, answers, tier, ev);
  }

  /**
   * The sections of a listing are the groups its commands use: "Misc" only
   * when a listed command has no module (or one named "Misc"), and every
   * section holds its commands' names in registration order.
   */
  lemma ListingGroups(evs: seq<Event>)
    ensures var g := DropEmptyMisc(GroupAll(InitialGroups(), evs));
      && (Misc in g.entries <==> UsesGroup(evs, Misc))
      && (forall k :: k in g.entries <==> UsesGroup(evs, k))
      && (forall k :: k in g.entries ==> g.entries[k] == NamesIn(evs, k))
  {
    var grouped := GroupAll(InitialGroups(), evs);
    GroupAllGroups(InitialGroups(), evs);
    GroupAllNames(InitialGroups(), evs);
    NamesInEmpty(evs, Misc);
    assert grouped.entries[Misc] == NamesIn(evs, Misc);
  }

  /**
   * Every listed command appears, by name, in the section of its own group:
   * its module's, or "Misc" when it has none.
   */
  lemma ListedUnderItsGroup(evs: seq<Event>, i: nat)
    requires i < |evs|
    ensures var g := DropEmptyMisc(GroupAll(InitialGroups(), evs));
      GroupOf(evs[i]) in g.entries && evs[i].name in g.entries[GroupOf(evs[i])]
  {
    ListingGroups(evs);
    assert UsesGroup(evs, GroupOf(evs[i]));
    NamesInHas(evs, i);
  }

  /** An event's name is among the names of its own group. */
  lemma {:induction false} NamesInHas(evs: seq<Event>, i: nat)
    requires i < |evs|
    ensures evs[i].name in NamesIn(evs, GroupOf(evs[i]))
    decreases |evs|
  {
    if i > 0 {
      assert evs[1..][i - 1] == evs[i];
      NamesInHas(evs[1..], i - 1);
    }
  }

  /** A group receives names exactly when some event goes to it. */
  lemma {:induction false} NamesInEmpty(evs: seq<Event>, k: string)
    ensures NamesIn(evs, k) == [] <==> !UsesGroup(evs, k)
    decreases |evs|
  {
    if evs != [] {
      NamesInEmpty(evs[1..], k);
      if UsesGroup(evs[1..], k) {
        var i :| 0 <= i < |evs[1..]| && GroupOf(evs[1..][i]) == k;
        assert GroupOf(evs[i + 1]) == k;
      }
      if UsesGroup(evs, k) && GroupOf(evs[0]) != k {
        var i :| 0 <= i < |evs| && GroupOf(evs[i]) == k;
        assert GroupOf(evs[1..][i - 1]) == k;
      }
    }
  }

  /**
   * Every name of a group is followed by ", ", the last one included: the
   * `Remove` at line 292 is discarded. A group's section therefore ends
   * with ", \n\n" whenever it lists a name.
   */
  lemma {:induction false} TrailingSeparatorKept(names: seq<string>)
    ensures |Items(names)| == ItemsLength(names)
    ensures names != [] ==> |Items(names)| >= 2 && Items(names)[|Items(names)| - 2..] == ", "
    decreases |names|
  {
    if names != [] {
      TrailingSeparatorKept(names[1..]);
      if names[1..] != [] {
        var rest := Items(names[1..]);
        assert Items(names) == (names[0] + ", ") + rest;
        assert Items(names)[|Items(names)| - 2..] == rest[|rest| - 2..];
      }
    }
  }

  /** Each name contributes its own length plus two for the separator. */
  function ItemsLength(names: seq<string>): nat {
    if names == [] then 0 else |names[0]| + 2 + ItemsLength(names[1..])
  }

  /** A section of a group is its heading, its names with separators, and a blank line. */
  lemma SectionShape(key: string, names: seq<string>)
    requires names != []
    ensures var s := Section(key, names);
      && StartsWith(s, "**" + key + "**\n")
      && |s| == |key| + 5 + ItemsLength(names) + 2
      && s[|s| - 4..] == ", \n\n"
  {
    TrailingSeparatorKept(names);
    var items := Items(names);
    var s := Section(key, names);
    assert s == ("**" + key + "**\n") + items + "\n\n";
    assert s[..|"**" + key + "**\n"|] == "**" + key + "**\n";
    assert s[|s| - 4..] == items[|items| - 2..] + "\n\n";
  }

  // ---------------------------------------------------------------------
  // CommandsUsed

  /** The loop at lines 346-351: `output += e.CommandUsed` in unchecked C# `int` arithmetic. */
  function UsedTotal(d: Dict<Event>, keys: seq<string>, acc: int32): int32
    requires forall k :: k in keys ==> k in d.entries
    decreases |keys|
  {
    if keys == [] then acc else UsedTotal(d, keys[1..], Wrap32(acc + d.entries[keys[0]].commandUsed))
  }

  /** The plain sum of the usage counters of `keys`. */
  function UsedSum(d: Dict<Event>, keys: seq<string>): int
    requires forall k :: k in keys ==> k in d.entries
  {
    if keys == [] then 0 else d.entries[keys[0]].commandUsed + UsedSum(d, keys[1..])
  }

  /** `CommandsUsed()`: the counters of all commands, summed with 32-bit wrap-around. */
  function CommandsUsed(w: World): (r: int32)
    requires Valid(w)
    ensures r == Wrap32(UsedSum(w.events.commands, w.events.commands.keys))
  {
    assert w.events.Get(Commands) == w.events.commands;
    UsedTotalIsWrappedSum(w.events.commands, w.events.commands.keys, 0);
    UsedTotal(w.events.commands, w.events.commands.keys, 0)
  }

  /** Summing with wrap-around at each step is wrapping the plain sum once. */
  lemma {:induction false} UsedTotalIsWrappedSum(d: Dict<Event>, keys: seq<string>, acc: int32)
    requires forall k :: k in keys ==> k in d.entries
    ensures UsedTotal(d, keys, acc) == Wrap32(acc + UsedSum(d, keys))
    decreases |keys|
  {
    if keys == [] {
    } else {
      var c := d.entries[keys[0]].commandUsed;
      assert forall k :: k in keys[1..] ==> k in keys;
      UsedTotalIsWrappedSum(d, keys[1..], Wrap32(acc + c));
      WrapAdd(acc + c, UsedSum(d, keys[1..]));
    }
  }

  /** `CommandsUsed(eventName)`: `GetEvent` returns null for an unknown name, which the read dereferences. */
  function CommandsUsedOf(w: World, eventName: string): (r: Try<int32>)
    ensures w.events.GetEvent(eventName).None? <==> r == Throws(NullReference)
    ensures eventName in w.events.commands.entries ==> r == Ok(w.events.commands.entries[eventName].commandUsed)
    ensures r.Ok? ==> exists c: Category :: eventName in w.events.Get(c).entries && r.value == w.events.Get(c).entries[eventName].commandUsed
  {
    match w.events.GetEvent(eventName)
    case None => Throws(NullReference)
    case Some(cat) => Ok(w.events.Get(cat).entries[eventName].commandUsed)
  }

  /** The sum over keys in order, split before the last key. */
  lemma {:induction false} UsedSumSnoc(d: Dict<Event>, keys: seq<string>, k: string)
    requires forall x :: x in keys + [k] ==> x in d.entries
    ensures UsedSum(d, keys + [k]) == UsedSum(d, keys) + d.entries[k].commandUsed
    decreases |keys|
  {
    if keys == [] {
      assert (keys + [k])[1..] == [];
    } else {
      assert (keys + [k])[0] == keys[0] && (keys + [k])[1..] == keys[1..] + [k];
      UsedSumSnoc(d, keys[1..], k);
    }
  }

  /** The sum reads only the counters of the keys it is given. */
  lemma {:induction false} UsedSumFrame(d: Dict<Event>, d': Dict<Event>, keys: seq<string>)
    requires forall x :: x in keys ==> x in d.entries && x in d'.entries
    requires forall x :: x in keys ==> d.entries[x].commandUsed == d'.entries[x].commandUsed
    ensures UsedSum(d, keys) == UsedSum(d', keys)
    decreases |keys|
  {
    if keys != [] {
      assert forall x :: x in keys[1..] ==> x in keys;
      UsedSumFrame(d, d', keys[1..]);
    }
  }

  /**
   * Registering an event whose counter is zero, as `NewEvent` makes every
   * event, leaves `CommandsUsed()` unchanged, whatever its category and
   * whether or not registration completes.
   */
  lemma RegisterKeepsCommandsUsed(w: World, cat: Category, ev: Event)
    requires Valid(w) && ev.commandUsed == 0
    ensures var r := Register(w.aliases, w.events, cat, ev);
      CommandsUsed(w.(aliases := r.aliases, events := r.events)) == CommandsUsed(w)
  {
    var r := Register(w.aliases, w.events, cat, ev);
    RegisterOutcome(w.aliases, w.events, cat, ev);
    assert w.events.Get(Commands) == w.events.commands && r.events.Get(Commands) == r.events.commands;
    if cat == Commands && r.status == Completed {
      var d := w.events.commands;
      var d' := r.events.commands;
      var k := Lower(ev.name);
      assert Stored(cat, ev).commandUsed == 0;
      UsedSumSnoc(d', d.keys, k);
      UsedSumFrame(d, d', d.keys);
    }
  }

  // ---------------------------------------------------------------------
  // Every event stays under its lower-cased name

  /** The lookups of a listing keep every event under its lower-cased name. */
  lemma {:induction false} ProbeAllKeepsKeyed(w: World, keys: seq<string>, id: ulong)
    requires Valid(w) && w.events.Keyed()
    requires forall k :: k in keys ==> k in w.events.commands.entries
    ensures ProbeAll(w, keys, id).1.events.Keyed()
    decreases |keys|
  {
    assert w.events.Get(Commands) == w.events.commands;
    if keys != [] {
      var probe := IsEnabled(w, Commands, keys[0], id);
      LookupKeepsKeyed(w, Commands, keys[0], id);
      if !probe.0.Throws? {
        assert probe.1.events.Get(Commands) == probe.1.events.commands;
        assert forall k :: k in keys[1..] ==> k in keys;
        ProbeAllKeepsKeyed(probe.1, keys[1..], id);
      }
    }
  }

  /** Listing the commands keeps every event under its lower-cased name. */
  lemma ListCommandsKeepsKeyed(w: World, e: Message)
    requires Valid(w) && w.events.Keyed()
    ensures ListCommands(w, e).1.events.Keyed()
  {
    assert w.events.Get(Commands) == w.events.commands;
    ProbeAllKeepsKeyed(w, w.events.commands.keys, e.channelId);
  }
}
