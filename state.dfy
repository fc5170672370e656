/**
 * The state of an `EventSystem` (IA/Events/EventSystem.cs) as one value,
 * the inbound message as the dispatcher sees it, and the accessibility
 * tier of a message's author.
 */
module State {
  import opened Base
  import opened Events
  import opened Registry
  import opened Store

  /** What the dispatcher reads from a Discord `IMessage` and its guild. */
  datatype Message = Message(
    authorId: ulong,
    authorIsBot: bool,
    isGuildChannel: bool,        // `e.Channel as IGuildChannel` is not null
    channelId: ulong,
    guildId: ulong,
    hasManagePermissions: bool,  // the author holds ManagePermissions in the channel
    content: string)

  /**
   * A handler call. The handlers (`Check`, `processEvent`) are not part of
   * this model; each call is recorded instead.
   */
  datatype Invocation =
    | RanCommand(key: string, prefix: string, message: Message)
    | RanMention(key: string, message: Message)
    | RanGuildEvent(cat: Category, key: string, guildId: ulong)
    | RanCommandDone(key: string, message: Message, command: Event)

  datatype World = World(
    developers: seq<ulong>,
    ignore: seq<ulong>,
    identifier: map<ulong, string>,
    aliases: map<string, string>,
    events: EventContainer,
    store: Store,
    invoked: seq<Invocation>,
    defaultIdentifier: string,
    overrideIdentifier: string)

  ghost predicate Valid(w: World) {
    w.events.Valid() && Consistent(w.store)
  }

  /**
   * `GetUserAccessibility`: outside a guild channel everyone is public;
   * otherwise developers come first, then holders of ManagePermissions.
   */
  function GetUserAccessibility(developers: seq<ulong>, e: Message): (r: Accessibility)
    ensures r == DeveloperOnly <==> e.isGuildChannel && e.authorId in developers
    ensures r == AdminOnly <==> e.isGuildChannel && e.authorId !in developers && e.hasManagePermissions
    ensures r == Public <==> !e.isGuildChannel || (e.authorId !in developers && !e.hasManagePermissions)
  {
    if !e.isGuildChannel then Public
    else if e.authorId in developers then DeveloperOnly
    else if e.hasManagePermissions then AdminOnly
    else Public
  }

  /** Adding developers or granting ManagePermissions never lowers a tier. */
  lemma AccessibilityMonotone(developers: seq<ulong>, more: seq<ulong>, e: Message)
    ensures AtLeast(GetUserAccessibility(developers + more, e), GetUserAccessibility(developers, e))
    ensures AtLeast(GetUserAccessibility(developers, e.(hasManagePermissions := true)), GetUserAccessibility(developers, e))
  {
  }
}
