/**
 * The event definition (IA-SDK/Event.cs) and the accessibility tiers.
 * Beside the definition's own fields, an event carries the per-channel
 * enabled cache and the usage counter that the event system reads.
 */
module Events {
  import opened Base
  import opened Modules

  /** `EventAccessibility`, ordered PUBLIC < ADMINONLY < DEVELOPERONLY. */
  datatype Accessibility = Public | AdminOnly | DeveloperOnly

  function Rank(a: Accessibility): nat {
    match a
    case Public => 0
    case AdminOnly => 1
    case DeveloperOnly => 2
  }

  /** The C# comparison `a >= b` on the enum. */
  predicate AtLeast(a: Accessibility, b: Accessibility) {
    Rank(a) >= Rank(b)
  }

  /** `>=` on tiers is a total order with Public at the bottom and DeveloperOnly at the top. */
  lemma AtLeastTotalOrder(a: Accessibility, b: Accessibility, c: Accessibility)
    ensures AtLeast(a, a)
    ensures AtLeast(a, b) && AtLeast(b, a) ==> a == b
    ensures AtLeast(a, b) && AtLeast(b, c) ==> AtLeast(a, c)
    ensures AtLeast(a, b) || AtLeast(b, a)
    ensures AtLeast(a, Public) && AtLeast(DeveloperOnly, a)
  {
  }

  const NameNotSet: string := "name not set"
  const DescriptionNotSet: string := "description not set for this command!"
  const UsageNotSet: string := "usage not set!"
  const DefaultErrorMessage: string := "Something went wrong!"

  datatype Event = Event(
    name: string,
    aliases: seq<string>,
    description: string,
    usage: seq<string>,
    errorMessage: string,
    canBeOverridenByDefaultPrefix: bool,
    canBeDisabled: bool,
    defaultEnabled: bool,
    eventModule: Option<Module>,     // `module`; None stands for null
    accessibility: Accessibility,
    enabled: map<ulong, bool>,       // channel or guild id -> cached flag
    commandUsed: int32)

  /** A freshly constructed event, before its configurator runs. */
  function NewEvent(): (e: Event)
    ensures e.name == NameNotSet && e.aliases == []
    ensures e.description == DescriptionNotSet && e.errorMessage == DefaultErrorMessage
    ensures e.usage == [UsageNotSet]
    ensures e.canBeDisabled && e.defaultEnabled && !e.canBeOverridenByDefaultPrefix
    ensures e.eventModule == None && e.accessibility == Public
    ensures e.enabled == map[] && e.commandUsed == 0
  {
    Event(NameNotSet, [], DescriptionNotSet, [UsageNotSet], DefaultErrorMessage,
          false, true, true, None, Public, map[], 0)
  }
}
