/**
 * A bot module (IA/Events/Module.cs): a name and a default-enabled flag,
 * used only to group commands in the command listing. The lifecycle hooks
 * are no-ops that complete at once.
 */
module Modules {

  /** `ModuleInformation`: the module's name and whether it starts enabled. */
  datatype Module = Module(name: string, enabled: bool)

  const ActiveSuffix: string := ": ACTIVE"

  /** `Module(string name, bool enabled = true)`. */
  function NewModule(name: string, enabled: bool := true): (m: Module)
    ensures m.name == name && m.enabled == enabled
  {
    Module(name, enabled)
  }

  /** `Module(SDK.Module addon)`: copies the add-on's name and flag. */
  function FromAddon(addon: Module): (m: Module)
    ensures m.name == addon.name && m.enabled == addon.enabled
  {
    Module(addon.name, addon.enabled)
  }

  /** `GetState()`: the name followed by ": ACTIVE", whatever the flag says. */
  function GetState(m: Module): (s: string)
    ensures |s| == |m.name| + |ActiveSuffix|
    ensures s[..|m.name|] == m.name && s[|m.name|..] == ActiveSuffix
  {
    m.name + ActiveSuffix
  }

  /** Two modules report the same state exactly when they have the same name. */
  lemma GetStateIdentifiesName(m1: Module, m2: Module)
    ensures GetState(m1) == GetState(m2) <==> m1.name == m2.name
  {
    if GetState(m1) == GetState(m2) {
      assert m1.name == GetState(m1)[..|m1.name|];
      assert m2.name == GetState(m2)[..|m2.name|];
    }
  }

  /** Converting an add-on module keeps the state it reports. */
  lemma FromAddonKeepsState(addon: Module)
    ensures GetState(FromAddon(addon)) == GetState(addon)
  {
  }

  /** `Initialize`, `Install` and `Uninstall`. */
  datatype Lifecycle = Initialize | Install | Uninstall

  /** Every lifecycle hook returns `Task.CompletedTask` and touches nothing. */
  function RunHook(m: Module, hook: Lifecycle): (r: Module)
    ensures r == m
  {
    m
  }
}
