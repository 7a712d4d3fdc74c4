/**
 * The metric schema: the StatPoint record and the controller's registry of
 * the two metrics it accepts.
 */
module StatPoints {
  import opened Wrappers

  /** The bucket a StatPoint writes to when its initializer does not name one. */
  const DefaultBucket: string := "bloxstrap"

  /**
   * A metric definition. `values` is None for an open metric (any non-empty
   * value passes the schema check) and otherwise the closed list of values.
   */
  datatype StatPoint = StatPoint(name: string, values: Option<seq<string>>, bucket: string, bucketPublic: string)

  /** `new StatPoint { Name = name }`: the name is required, everything else takes its default. */
  function NewStatPoint(name: string): (sp: StatPoint)
    ensures sp.name == name && sp.values == None
    ensures sp.bucket == DefaultBucket && sp.bucketPublic == DefaultBucket
  {
    StatPoint(name, None, DefaultBucket, DefaultBucket)
  }

  const InstallAction: string := "installAction"
  const RobloxChannel: string := "robloxChannel"

  /** The controller's registry, in declaration order. */
  const Registry: seq<StatPoint> := [
    NewStatPoint(InstallAction).(bucket := "bloxstrap-90d", values := Some(["install", "upgrade", "uninstall"])),
    NewStatPoint(RobloxChannel).(bucket := "bloxstrap-14d", bucketPublic := "bloxstrap-14d-public")
  ]

  /** `List.Find`: the first definition whose name equals key, if any. */
  function Find(registry: seq<StatPoint>, key: string): (r: Option<StatPoint>)
    ensures r.Some? ==>
      exists n :: 0 <= n < |registry| && registry[n] == r.value
        && r.value.name == key && forall m :: 0 <= m < n ==> registry[m].name != key
    ensures r.None? <==> forall n :: 0 <= n < |registry| ==> registry[n].name != key
  {
    if registry == [] then None
    else if registry[0].name == key then Some(registry[0])
    else
      var r := Find(registry[1..], key);
      assert forall n :: 1 <= n < |registry| ==> registry[n] == registry[1..][n - 1];
      r
  }

  /** The schema check on a value: membership (exact, case-sensitive) when the list is present. */
  predicate Admits(sp: StatPoint, value: string) {
    sp.values.None? || value in sp.values.value
  }

  /** No two registry entries share a name, so Find's "first" is "the". */
  lemma RegistryNamesUnique()
    ensures forall n, m :: 0 <= n < m < |Registry| ==> Registry[n].name != Registry[m].name
  {
  }

  /** The registry lookup, key by key. */
  lemma FindInRegistry(key: string)
    ensures Find(Registry, key) ==
      if key == InstallAction then Some(Registry[0])
      else if key == RobloxChannel then Some(Registry[1])
      else None
  {
  }

  /** installAction admits exactly install, upgrade and uninstall, and writes to bloxstrap-90d. */
  lemma InstallActionSchema(value: string)
    ensures Find(Registry, InstallAction).Some?
    ensures var sp := Find(Registry, InstallAction).value;
      sp.bucket == "bloxstrap-90d"
      && (Admits(sp, value) <==> value == "install" || value == "upgrade" || value == "uninstall")
  {
  }

  /** robloxChannel is open (every value passes the schema) and has a public bucket beside its primary one. */
  lemma RobloxChannelSchema(value: string)
    ensures Find(Registry, RobloxChannel).Some?
    ensures var sp := Find(Registry, RobloxChannel).value;
      Admits(sp, value) && sp.bucket == "bloxstrap-14d" && sp.bucketPublic == "bloxstrap-14d-public"
  {
  }

  /** Every other key is unknown to the schema. */
  lemma UnknownKeys(key: string)
    requires key != InstallAction && key != RobloxChannel
    ensures Find(Registry, key).None?
  {
  }
}
