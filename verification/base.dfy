/**
 The vocabulary the three controllers share: optional values, the outcome of a
 cluster read, the deployment constants they compare against, and the cluster
 objects more than one controller looks at (nodes and persistent volumes).
 */
module Base {

  /** An optional value; Go's nil pointer is `None`. */
  datatype Option<+T> = None | Some(value: T)

  /** The outcome of a cluster `Get`: the object, a not-found error, or any other error. */
  datatype Fetch<+T> = Found(value: T) | NotFound | FetchError

  /** The outcome of a cluster `List`. */
  datatype Listing<+T> = Listed(items: seq<T>) | ListError

  /**
   Constants of the repository's `utils` package, which is not part of this
   model. They enter every operation as parameters instead of invented values.
   */
  datatype Settings = Settings(
    pluginName: string,      // utils.CSIPluginName
    scheduler: string,       // utils.CarinaSchedule
    lvFinalizer: string,     // utils.LogicVolumeFinalizer
    capacityPrefix: string,  // utils.DeviceCapacityKeyPrefix
    majorAttr: string,       // utils.VolumeDeviceMajor
    minorAttr: string)       // utils.VolumeDeviceMinor

  /** Go's `m[k]` on a `map[string]string`: the zero value "" when `k` is absent. */
  function Get(m: map<string, string>, k: string): string {
    if k in m then m[k] else ""
  }

  predicate HasPrefix(s: string, p: string) {
    |p| <= |s| && s[..|p|] == p
  }

  /** A namespaced object name (`client.ObjectKey`, a PV's `ClaimRef`). */
  datatype ObjectKey = ObjectKey(namespace: string, name: string)

  /** The CSI section of a PersistentVolume spec. */
  datatype Csi = Csi(driver: string, attributes: map<string, string>)

  /** A PersistentVolume, reduced to the fields the controllers read. */
  datatype PersistentVolume = PersistentVolume(name: string, csi: Option<Csi>, claimRef: Option<ObjectKey>)

  /** The volume is served by this system's CSI driver. */
  predicate ServedByPlugin(s: Settings, pv: PersistentVolume) {
    pv.csi.Some? && pv.csi.value.driver == s.pluginName
  }

  datatype NodePhase = NodePending | NodeRunning | NodeTerminated | NoPhase

  /**
   A cluster Node: its deletion marker, its phase, and its capacity and
   allocatable quantities as integers already extracted by `Quantity.Value()`.
   */
  datatype Node = Node(
    name: string,
    deleting: bool,
    phase: NodePhase,
    capacity: map<string, int>,
    allocatable: map<string, int>)
}
