/** Direct3D 12 feature levels and the command-queue descriptor chosen for
    the DirectML device. Numeric values are those of `D3D_FEATURE_LEVEL` in
    the Windows SDK header d3dcommon.h. */
module Direct3D {
  import opened Wrappers

  /** The six feature levels the device is probed for. */
  datatype FeatureLevel =
    | Level1_0Generic
    | Level1_0Core
    | Level11_0
    | Level11_1
    | Level12_0
    | Level12_1
  {
    /** The level's `D3D_FEATURE_LEVEL` value, the number the C# code compares. */
    function Value(): int {
      match this
      case Level1_0Generic => 0x100
      case Level1_0Core => 0x1000
      case Level11_0 => 0xb000
      case Level11_1 => 0xb100
      case Level12_0 => 0xc000
      case Level12_1 => 0xc100
    }
  }

  /** The array handed to `CheckFeatureSupport(D3D12_FEATURE_FEATURE_LEVELS)`. */
  const FeatureLevelsRequested: seq<FeatureLevel> :=
    [Level1_0Generic, Level1_0Core, Level11_0, Level11_1, Level12_0, Level12_1]

  /** `MaxSupportedFeatureLevel` as read after the probe. The structure is
      created zeroed and the probe's result code is not checked, so a probe
      that writes nothing leaves the value 0. */
  function ReportedMaxLevel(probe: Option<FeatureLevel>): (v: int)
    ensures v == 0 <==> probe.None?
    ensures probe.Some? ==> Level1_0Generic.Value() <= v
  {
    match probe
    case Some(l) => l.Value()
    case None => 0
  }

  /** `D3D12_COMMAND_LIST_TYPE`, restricted to the two kinds the C# code uses. */
  datatype CommandListType = Direct | Compute

  /** `D3D12_COMMAND_QUEUE_PRIORITY_NORMAL` */
  const QueuePriorityNormal: int := 0
  /** `D3D12_COMMAND_QUEUE_FLAG_NONE` */
  const QueueFlagNone: int := 0

  /** `D3D12_COMMAND_QUEUE_DESC` */
  datatype QueueDesc = QueueDesc(kind: CommandListType, priority: int, flags: int, nodeMask: int)

  /** A compute-only queue for devices whose maximum supported level is at
      most 1_0_CORE, a direct queue for everything above. */
  function QueueTypeFor(maxLevel: int): (t: CommandListType)
    ensures t == Compute <==> maxLevel <= Level1_0Core.Value()
  {
    if maxLevel <= Level1_0Core.Value() then Compute else Direct
  }

  /** The descriptor `CreateDmlDeviceAndCommandQueue` builds: the queue type varies, every other
      field is fixed. */
  function QueueDescFor(maxLevel: int): (d: QueueDesc)
    ensures d.kind == Compute <==> maxLevel <= Level1_0Core.Value()
    ensures d.priority == QueuePriorityNormal && d.flags == QueueFlagNone && d.nodeMask == 0
  {
    QueueDesc(QueueTypeFor(maxLevel), QueuePriorityNormal, QueueFlagNone, 0)
  }

  /** Two maximum levels get the same descriptor exactly when they get the
      same queue type: the type is the only field that varies. */
  lemma QueueDescOnlyTypeVaries(a: int, b: int)
    ensures QueueDescFor(a) == QueueDescFor(b) <==> QueueTypeFor(a) == QueueTypeFor(b)
  {
  }

  /** How restrictive a queue type is: a compute queue accepts fewer kinds
      of command lists than a direct one. */
  function Capability(t: CommandListType): nat {
    match t
    case Compute => 0
    case Direct => 1
  }

  /** The requested levels are listed in strictly increasing numeric order
      and cover every level, so the probe's answer is always one of them. */
  lemma RequestedLevelsAscending()
    ensures forall i, j :: 0 <= i < j < |FeatureLevelsRequested| ==>
              FeatureLevelsRequested[i].Value() < FeatureLevelsRequested[j].Value()
    ensures forall l: FeatureLevel :: l in FeatureLevelsRequested
  {
    forall l: FeatureLevel
      ensures l in FeatureLevelsRequested
    {
      match l
      case Level1_0Generic => assert FeatureLevelsRequested[0] == l;
      case Level1_0Core => assert FeatureLevelsRequested[1] == l;
      case Level11_0 => assert FeatureLevelsRequested[2] == l;
      case Level11_1 => assert FeatureLevelsRequested[3] == l;
      case Level12_0 => assert FeatureLevelsRequested[4] == l;
      case Level12_1 => assert FeatureLevelsRequested[5] == l;
    }
  }

  /** A higher maximum level never gets a more restrictive queue. */
  lemma QueueTypeMonotone(lo: int, hi: int)
    requires lo <= hi
    ensures Capability(QueueTypeFor(lo)) <= Capability(QueueTypeFor(hi))
    ensures QueueTypeFor(lo) == Direct ==> QueueTypeFor(hi) == Direct
  {
  }

  /** Over the levels the probe can report, the compute queue is chosen
      exactly for the two discovery levels 1_0_GENERIC and 1_0_CORE, and for
      a probe that reported nothing. */
  lemma QueueTypeOfProbe(probe: Option<FeatureLevel>)
    ensures QueueTypeFor(ReportedMaxLevel(probe)) == Compute <==>
              (probe.None? || probe.value in {Level1_0Generic, Level1_0Core})
  {
  }
}
