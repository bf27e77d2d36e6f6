/** `CreateDmlDeviceAndCommandQueue`: selects an adapter, creates a
    Direct3D 12 device on it at the discovery level, wraps it in a DirectML
    device, probes the device's maximum feature level and creates a command
    queue whose type follows that level. */
module Device {
  import opened Wrappers
  import opened Direct3D
  import opened Platform
  import opened Selection

  /** A Direct3D 12 device created on `adapter` at `minimumLevel`. */
  datatype D3D12Device = D3D12Device(adapter: Adapter, minimumLevel: FeatureLevel)

  /** A DirectML device wrapping a Direct3D 12 device. */
  datatype DmlDevice = DmlDevice(device: D3D12Device)

  /** A command queue created on a Direct3D 12 device from a descriptor. */
  datatype CommandQueue = CommandQueue(device: D3D12Device, desc: QueueDesc)

  /** The pair handed to the DirectML execution provider. */
  datatype DeviceAndQueue = DeviceAndQueue(dml: DmlDevice, queue: CommandQueue)

  /** `CreateDmlDeviceAndCommandQueue(adapterNameFilter)`. The result of
      `CreateCommandQueue` is not checked in DMLHelpers.cs, so queue creation
      cannot fail here. */
  function CreateDmlDeviceAndCommandQueue(m: Machine, filter: string): (o: Traced<DeviceAndQueue>)
    ensures SelectAdapter(m, filter).calls <= o.calls
    ensures SelectAdapter(m, filter).result.Failure? ==>
      o == Traced(SelectAdapter(m, filter).calls, Failure(SelectAdapter(m, filter).result.error))
    ensures o.result.Failure? <==>
      SelectAdapter(m, filter).result.Failure? || !m.d3d12DeviceOk || !m.dmlDeviceOk
    ensures o.result.Failure? ==> forall c :: c in o.calls ==> !c.CreateCommandQueue?
    ensures o.result.Success? ==>
      var sel := SelectAdapter(m, filter).result.value;
      var q := o.result.value.queue;
      && o.result.value.dml.device == q.device
      && q.device == D3D12Device(sel.adapter, sel.level)
      && q.desc.priority == QueuePriorityNormal && q.desc.flags == QueueFlagNone && q.desc.nodeMask == 0
      && (q.desc.kind == Compute <==> ReportedMaxLevel(m.featureProbe) <= Level1_0Core.Value())
      && o.calls[|o.calls| - 1] == CreateCommandQueue(q.desc)
  {
    var selection := SelectAdapter(m, filter);
    match selection.result
    case Failure(e) => Traced(selection.calls, Failure(e))
    case Success(sel) =>
      var calls := selection.calls + [CreateD3D12Device(sel.adapter, sel.level)];
      if !m.d3d12DeviceOk then
        Traced(calls, Failure(D3D12DeviceFailed))
      else
        var device := D3D12Device(sel.adapter, sel.level);
        var calls := calls + [CreateDmlDevice];
        if !m.dmlDeviceOk then
          Traced(calls, Failure(DmlDeviceFailed))
        else
          var calls := calls + [CheckFeatureSupport(FeatureLevelsRequested)];
          var desc := QueueDescFor(ReportedMaxLevel(m.featureProbe));
          Traced(calls + [CreateCommandQueue(desc)],
                  Success(DeviceAndQueue(DmlDevice(device), CommandQueue(device, desc))))
  }

  /** A rejected Direct3D 12 device aborts before the DirectML device, the
      feature probe or the queue. */
  lemma D3D12FailureAborts(m: Machine, filter: string)
    requires HasAdapters(m) && !m.d3d12DeviceOk
    ensures CreateDmlDeviceAndCommandQueue(m, filter).result == Failure(D3D12DeviceFailed)
    ensures forall c :: c in CreateDmlDeviceAndCommandQueue(m, filter).calls ==>
      !c.CreateDmlDevice? && !c.CheckFeatureSupport? && !c.CreateCommandQueue?
  {
    var sel := SelectAdapter(m, filter);
    var o := CreateDmlDeviceAndCommandQueue(m, filter);
    var attempt := CreateD3D12Device(sel.result.value.adapter, sel.result.value.level);
    assert o.calls == sel.calls + [attempt];
    forall c | c in o.calls
      ensures !c.CreateDmlDevice? && !c.CheckFeatureSupport? && !c.CreateCommandQueue?
    {
      if c !in sel.calls {
        assert c == attempt;
      }
    }
  }

  /** A rejected DirectML device aborts before the feature probe or the
      queue. */
  lemma DmlFailureAborts(m: Machine, filter: string)
    requires HasAdapters(m) && m.d3d12DeviceOk && !m.dmlDeviceOk
    ensures CreateDmlDeviceAndCommandQueue(m, filter).result == Failure(DmlDeviceFailed)
    ensures forall c :: c in CreateDmlDeviceAndCommandQueue(m, filter).calls ==>
      !c.CheckFeatureSupport? && !c.CreateCommandQueue?
  {
    var sel := SelectAdapter(m, filter);
    var o := CreateDmlDeviceAndCommandQueue(m, filter);
    var created := sel.calls + [CreateD3D12Device(sel.result.value.adapter, sel.result.value.level)];
    assert o.calls == created + [CreateDmlDevice];
    forall c | c in o.calls
      ensures !c.CheckFeatureSupport? && !c.CreateCommandQueue?
    {
      if c !in sel.calls {
        assert c in [CreateD3D12Device(sel.result.value.adapter, sel.result.value.level), CreateDmlDevice];
      }
    }
  }

  /** The device is created at the level the adapter was discovered under,
      while the queue type follows the probed maximum level; a probe that
      reports 1_0_GENERIC or 1_0_CORE, or nothing, gives a compute queue. */
  lemma QueueFollowsProbe(m: Machine, filter: string)
    requires HasAdapters(m) && m.d3d12DeviceOk && m.dmlDeviceOk
    ensures
      var q := CreateDmlDeviceAndCommandQueue(m, filter).result.value.queue;
      && q.device.minimumLevel == DiscoveryLevel(q.device.adapter.attribute)
      && (q.desc.kind == Compute <==>
            (m.featureProbe.None? || m.featureProbe.value in {Level1_0Generic, Level1_0Core}))
  {
    QueueTypeOfProbe(m.featureProbe);
  }
}
