/** The DXCore / Direct3D 12 / DirectML platform as the adapter-selection
    code sees it. Every platform call is reduced to the answer it gives,
    fixed for one run, and the calls the code issues are recorded in order
    so that properties about what is called, and when, can be stated. */
module Platform {
  import opened Wrappers
  import opened Direct3D

  /** The DXCore attribute an adapter list is requested for:
      `DXCORE_ADAPTER_ATTRIBUTE_D3D12_GENERIC_ML` (GPUs and NPUs) or the
      narrower `DXCORE_ADAPTER_ATTRIBUTE_D3D12_CORE_COMPUTE`. */
  datatype Attribute = GenericMl | CoreCompute

  /** The feature level recorded for adapters discovered under an attribute. */
  function DiscoveryLevel(a: Attribute): FeatureLevel {
    match a
    case GenericMl => Level1_0Generic
    case CoreCompute => Level1_0Core
  }

  /** The platform's answers.
      - factoryOk: `DXCoreCreateAdapterFactory` returned S_OK;
      - genericMl, coreCompute: the driver description of every adapter in
        the list for that attribute, in the order the preference sort
        (hardware first, then high performance) leaves them, each as
        read from the property buffer (a null read is the empty string);
      - d3d12DeviceOk, dmlDeviceOk: `D3D12CreateDevice` and
        `DMLCreateDevice` returned S_OK;
      - featureProbe: the level `CheckFeatureSupport` wrote as the maximum
        supported one, or None if it wrote nothing. */
  datatype Machine = Machine(
    factoryOk: bool,
    genericMl: seq<string>,
    coreCompute: seq<string>,
    d3d12DeviceOk: bool,
    dmlDeviceOk: bool,
    featureProbe: Option<FeatureLevel>)
  {
    /** The sorted adapter list `CreateAdapterList` yields for `a`. */
    function AdapterList(a: Attribute): seq<string> {
      match a
      case GenericMl => genericMl
      case CoreCompute => coreCompute
    }
  }

  /** An adapter handle: the entry at `position` of the sorted list for
      `attribute`. */
  datatype Adapter = Adapter(attribute: Attribute, position: nat)

  /** The platform calls whose order matters to the model. */
  datatype Call =
    | CreateAdapterFactory
    | CreateAdapterList(attribute: Attribute)
    | CreateD3D12Device(adapter: Adapter, minimumLevel: FeatureLevel)
    | CreateDmlDevice
    | CheckFeatureSupport(requested: seq<FeatureLevel>)
    | CreateCommandQueue(desc: QueueDesc)

  /** The exceptions the bootstrap code throws, one per message. */
  datatype Error =
    | AdapterFactoryFailed   // "Failed to create adapter factory"
    | NoCompatibleAdapters   // "No compatible adapters found."
    | D3D12DeviceFailed      // "Failed to create D3D12 device"
    | DmlDeviceFailed        // "Failed to create DML device"

  /** The calls issued, in order, and what the operation returned or threw. */
  datatype Traced<+T> = Traced(calls: seq<Call>, result: Result<T, Error>)
}
