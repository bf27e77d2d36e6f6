/** The image-classification page's `InitModel`: builds the inference
    session once, on a DirectML device chosen with the name filter "NPU",
    and leaves an existing session alone. */
module ResNetPage {
  import opened Wrappers
  import opened Utf8
  import opened Platform
  import opened Selection
  import opened Device

  /** The adapter name filter the page passes to device creation. */
  const AdapterNameFilter: string := "NPU"

  /** The execution provider whose API table is requested. */
  const ProviderName: string := "DML"

  /** An inference session bound to a model file and to the DirectML device
      and queue appended to its options. */
  datatype Session = Session(modelPath: string, providerName: seq<byte>, devices: DeviceAndQueue)

  /** The page's state: the `_inferenceSession` field, null until built. */
  datatype Page = Page(session: Option<Session>)

  /** What the ONNX Runtime side of `InitModel` answers, fixed for one run.
      - extensionsOk: `RegisterOrtExtensions` returned normally;
      - sessionOk: the provider API lookup, appending the DirectML
        provider and constructing the `InferenceSession` all returned
        normally. */
  datatype Runtime = Runtime(extensionsOk: bool, sessionOk: bool)

  /** The exception that ends an `InitModel` call. */
  datatype Fault =
    | DeviceFault(error: Error)   // thrown by device creation
    | ExtensionsFailed            // thrown by `RegisterOrtExtensions`
    | SessionFailed               // thrown after the devices exist

  /** The page after the call, the platform calls issued, and the exception
      `InitModel` threw, if any. */
  datatype InitResult = InitResult(page: Page, calls: seq<Call>, fault: Option<Fault>)

  /** `InitModel(modelPath)`, run to completion. */
  function InitModel(page: Page, modelPath: string, m: Machine, rt: Runtime): (r: InitResult)
    ensures page.session.Some? ==> r == InitResult(page, [], None)
    ensures page.session.None? && !rt.extensionsOk ==> r == InitResult(page, [], Some(ExtensionsFailed))
    ensures page.session.None? && rt.extensionsOk ==>
      r.calls == CreateDmlDeviceAndCommandQueue(m, AdapterNameFilter).calls
    ensures r.fault.Some? <==> r.page.session.None?
    ensures r.fault.Some? ==> r.page == page
    ensures page.session.None? ==>
      (r.page.session.Some? <==>
        rt.extensionsOk && CreateDmlDeviceAndCommandQueue(m, AdapterNameFilter).result.Success? && rt.sessionOk)
    ensures page.session.None? && rt.extensionsOk && CreateDmlDeviceAndCommandQueue(m, AdapterNameFilter).result.Failure? ==>
      r.fault == Some(DeviceFault(CreateDmlDeviceAndCommandQueue(m, AdapterNameFilter).result.error))
    ensures page.session.None? && r.page.session.Some? ==>
      var s := r.page.session.value;
      && s.modelPath == modelPath
      && s.providerName == [0x44, 0x4D, 0x4C, 0x00]
      && CreateDmlDeviceAndCommandQueue(m, AdapterNameFilter).result == Success(s.devices)
  {
    if page.session.Some? then
      InitResult(page, [], None)
    else if !rt.extensionsOk then
      InitResult(page, [], Some(ExtensionsFailed))
    else
      var built := CreateDmlDeviceAndCommandQueue(m, AdapterNameFilter);
      match built.result
      case Failure(e) => InitResult(page, built.calls, Some(DeviceFault(e)))
      case Success(devices) =>
        if !rt.sessionOk then
          InitResult(page, built.calls, Some(SessionFailed))
        else
          ProviderNameBytes();
          InitResult(Page(Some(Session(modelPath, ZeroTerminated(ProviderName), devices))), built.calls, None)
  }

  /** A session failure after the devices exist leaves the page without a
      session, although every device call, the queue included, was issued. */
  lemma SessionFailureKeepsDeviceCalls(page: Page, modelPath: string, m: Machine, rt: Runtime)
    requires page.session.None? && rt.extensionsOk && !rt.sessionOk
    requires HasAdapters(m) && m.d3d12DeviceOk && m.dmlDeviceOk
    ensures InitModel(page, modelPath, m, rt).fault == Some(SessionFailed)
    ensures InitModel(page, modelPath, m, rt).page == page
    ensures exists d :: CreateCommandQueue(d) in InitModel(page, modelPath, m, rt).calls
  {
    var o := CreateDmlDeviceAndCommandQueue(m, AdapterNameFilter);
    assert o.calls[|o.calls| - 1] in o.calls;
  }

  /** Once a session exists, initialising again, with any model path on any
      platform and runtime, changes nothing and calls nothing. */
  lemma InitModelOnce(page: Page, firstPath: string, first: Machine, firstRt: Runtime,
                      secondPath: string, second: Machine, secondRt: Runtime)
    requires InitModel(page, firstPath, first, firstRt).fault.None?
    ensures
      var afterFirst := InitModel(page, firstPath, first, firstRt).page;
      InitModel(afterFirst, secondPath, second, secondRt) == InitResult(afterFirst, [], None)
  {
  }
}
