# DirectML adapter selection and device bootstrap, in Dafny

This project models the hardware-bootstrap core of the ResNet image
classification sample. That core picks a DXCore adapter (GPU or NPU),
creates a Direct3D 12 device and a DirectML device on it, and creates the
command queue that the ONNX Runtime DirectML execution provider is given.
The model covers:

- **Tier fallback.** The adapter list for `DXCORE_ADAPTER_ATTRIBUTE_D3D12_GENERIC_ML`
  is requested first. Only when it is empty is the
  `DXCORE_ADAPTER_ATTRIBUTE_D3D12_CORE_COMPUTE` list requested, and the
  discovery level then becomes `D3D_FEATURE_LEVEL_1_0_CORE` instead of
  `D3D_FEATURE_LEVEL_1_0_GENERIC`. If both lists are empty, "No compatible
  adapters found." is thrown.
- **Description cleanup.** Trailing `'\0'` characters are removed from each
  driver description.
- **Selection.** The first adapter of the sorted list whose description
  contains the name filter (ordinal, case-sensitive) is chosen. When none
  matches, index 0 is chosen, and this is not an error.
- **Queue rule.** The queue is `COMPUTE` when the device's maximum supported
  feature level is at most `D3D_FEATURE_LEVEL_1_0_CORE`, otherwise `DIRECT`.
  Normal priority, no flags and node mask 0 are fixed.
- **`StringToZeroTerminatedUtf8`.** The UTF-8 bytes of a string (section 3 of
  RFC 3629) followed by one 0 byte.
- **`InitModel`.** The page builds its inference session only once.

`SelectAdapter`, `CreateDmlDeviceAndCommandQueue` and `StringToZeroTerminatedUtf8`
each exist twice in the repository: once in `DMLHelpers.cs` or
`SessionOptionsExtensions.DML.cs`, and once inside the page class. The two
copies differ only in that the page class also keeps a list of the cleaned
descriptions. Each is modelled once. `Selection.ScanAdapterList` models the
page-class loop with its two lists, and its contract ties it to
`Selection.SelectIndex`.

Every platform call is an input. `Platform.Machine` holds what the calls
answer: whether the factory, the Direct3D 12 device and the DirectML device
were created; the sorted description list for each attribute; and the
maximum level the feature probe reported. Operations also return the
sequence of platform calls they issued (`Platform.Call`), so that "X is
never called" and "fails before Y" can be stated. Feature-level values are
those of `D3D_FEATURE_LEVEL` in the Windows SDK header `d3dcommon.h`:
1_0_GENERIC = 0x100, 1_0_CORE = 0x1000, 11_0 = 0xb000, 11_1 = 0xb100,
12_0 = 0xc000, 12_1 = 0xc100.

Modules: `Wrappers` (Option, Result), `Text` (substring test, NUL
stripping), `Utf8` (encoder, decoder, zero-terminated conversion),
`Direct3D` (feature levels, queue rule and descriptor), `Platform` (platform
answers, calls, errors), `Selection` (adapter selection), `Device` (device
and queue creation), `ResNetPage` (`InitModel`).

## Model

| member | source | states |
|---|---|---|
| `Text.Contains` | ImageClassificationSample/ImageClassificationSample/DMLHelpers.cs:107-108 | The description contains the filter exactly when the filter occurs at some position of it. The empty filter is contained in every description. |
| `Text.StripTrailingNuls` | ImageClassificationSample/ImageClassificationSample/DMLHelpers.cs:99-103 | The cleaned description is a prefix of the raw one. It does not end in NUL, and every removed character was NUL. |
| `Text.StripUnique` | ImageClassificationSample/ImageClassificationSample/DMLHelpers.cs:100-102 | Those three facts pin the result down: any NUL-free-ended prefix that leaves only NULs behind is the stripped string. |
| `Text.StripIdempotent` | ImageClassificationSample/ImageClassificationSample/ImageClassificationResNet.xaml.cs:249-253 | Stripping a stripped description changes nothing. |
| `Text.StripKeepsInterior` | ImageClassificationSample/ImageClassificationSample/ImageClassificationResNet.xaml.cs:250-253 | Every character before the last non-NUL character survives at its position. |
| `Selection.FirstMatch` | ImageClassificationSample/ImageClassificationSample/DMLHelpers.cs:66-117 | The scan finds no match exactly when no description contains the filter. Otherwise it returns the least matching index: that description matches and none before it does. |
| `Selection.SelectIndex` | ImageClassificationSample/ImageClassificationSample/DMLHelpers.cs:119-126 | The chosen index is in range. It is the first match when there is one, and 0 otherwise. |
| `Selection.EmptyFilterSelectsFirst` | ImageClassificationSample/ImageClassificationSample/DMLHelpers.cs:107-110 | An empty filter selects the top-ranked adapter. |
| `Selection.NpuScenario` | ImageClassificationSample/ImageClassificationSample/ImageClassificationResNet.xaml.cs:258-262 | Over "Discrete GPU", "Discrete NPU", "Integrated GPU", the filter "NPU" selects position 1. |
| `Selection.TpuScenario` | ImageClassificationSample/ImageClassificationSample/ImageClassificationResNet.xaml.cs:270-275 | Over the same list, "TPU" matches nothing, and position 0 is selected. |
| `Selection.SelectAdapter` | ImageClassificationSample/ImageClassificationSample/DMLHelpers.cs:16-127 | It fails exactly when the factory fails or both lists are empty. Factory failure gives the factory error. Otherwise the calls begin with the factory and then the GENERIC_ML list. Only factory and list calls are issued. On success, GENERIC_ML is used exactly when its list is non-empty, the level is that attribute's discovery level, and the position is the first match or 0. |
| `Selection.FactoryFailureRequestsNoList` | ImageClassificationSample/ImageClassificationSample/DMLHelpers.cs:19-22 | A failed factory throws before any adapter list is requested. |
| `Selection.TierFallback` | ImageClassificationSample/ImageClassificationSample/DMLHelpers.cs:34-49 | CORE_COMPUTE is requested exactly when the GENERIC_ML list is empty. The recorded level is 1_0_GENERIC in the first case and 1_0_CORE in the second. |
| `Selection.NoAdaptersIffBothEmpty` | ImageClassificationSample/ImageClassificationSample/ImageClassificationResNet.xaml.cs:183-203 | "No compatible adapters" is thrown exactly when the factory works and both lists are empty. |
| `Selection.SelectedAdapterIsFirstMatch` | ImageClassificationSample/ImageClassificationSample/DMLHelpers.cs:66-126 | On success the position indexes the list that was used. It is the first entry whose cleaned description contains the filter, or 0 when none does. |
| `Selection.UnmatchedFilterIsNotAnError` | ImageClassificationSample/ImageClassificationSample/DMLHelpers.cs:119-124 | A filter that matches nothing still succeeds, with position 0. |
| `Selection.ScanAdapterList` | ImageClassificationSample/ImageClassificationSample/ImageClassificationResNet.xaml.cs:214-277 | The handle list and the description list grow in lockstep, one entry per list position. Entry k is the handle at k and the cleaned description k. The selected index is the first match or 0, and it is the same index `SelectIndex` gives. |
| `Direct3D.RequestedLevelsAscending` | ImageClassificationSample/ImageClassificationSample/DMLHelpers.cs:147-155 | The probed levels are listed in strictly increasing numeric order and include every level. |
| `Direct3D.ReportedMaxLevel` | ImageClassificationSample/ImageClassificationSample/DMLHelpers.cs:157-174 | The maximum level read back is 0 exactly when the probe wrote nothing; any level the probe writes is at least 1_0_GENERIC, so it is never confused with the zeroed default. |
| `Direct3D.QueueTypeFor` | ImageClassificationSample/ImageClassificationSample/DMLHelpers.cs:179-181 | The queue is COMPUTE exactly when the maximum level is at most 1_0_CORE (0x1000). |
| `Direct3D.QueueTypeMonotone` | ImageClassificationSample/ImageClassificationSample/ImageClassificationResNet.xaml.cs:330-332 | A higher maximum level never gives a more restrictive queue. |
| `Direct3D.QueueTypeOfProbe` | ImageClassificationSample/ImageClassificationSample/DMLHelpers.cs:168-181 | Among probe answers, COMPUTE is chosen exactly for 1_0_GENERIC, 1_0_CORE and a probe that wrote nothing. |
| `Direct3D.QueueDescFor` | ImageClassificationSample/ImageClassificationSample/DMLHelpers.cs:179-189 | The descriptor's type is COMPUTE exactly when the maximum level is at most 1_0_CORE; its priority is normal, it has no flags and its node mask is 0. |
| `Direct3D.QueueDescOnlyTypeVaries` | ImageClassificationSample/ImageClassificationSample/DMLHelpers.cs:183-189 | Two maximum levels get the same descriptor exactly when they get the same queue type. |
| `Device.CreateDmlDeviceAndCommandQueue` | ImageClassificationSample/ImageClassificationSample/DMLHelpers.cs:129-196 | The selection's calls come first, and a selection error is passed through unchanged. The pipeline fails exactly when selection, the Direct3D 12 device or the DirectML device fails, and no queue is created on failure. On success both devices sit on the same Direct3D 12 device, created on the selected adapter at the discovery level. The queue descriptor is fixed except for its type, which follows the probed level, and creating the queue is the last call. |
| `Device.D3D12FailureAborts` | ImageClassificationSample/ImageClassificationSample/DMLHelpers.cs:133-138 | A rejected Direct3D 12 device throws before the DirectML device, the probe or the queue. |
| `Device.DmlFailureAborts` | ImageClassificationSample/ImageClassificationSample/ImageClassificationResNet.xaml.cs:291-296 | A rejected DirectML device throws before the probe or the queue. |
| `Device.QueueFollowsProbe` | ImageClassificationSample/ImageClassificationSample/ImageClassificationResNet.xaml.cs:282-340 | The device is created at the adapter's discovery level. The queue type follows the probed level and not the discovery level. |
| `Utf8.EncodeScalar` | ImageClassificationSample/ImageClassificationSample/SessionOptionsExtensions.DML.cs:17 | One scalar takes 1 to 4 bytes. The lead byte is 0 only for U+0000, and every later byte is a continuation byte. |
| `Utf8.DecodeScalarOfEncode` | ImageClassificationSample/ImageClassificationSample/SessionOptionsExtensions.DML.cs:17 | Decoding one scalar's bytes gives back the scalar and its length, whatever follows. |
| `Utf8.DecodeEncode` | ImageClassificationSample/ImageClassificationSample/SessionOptionsExtensions.DML.cs:17-18 | Decoding the encoding of any string gives that string back. |
| `Utf8.EncodeOfDecodeScalar` | ImageClassificationSample/ImageClassificationSample/ImageClassificationResNet.xaml.cs:83 | A scalar the decoder accepts re-encodes to exactly the bytes it was read from, so there are no overlong forms. |
| `Utf8.EncodeDecode` | ImageClassificationSample/ImageClassificationSample/ImageClassificationResNet.xaml.cs:83-84 | Any decodable byte string is the encoding of what it decodes to. |
| `Utf8.ByteCount` | ImageClassificationSample/ImageClassificationSample/SessionOptionsExtensions.DML.cs:15 | A string of n scalars takes between n and 4n bytes. |
| `Utf8.ByteCountAscii` | ImageClassificationSample/ImageClassificationSample/SessionOptionsExtensions.DML.cs:15 | The byte count equals the number of scalars exactly when every scalar is below U+0080. |
| `Utf8.EncodeLength` | ImageClassificationSample/ImageClassificationSample/ImageClassificationResNet.xaml.cs:81-84 | The encoding's length equals the byte count, so the bytes written equal the bytes counted. |
| `Utf8.ZeroByteIffNul` | ImageClassificationSample/ImageClassificationSample/SessionOptionsExtensions.DML.cs:17-19 | A 0 byte occurs in the encoding exactly when the string contains U+0000. |
| `Utf8.GetBytes` | ImageClassificationSample/ImageClassificationSample/SessionOptionsExtensions.DML.cs:17-18 | It writes the encoding of the string at the start of the buffer, returns how many bytes it wrote, which is the byte count, and leaves every byte after those unchanged. |
| `Utf8.StringToZeroTerminatedUtf8` | ImageClassificationSample/ImageClassificationSample/SessionOptionsExtensions.DML.cs:13-21 | The result has the UTF-8 byte count plus one bytes. The bytes before the last one are the encoding of the string, and the last byte is 0. |
| `Utf8.ProviderNameBytes` | ImageClassificationSample/ImageClassificationSample/SessionOptionsExtensions.DML.cs:23 | "DML" becomes 0x44 0x4D 0x4C 0x00. |
| `ResNetPage.InitModel` | ImageClassificationSample/ImageClassificationSample/ImageClassificationResNet.xaml.cs:60-112 | With a session already present, the page is unchanged and nothing is called. A failing `RegisterOrtExtensions` faults before any platform call. Otherwise the calls are those of device creation with filter "NPU", and a device error is passed on as the fault. A session results exactly when extensions, devices and the session construction all succeed; the call faults exactly when no session results, and a fault leaves the page as it was. A new session holds the model path, the provider name bytes of "DML", and the created device and queue. |
| `ResNetPage.SessionFailureKeepsDeviceCalls` | ImageClassificationSample/ImageClassificationSample/ImageClassificationResNet.xaml.cs:72-111 | When the session cannot be built after the devices exist, the page keeps no session, yet the device calls, queue creation included, were already issued. |
| `ResNetPage.InitModelOnce` | ImageClassificationSample/ImageClassificationSample/ImageClassificationResNet.xaml.cs:64-67 | After a successful initialisation, another call with any path on any platform and runtime changes nothing and calls nothing. |

## Left out

- Platform calls (`DXCoreCreateAdapterFactory`, `CreateAdapterList`, `GetAdapter`, `GetPropertySize`/`GetProperty`, `D3D12CreateDevice`, `DMLCreateDevice`, `CheckFeatureSupport`, `CreateCommandQueue`) are not executed: their answers are fields of `Platform.Machine`. `GetAdapterCount`, `GetAdapter` and the property reads are not recorded in the call trace.
- The preference sort (`adapterList.Sort` with Hardware, HighPerformance) runs inside DXCore with a comparator that is not visible; the model takes each list already sorted and states nothing about ordering or stability.
- Unmanaged buffer handling (`AllocHGlobal`, `FreeHGlobal`, `PtrToStringAnsi`) is raw marshalling; the description arrives as a string, null mapped to `""`. `PtrToStringAnsi` stops at the first NUL, so in practice descriptions reach the stripping loop without NULs; the model strips arbitrary strings.
- Adapter handles are modelled as (attribute, position) pairs; COM reference counting and object identity are not modelled.
- A failing `CreateCommandQueue` is not modelled: the C# code never checks its result (DMLHelpers.cs:192).
- ONNX Runtime glue (`NativeMethods`, the `OrtDmlApi` layout, `OrtGetExecutionProviderApi`, `AppendExecutionProvider_DML1`, `RegisterOrtExtensions`, `InferenceSession` construction) is foreign ABI code. Its effect on `ResNetPage.InitModel` is reduced to two answers in `ResNetPage.Runtime`: whether `RegisterOrtExtensions` returns normally, and whether everything from the provider API lookup to the session construction does. The session records only the provider name bytes, the model path and the device pair it is given.
- Selection.SelectAdapter: assumes `CreateAdapterList`, `GetAdapter`, `GetPropertySize` and `GetProperty` succeed. The C# code discards their results (DMLHelpers.cs:34, 44, 71, 74, 86); when one fails, the code throws (a null list object dereferenced at DMLHelpers.cs:41, or the interop layer's exception), and the model has no such outcome. A description read that returns null is the empty string, as at DMLHelpers.cs:92.
- Direct3D.ReportedMaxLevel: `None` stands for a `CheckFeatureSupport` call that returns normally without writing the structure. The C# code ignores the call's result and the structure starts zeroed, so the level read is 0 and the queue is COMPUTE. A probe failure that throws instead is not modelled.
- Threading (`Task.Run`), navigation, the file picker, `ClassifyImage`, `Debug.WriteLine` logging, image preprocessing and softmax are UI, I/O or floating-point work outside this core.
- .NET's replacement of lone UTF-16 surrogates: Dafny strings here are sequences of Unicode scalar values, so the encoder is modelled on those only.
- Selection.ScanAdapterList: requires a non-empty list. In the C# code an empty list would make `adapters[0]` throw, but the count check before the loop already rules that out.
- Selection.SelectIndex: requires a non-empty list, for the same reason.
