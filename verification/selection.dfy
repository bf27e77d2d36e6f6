/** `SelectAdapter`: the GENERIC_ML to CORE_COMPUTE tier fallback, and the
    scan of the sorted adapter list for the first description containing
    the name filter, falling back to the top-ranked adapter. */
module Selection {
  import opened Wrappers
  import opened Text
  import opened Direct3D
  import opened Platform

  /** Some description contains the filter. */
  predicate AnyMatch(descs: seq<string>, filter: string) {
    exists k :: 0 <= k < |descs| && Contains(descs[k], filter)
  }

  /** No description before position `i` contains the filter. */
  predicate NoMatchBefore(descs: seq<string>, filter: string, i: int)
    requires i <= |descs|
  {
    forall j :: 0 <= j < i ==> !Contains(descs[j], filter)
  }

  /** `i` is the index the scan settles on: the least index whose
      description contains the filter, or 0 when none does. */
  predicate IsSelection(descs: seq<string>, filter: string, i: int) {
    0 <= i < |descs| &&
    if AnyMatch(descs, filter) then
      Contains(descs[i], filter) && NoMatchBefore(descs, filter, i)
    else
      i == 0
  }

  /** The least index whose description contains the filter, if any. */
  function FirstMatch(descs: seq<string>, filter: string): (r: Option<nat>)
    ensures r.None? <==> !AnyMatch(descs, filter)
    ensures r.Some? ==>
      r.value < |descs| && Contains(descs[r.value], filter) && NoMatchBefore(descs, filter, r.value)
  {
    if |descs| == 0 then
      None
    else if Contains(descs[0], filter) then
      Some(0)
    else
      match FirstMatch(descs[1..], filter)
      case None =>
        assert forall k :: 1 <= k < |descs| ==> descs[k] == descs[1..][k - 1];
        None
      case Some(k) =>
        assert descs[1..][k] == descs[k + 1];
        assert forall j :: 1 <= j <= k ==> descs[j] == descs[1..][j - 1];
        Some(k + 1)
  }

  /** The selected index over a non-empty description list. */
  function SelectIndex(descs: seq<string>, filter: string): (i: nat)
    requires |descs| > 0
    ensures IsSelection(descs, filter, i)
  {
    FirstMatch(descs, filter).GetOr(0)
  }

  /** The selection is determined by the descriptions and the filter. */
  lemma SelectionUnique(descs: seq<string>, filter: string, i: int, j: int)
    requires IsSelection(descs, filter, i) && IsSelection(descs, filter, j)
    ensures i == j
  {
  }

  /** An empty filter is contained in every description, so it selects the
      top-ranked adapter. */
  lemma EmptyFilterSelectsFirst(descs: seq<string>)
    requires |descs| > 0
    ensures SelectIndex(descs, "") == 0
  {
    assert OccursAt(descs[0], "", 0);
  }

  /** A string in which the filter's first character never appears does not
      contain the filter. */
  lemma MissingFirstCharacter(s: string, filter: string)
    requires |filter| > 0 && filter[0] !in s
    ensures !Contains(s, filter)
  {
    forall i
      ensures !OccursAt(s, filter, i)
    {
      if 0 <= i && i + |filter| <= |s| {
        assert s[i..i + |filter|][0] == s[i];
      }
    }
  }

  /** With "Discrete GPU", "Discrete NPU", "Integrated GPU" in ranked
      order, the filter "NPU" picks the NPU at position 1. */
  lemma NpuScenario()
    ensures IsSelection(["Discrete GPU", "Discrete NPU", "Integrated GPU"], "NPU", 1)
  {
    var descs := ["Discrete GPU", "Discrete NPU", "Integrated GPU"];
    var npu := "NPU";
    assert OccursAt(descs[1], npu, 9);
    assert 'N' !in descs[0];
    MissingFirstCharacter(descs[0], npu);
  }

  /** A filter whose first character occurs in no description matches
      nothing. */
  lemma FirstCharacterMissingEverywhere(descs: seq<string>, filter: string)
    requires |filter| > 0 && forall k :: 0 <= k < |descs| ==> filter[0] !in descs[k]
    ensures !AnyMatch(descs, filter)
  {
    forall k | 0 <= k < |descs|
      ensures !Contains(descs[k], filter)
    {
      MissingFirstCharacter(descs[k], filter);
    }
  }

  /** Over the same list the filter "TPU" matches nothing and falls back to
      the top-ranked position 0. */
  lemma TpuScenario()
    ensures IsSelection(["Discrete GPU", "Discrete NPU", "Integrated GPU"], "TPU", 0)
  {
    FirstCharacterMissingEverywhere(["Discrete GPU", "Discrete NPU", "Integrated GPU"], "TPU");
  }

  /** The adapter picked and the feature level it was discovered under. */
  datatype Selected = Selected(adapter: Adapter, level: FeatureLevel)

  /** The attribute whose list is used: GENERIC_ML unless that list is
      empty, then CORE_COMPUTE. */
  function ChosenAttribute(m: Machine): Attribute {
    if |m.genericMl| > 0 then GenericMl else CoreCompute
  }

  /** The factory works and at least one of the two lists is non-empty:
      exactly the platforms on which selection succeeds. */
  predicate HasAdapters(m: Machine) {
    m.factoryOk && (|m.genericMl| > 0 || |m.coreCompute| > 0)
  }

  /** `DMLHelpers.SelectAdapter`. */
  function SelectAdapter(m: Machine, filter: string): (o: Traced<Selected>)
    ensures o.result.Failure? <==> !m.factoryOk || (|m.genericMl| == 0 && |m.coreCompute| == 0)
    ensures !m.factoryOk ==> o.result == Failure(AdapterFactoryFailed)
    ensures m.factoryOk ==> |o.calls| >= 2 && o.calls[..2] == [CreateAdapterFactory, CreateAdapterList(GenericMl)]
    ensures forall c :: c in o.calls ==> c.CreateAdapterFactory? || c.CreateAdapterList?
    ensures o.result.Success? ==>
      var a := o.result.value.adapter;
      var descs := StripAll(m.AdapterList(a.attribute));
      && (a.attribute == GenericMl <==> |m.genericMl| > 0)
      && o.result.value.level == DiscoveryLevel(a.attribute)
      && IsSelection(descs, filter, a.position)
  {
    if !m.factoryOk then
      Traced([CreateAdapterFactory], Failure(AdapterFactoryFailed))
    else
      var attribute := ChosenAttribute(m);
      var calls := [CreateAdapterFactory, CreateAdapterList(GenericMl)]
                   + (if attribute == CoreCompute then [CreateAdapterList(CoreCompute)] else []);
      var raw := m.AdapterList(attribute);
      if |raw| == 0 then
        Traced(calls, Failure(NoCompatibleAdapters))
      else
        var position := SelectIndex(StripAll(raw), filter);
        Traced(calls, Success(Selected(Adapter(attribute, position), DiscoveryLevel(attribute))))
  }

  /** A failed factory fails the selection before any adapter list is
      requested. */
  lemma FactoryFailureRequestsNoList(m: Machine, filter: string)
    requires !m.factoryOk
    ensures SelectAdapter(m, filter).result == Failure(AdapterFactoryFailed)
    ensures forall c :: c in SelectAdapter(m, filter).calls ==> !c.CreateAdapterList?
  {
  }

  /** CORE_COMPUTE is requested exactly when the GENERIC_ML list is empty,
      and the recorded level follows the list that was used. */
  lemma TierFallback(m: Machine, filter: string)
    requires m.factoryOk
    ensures CreateAdapterList(CoreCompute) in SelectAdapter(m, filter).calls <==> |m.genericMl| == 0
    ensures SelectAdapter(m, filter).result.Success? ==>
      SelectAdapter(m, filter).result.value.level ==
        (if |m.genericMl| > 0 then Level1_0Generic else Level1_0Core)
  {
  }

  /** "No compatible adapters found." is thrown exactly when the factory
      works but both lists are empty. */
  lemma NoAdaptersIffBothEmpty(m: Machine, filter: string)
    ensures SelectAdapter(m, filter).result == Failure(NoCompatibleAdapters) <==>
      m.factoryOk && |m.genericMl| == 0 && |m.coreCompute| == 0
  {
  }

  /** On success the adapter is an entry of the list that was used; it is
      the first one whose cleaned description contains the filter, and if
      none does, it is the top-ranked one and the call still succeeds. */
  lemma SelectedAdapterIsFirstMatch(m: Machine, filter: string)
    requires HasAdapters(m)
    ensures
      var a := SelectAdapter(m, filter).result.value.adapter;
      var raw := m.AdapterList(a.attribute);
      && a.position < |raw|
      && ((exists k :: 0 <= k < |raw| && Contains(StripTrailingNuls(raw[k]), filter)) ==>
            && Contains(StripTrailingNuls(raw[a.position]), filter)
            && forall j :: 0 <= j < a.position ==> !Contains(StripTrailingNuls(raw[j]), filter))
      && ((forall k :: 0 <= k < |raw| ==> !Contains(StripTrailingNuls(raw[k]), filter)) ==>
            a.position == 0)
  {
    var a := SelectAdapter(m, filter).result.value.adapter;
    var raw := m.AdapterList(a.attribute);
    var descs := StripAll(raw);
    if exists k :: 0 <= k < |raw| && Contains(StripTrailingNuls(raw[k]), filter) {
      var k :| 0 <= k < |raw| && Contains(StripTrailingNuls(raw[k]), filter);
      assert Contains(descs[k], filter);
    } else {
      assert !AnyMatch(descs, filter);
    }
  }

  /** Whatever the filter, a factory that works and a non-empty list give
      an adapter: an unmatched filter is never an error. */
  lemma UnmatchedFilterIsNotAnError(m: Machine, filter: string)
    requires m.factoryOk && |m.AdapterList(ChosenAttribute(m))| > 0
    requires !AnyMatch(StripAll(m.AdapterList(ChosenAttribute(m))), filter)
    ensures SelectAdapter(m, filter).result.Success?
    ensures SelectAdapter(m, filter).result.value.adapter.position == 0
  {
  }

  /** The scan loop of the page class's `SelectAdapter`: one handle and one
      cleaned description are appended per list entry, in lockstep, and the
      first entry whose description contains the filter is remembered. */
  method ScanAdapterList(attribute: Attribute, raw: seq<string>, filter: string)
    returns (adapters: seq<Adapter>, descriptions: seq<string>, selected: nat)
    requires |raw| > 0
    ensures |adapters| == |raw| && |descriptions| == |raw|
    ensures forall k :: 0 <= k < |raw| ==>
      adapters[k] == Adapter(attribute, k) && descriptions[k] == StripTrailingNuls(raw[k])
    ensures IsSelection(descriptions, filter, selected)
    ensures selected == SelectIndex(StripAll(raw), filter)
  {
    adapters := [];
    descriptions := [];
    var firstMatch: Option<nat> := None;
    var i := 0;
    while i < |raw|
      invariant 0 <= i <= |raw|
      invariant |adapters| == i && |descriptions| == i
      invariant forall k :: 0 <= k < i ==>
        adapters[k] == Adapter(attribute, k) && descriptions[k] == StripTrailingNuls(raw[k])
      invariant firstMatch.None? ==> NoMatchBefore(descriptions, filter, i)
      invariant firstMatch.Some? ==>
        firstMatch.value < i && Contains(descriptions[firstMatch.value], filter)
        && NoMatchBefore(descriptions, filter, firstMatch.value)
    {
      var description := StripTrailingNuls(raw[i]);
      adapters := adapters + [Adapter(attribute, i)];
      descriptions := descriptions + [description];
      if firstMatch.None? && Contains(description, filter) {
        firstMatch := Some(i);
      }
      i := i + 1;
    }
    selected := firstMatch.GetOr(0);
    assert descriptions == StripAll(raw);
    SelectionUnique(descriptions, filter, selected, SelectIndex(StripAll(raw), filter));
  }
}
