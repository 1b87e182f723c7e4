/**
 * The volume-labelling admission core: deciding which topology labels a PersistentVolume
 * should carry (GetVolumeLabels), and writing those labels and the matching node-affinity
 * requirements into the volume (MutatePV).
 */
module Admission {
  import opened Wrappers
  import opened CoreV1

  /** A cloud label provider: given the whole volume, its labels, or the reason the query failed. */
  type PVLabeler = VolumeSnapshot -> Result<map<string, string>, string>

  /**
   * `volumehelpers.LabelZonesToSet(v).List()`: the zones a (possibly multi-zone) label value
   * names, or None when the value cannot be converted.
   */
  type ZoneDecoder = string -> Option<seq<string>>

  /** The configured cloud-provider name and its label provider. */
  datatype PVLabelAdmission = PVLabelAdmission(cloudProvider: string, pvLabeler: PVLabeler)

  datatype AdmissionError =
    | QueryFailed(backend: string, volume: string, cause: string)
    | ZoneConversionFailed(value: string)

  /** What the library's set conversion promises: a successful result is sorted and duplicate-free. */
  ghost predicate ZoneListDecoder(decodeZones: ZoneDecoder)
  {
    forall v :: decodeZones(v).Some? ==> StrictlyAscending(decodeZones(v).value)
  }

  // ---------------------------------------------------------------------------------------
  // Label resolution
  // ---------------------------------------------------------------------------------------

  predicate HasGAPair(labels: map<string, string>)
  {
    LabelTopologyZone in labels && LabelTopologyRegion in labels
  }

  predicate HasBetaPair(labels: map<string, string>)
  {
    LabelFailureDomainBetaZone in labels && LabelFailureDomainBetaRegion in labels
  }

  predicate IsDynamicallyProvisioned(annotations: map<string, string>)
  {
    AnnDynamicallyProvisioned in annotations
  }

  /** The volume's existing topology labels are trusted and returned without asking the provider. */
  predicate Trusted(pv: PersistentVolume)
    reads pv
  {
    IsDynamicallyProvisioned(pv.annotations) && (HasGAPair(pv.labels) || HasBetaPair(pv.labels))
  }

  /** The configured provider name belongs to the volume's populated source. */
  predicate ProviderMatches(cloudProvider: string, source: VolumeSource)
  {
    match source
    case GCEPersistentDisk(_) => cloudProvider == "gce"
    case AzureDisk(_) => cloudProvider == "azure"
    case AWSElasticBlockStore(_) => cloudProvider == "aws"
    case VsphereVolume(_) => cloudProvider == "vsphere"
    case OtherSource => false
  }

  /** The provider is queried: existing labels are not trusted and the provider owns the source. */
  predicate ConsultsProvider(p: PVLabelAdmission, pv: PersistentVolume)
    reads pv
  {
    !Trusted(pv) && ProviderMatches(p.cloudProvider, pv.source)
  }

  /** How a failed query names the backend and the volume. */
  function QueryError(source: VolumeSource, cause: string): AdmissionError
    requires !source.OtherSource?
  {
    match source
    case GCEPersistentDisk(pdName) => QueryFailed("GCE PD volume", pdName, cause)
    case AzureDisk(diskName) => QueryFailed("AzureDisk volume", diskName, cause)
    case AWSElasticBlockStore(volumeID) => QueryFailed("AWS EBS Volume", volumeID, cause)
    case VsphereVolume(volumePath) => QueryFailed("vSphere Volume", volumePath, cause)
  }

  /**
   * The labels the volume should carry. A dynamically provisioned volume with a complete GA
   * pair (or, failing that, a complete beta pair) keeps that pair; otherwise the provider that
   * owns the volume's source is asked; otherwise there is nothing to add.
   */
  function GetVolumeLabels(p: PVLabelAdmission, pv: PersistentVolume): (r: Result<map<string, string>, AdmissionError>)
    reads pv
    ensures IsDynamicallyProvisioned(pv.annotations) && HasGAPair(pv.labels) ==>
              r == Success(map[LabelTopologyZone := pv.labels[LabelTopologyZone],
                               LabelTopologyRegion := pv.labels[LabelTopologyRegion]])
    ensures IsDynamicallyProvisioned(pv.annotations) && !HasGAPair(pv.labels) && HasBetaPair(pv.labels) ==>
              r == Success(map[LabelFailureDomainBetaZone := pv.labels[LabelFailureDomainBetaZone],
                               LabelFailureDomainBetaRegion := pv.labels[LabelFailureDomainBetaRegion]])
    ensures ConsultsProvider(p, pv) && p.pvLabeler(pv.Snapshot()).Success? ==>
              r == Success(p.pvLabeler(pv.Snapshot()).value)
    ensures ConsultsProvider(p, pv) && p.pvLabeler(pv.Snapshot()).Failure? ==>
              r == Failure(QueryError(pv.source, p.pvLabeler(pv.Snapshot()).error))
    ensures !Trusted(pv) && !ProviderMatches(p.cloudProvider, pv.source) ==> r == Success(map[])
  {
    var existing := pv.labels;
    var ga := HasGAPair(existing);
    var zoneKey := if ga then LabelTopologyZone else LabelFailureDomainBetaZone;
    var regionKey := if ga then LabelTopologyRegion else LabelFailureDomainBetaRegion;
    if IsDynamicallyProvisioned(pv.annotations) && zoneKey in existing && regionKey in existing then
      Success(map[zoneKey := existing[zoneKey], regionKey := existing[regionKey]])
    else if ProviderMatches(p.cloudProvider, pv.source) then
      match p.pvLabeler(pv.Snapshot())
      case Success(labels) => Success(labels)
      case Failure(cause) => Failure(QueryError(pv.source, cause))
    else
      Success(map[])
  }

  // ---------------------------------------------------------------------------------------
  // Requirements built from labels
  // ---------------------------------------------------------------------------------------

  predicate IsZoneKey(k: string)
  {
    k == LabelTopologyZone || k == LabelFailureDomainBetaZone
  }

  /** The value list of the `In` requirement for label (k, v); None when a zone value does not convert. */
  function RequirementValues(k: string, v: string, decodeZones: ZoneDecoder): Option<seq<string>>
  {
    if IsZoneKey(k) then decodeZones(v) else Some([v])
  }

  /** No two entries of `s` are equal. */
  predicate Distinct<T(==)>(s: seq<T>)
  {
    forall i, j :: 0 <= i < j < |s| ==> s[i] != s[j]
  }

  /** `order` lists each key of `labels` exactly once: one run of Go's map iteration. */
  predicate IsIterationOrder(order: seq<string>, labels: map<string, string>)
  {
    && (forall k :: k in order ==> k in labels)
    && (forall k :: k in labels ==> k in order)
    && Distinct(order)
  }

  /** The keys of `keys` with their values in `labels`. */
  function Restrict(labels: map<string, string>, keys: seq<string>): map<string, string>
    requires forall k :: k in keys ==> k in labels
  {
    map k | k in keys :: labels[k]
  }

  /**
   * The requirements built while visiting the labels in `order`: one `In` requirement per key,
   * in visiting order, or the error of the first zone value that does not convert.
   */
  function Requirements(order: seq<string>, labels: map<string, string>, decodeZones: ZoneDecoder)
    : (r: Result<seq<NodeSelectorRequirement>, AdmissionError>)
    requires forall k :: k in order ==> k in labels
    ensures r.Success? <==>
              forall i :: 0 <= i < |order| ==> RequirementValues(order[i], labels[order[i]], decodeZones).Some?
    ensures r.Success? ==> |r.value| == |order|
    ensures r.Success? ==>
              forall i :: 0 <= i < |order| ==>
                r.value[i] == NodeSelectorRequirement(order[i], In, RequirementValues(order[i], labels[order[i]], decodeZones).value)
    decreases |order|
  {
    if order == [] then Success([])
    else
      var k := order[|order| - 1];
      match Requirements(order[..|order| - 1], labels, decodeZones)
      case Failure(e) => Failure(e)
      case Success(reqs) =>
        match RequirementValues(k, labels[k], decodeZones)
        case None => Failure(ZoneConversionFailed(labels[k]))
        case Some(values) => Success(reqs + [NodeSelectorRequirement(k, In, values)])
  }

  /**
   * How many keys of `order` have their label written before the loop stops: all of them, or
   * those up to and including the first key whose zone value does not convert.
   */
  function KeysVisited(order: seq<string>, labels: map<string, string>, decodeZones: ZoneDecoder): (n: nat)
    requires forall k :: k in order ==> k in labels
    ensures n <= |order|
    ensures Requirements(order, labels, decodeZones).Success? ==> n == |order|
    ensures Requirements(order, labels, decodeZones).Failure? ==>
              && 0 < n
              && Requirements(order[..n - 1], labels, decodeZones).Success?
              && RequirementValues(order[n - 1], labels[order[n - 1]], decodeZones).None?
              && Requirements(order, labels, decodeZones).error == ZoneConversionFailed(labels[order[n - 1]])
    decreases |order|
  {
    if order == [] then 0
    else
      var init := order[..|order| - 1];
      if Requirements(init, labels, decodeZones).Failure? then
        var n := KeysVisited(init, labels, decodeZones);
        assert init[..n - 1] == order[..n - 1];
        assert Requirements(order, labels, decodeZones) == Requirements(init, labels, decodeZones);
        n
      else
        |order|
  }

  // ---------------------------------------------------------------------------------------
  // Merging requirements into node-affinity terms
  // ---------------------------------------------------------------------------------------

  /** Some requirement's key already appears in some expression of some term. */
  predicate KeysCollide(reqs: seq<NodeSelectorRequirement>, terms: seq<NodeSelectorTerm>)
  {
    exists i, j, l :: 0 <= i < |reqs| && 0 <= j < |terms| && 0 <= l < |terms[j].matchExpressions|
                      && terms[j].matchExpressions[l].key == reqs[i].key
  }

  /** The search `nodeSelectorRequirementKeysExistInNodeSelectorTerms` runs. */
  method KeysExistInTerms(reqs: seq<NodeSelectorRequirement>, terms: seq<NodeSelectorTerm>) returns (found: bool)
    ensures found <==> KeysCollide(reqs, terms)
  {
    for i := 0 to |reqs|
      invariant forall i', j, l :: 0 <= i' < i && 0 <= j < |terms| && 0 <= l < |terms[j].matchExpressions| ==>
                  terms[j].matchExpressions[l].key != reqs[i'].key
    {
      for j := 0 to |terms|
        invariant forall j', l :: 0 <= j' < j && 0 <= l < |terms[j'].matchExpressions| ==>
                    terms[j'].matchExpressions[l].key != reqs[i].key
      {
        for l := 0 to |terms[j].matchExpressions|
          invariant forall l' :: 0 <= l' < l ==> terms[j].matchExpressions[l'].key != reqs[i].key
        {
          if terms[j].matchExpressions[l].key == reqs[i].key {
            return true;
          }
        }
      }
    }
    return false;
  }

  /** At least one term, so that expressions have somewhere to attach. */
  function Seed(terms: seq<NodeSelectorTerm>): seq<NodeSelectorTerm>
  {
    if |terms| == 0 then [EmptyTerm] else terms
  }

  function AppendRequirements(term: NodeSelectorTerm, reqs: seq<NodeSelectorRequirement>): NodeSelectorTerm
  {
    term.(matchExpressions := term.matchExpressions + reqs)
  }

  function AppendToEveryTerm(terms: seq<NodeSelectorTerm>, reqs: seq<NodeSelectorRequirement>): seq<NodeSelectorTerm>
  {
    seq(|terms|, j requires 0 <= j < |terms| => AppendRequirements(terms[j], reqs))
  }

  /** All or nothing: on a key collision no term changes, otherwise every term gets every requirement. */
  function MergeTerms(terms: seq<NodeSelectorTerm>, reqs: seq<NodeSelectorRequirement>): seq<NodeSelectorTerm>
  {
    if KeysCollide(reqs, terms) then terms else AppendToEveryTerm(terms, reqs)
  }

  /** Writing the next key's label extends the written labels by that key. */
  lemma RestrictExtend(labels: map<string, string>, order: seq<string>, i: nat)
    requires i < |order|
    requires forall k :: k in order ==> k in labels
    ensures Restrict(labels, order[..i + 1]) == Restrict(labels, order[..i])[order[i] := labels[order[i]]]
  {
  }

  /** One more write on top of an overwrite is part of the overwrite. */
  lemma OverwriteExtend(base: map<string, string>, written: map<string, string>, k: string, v: string)
    ensures (base + written)[k := v] == base + written[k := v]
  {
  }

  /** Visiting one more key extends the requirements, or fails at that key. */
  lemma VisitStep(order: seq<string>, labels: map<string, string>, decodeZones: ZoneDecoder, i: nat,
                  reqs: seq<NodeSelectorRequirement>)
    requires i < |order|
    requires forall k :: k in order ==> k in labels
    requires Requirements(order[..i], labels, decodeZones) == Success(reqs)
    ensures RequirementValues(order[i], labels[order[i]], decodeZones).None? ==>
              && Requirements(order[..i + 1], labels, decodeZones) == Failure(ZoneConversionFailed(labels[order[i]]))
              && KeysVisited(order[..i + 1], labels, decodeZones) == i + 1
    ensures RequirementValues(order[i], labels[order[i]], decodeZones).Some? ==>
              Requirements(order[..i + 1], labels, decodeZones)
                == Success(reqs + [NodeSelectorRequirement(order[i], In, RequirementValues(order[i], labels[order[i]], decodeZones).value)])
  {
    assert order[..i + 1][..i] == order[..i];
  }

  /** A full visit writes every label of the map. */
  lemma RestrictToEveryKey(labels: map<string, string>, order: seq<string>)
    requires IsIterationOrder(order, labels)
    ensures Restrict(labels, order) == labels
  {
  }

  /** Once a prefix of the visit fails, the whole visit fails with the same error at the same key. */
  lemma {:induction false} FailureIsFinal(order: seq<string>, labels: map<string, string>, decodeZones: ZoneDecoder, n: nat)
    requires n <= |order|
    requires forall k :: k in order ==> k in labels
    requires Requirements(order[..n], labels, decodeZones).Failure?
    ensures Requirements(order, labels, decodeZones) == Requirements(order[..n], labels, decodeZones)
    ensures KeysVisited(order, labels, decodeZones) == KeysVisited(order[..n], labels, decodeZones)
    decreases |order| - n
  {
    if n < |order| {
      var init := order[..|order| - 1];
      assert init[..n] == order[..n];
      FailureIsFinal(init, labels, decodeZones, n);
    } else {
      assert order[..n] == order;
    }
  }

  /**
   * The label loop of `mutatePV`: visit the labels in `order`, overwrite each label, and build its
   * `In` requirement; stop at the first zone value that does not convert, after writing its label.
   */
  method WriteLabels(pv: PersistentVolume, volumeLabels: map<string, string>, order: seq<string>, decodeZones: ZoneDecoder)
    returns (result: Result<seq<NodeSelectorRequirement>, AdmissionError>)
    requires forall k :: k in order ==> k in volumeLabels
    modifies pv`labels
    ensures result == Requirements(order, volumeLabels, decodeZones)
    ensures pv.labels == old(pv.labels) + Restrict(volumeLabels, order[..KeysVisited(order, volumeLabels, decodeZones)])
  {
    var reqs: seq<NodeSelectorRequirement> := [];
    for i := 0 to |order|
      invariant Requirements(order[..i], volumeLabels, decodeZones) == Success(reqs)
      invariant pv.labels == old(pv.labels) + Restrict(volumeLabels, order[..i])
    {
      var k := order[i];
      var v := volumeLabels[k];
      RestrictExtend(volumeLabels, order, i);
      OverwriteExtend(old(pv.labels), Restrict(volumeLabels, order[..i]), k, v);
      VisitStep(order, volumeLabels, decodeZones, i, reqs);
      pv.labels := pv.labels[k := v];
      var values: seq<string>;
      if IsZoneKey(k) {
        var zones := decodeZones(v);
        if zones.None? {
          FailureIsFinal(order, volumeLabels, decodeZones, i + 1);
          assert KeysVisited(order, volumeLabels, decodeZones) == i + 1;
          return Failure(ZoneConversionFailed(v));
        }
        values := zones.value;
      } else {
        values := [v];
      }
      reqs := reqs + [NodeSelectorRequirement(k, In, values)];
    }
    assert order[..|order|] == order;
    assert KeysVisited(order, volumeLabels, decodeZones) == |order|;
    return Success(reqs);
  }

  /** The append loop of `mutatePV`: each requirement in turn goes onto the end of every term. */
  method AppendToEveryTermInPlace(pv: PersistentVolume, reqs: seq<NodeSelectorRequirement>)
    modifies pv`terms
    ensures pv.terms == AppendToEveryTerm(old(pv.terms), reqs)
  {
    ghost var initial := pv.terms;
    var termCount := |pv.terms|;
    for r := 0 to |reqs|
      invariant |pv.terms| == termCount
      invariant forall t :: 0 <= t < termCount ==> pv.terms[t] == AppendRequirements(initial[t], reqs[..r])
    {
      assert reqs[..r + 1] == reqs[..r] + [reqs[r]];
      for t := 0 to termCount
        invariant |pv.terms| == termCount
        invariant forall t' :: 0 <= t' < t ==> pv.terms[t'] == AppendRequirements(initial[t'], reqs[..r + 1])
        invariant forall t' :: t <= t' < termCount ==> pv.terms[t'] == AppendRequirements(initial[t'], reqs[..r])
      {
        pv.terms := pv.terms[t := AppendRequirements(pv.terms[t], [reqs[r]])];
      }
    }
    assert reqs[..|reqs|] == reqs;
  }

  /**
   * `mutatePV`: overwrite the labels, build one `In` requirement per label, make sure a node
   * affinity with at least one term exists, and append every requirement to every term unless
   * one of their keys is already used. A zone value that does not convert stops with an error;
   * the labels written up to and including that key stay written and the node affinity is not
   * touched.
   */
  method MutatePV(pv: PersistentVolume, volumeLabels: map<string, string>, order: seq<string>, decodeZones: ZoneDecoder)
    returns (result: Outcome<AdmissionError>)
    requires pv.Valid()
    requires IsIterationOrder(order, volumeLabels)
    modifies pv
    ensures pv.Valid()
    ensures result.Pass? <==> Requirements(order, volumeLabels, decodeZones).Success?
    ensures result.Fail? ==> result.error == Requirements(order, volumeLabels, decodeZones).error
    ensures pv.labels == old(pv.labels) + Restrict(volumeLabels, order[..KeysVisited(order, volumeLabels, decodeZones)])
    ensures result.Pass? ==> pv.labels == old(pv.labels) + volumeLabels
    ensures result.Fail? ==>
              && pv.hasNodeAffinity == old(pv.hasNodeAffinity)
              && pv.hasRequired == old(pv.hasRequired)
              && pv.terms == old(pv.terms)
    ensures result.Pass? ==>
              && pv.hasNodeAffinity && pv.hasRequired
              && pv.terms == MergeTerms(Seed(old(pv.terms)), Requirements(order, volumeLabels, decodeZones).value)
  {
    var built := WriteLabels(pv, volumeLabels, order, decodeZones);
    if built.Failure? {
      return Fail(built.error);
    }
    var reqs := built.value;
    assert order[..|order|] == order;
    RestrictToEveryKey(volumeLabels, order);

    if !pv.hasNodeAffinity {
      pv.hasNodeAffinity := true;
    }
    if !pv.hasRequired {
      pv.hasRequired := true;
    }
    if |pv.terms| == 0 {
      pv.terms := [EmptyTerm];
    }
    var conflict := KeysExistInTerms(reqs, pv.terms);
    if !conflict {
      AppendToEveryTermInPlace(pv, reqs);
    }
    return Pass;
  }

  // ---------------------------------------------------------------------------------------
  // The request-handling path through the core
  // ---------------------------------------------------------------------------------------

  /** One run of Go's map iteration: the keys of `labels` in an order the runtime picks. */
  method IterationOrder(labels: map<string, string>) returns (order: seq<string>)
    ensures IsIterationOrder(order, labels)
  {
    order := [];
    var rest := labels.Keys;
    while rest != {}
      invariant forall k :: k in labels <==> k in order || k in rest
      invariant forall k :: k in order ==> k !in rest
      invariant forall i, j :: 0 <= i < j < |order| ==> order[i] != order[j]
      decreases rest
    {
      var k :| k in rest;
      order := order + [k];
      rest := rest - {k};
    }
  }

  /** The decision the handler turns into an HTTP answer, once the review has been decoded. */
  datatype AdmitDecision =
    | Denied(reason: AdmissionError)          // 403
    | AllowedUnchanged                         // allowed, no patch
    | AllowedWithPatch(mutated: PersistentVolume)  // allowed; patch is the diff against the volume

  /**
   * The core of `admit`: resolve the labels; deny on a resolution error; allow unchanged when
   * there is nothing to add; otherwise mutate a copy (the request's volume is left as it is)
   * and deny if that fails.
   */
  method Admit(p: PVLabelAdmission, pv: PersistentVolume, decodeZones: ZoneDecoder) returns (decision: AdmitDecision)
    requires pv.Valid()
    ensures GetVolumeLabels(p, pv).Failure? ==> decision == Denied(GetVolumeLabels(p, pv).error)
    ensures GetVolumeLabels(p, pv) == Success(map[]) ==> decision == AllowedUnchanged
    ensures decision.AllowedUnchanged? ==> GetVolumeLabels(p, pv) == Success(map[])
    ensures decision.AllowedWithPatch? ==>
              && fresh(decision.mutated) && decision.mutated.Valid()
              && GetVolumeLabels(p, pv).Success?
              && decision.mutated.labels == pv.labels + GetVolumeLabels(p, pv).value
              && decision.mutated.hasNodeAffinity && decision.mutated.hasRequired
              && |decision.mutated.terms| >= 1
    ensures decision.Denied? && GetVolumeLabels(p, pv).Success? ==> decision.reason.ZoneConversionFailed?
    ensures decision.AllowedWithPatch? <==>
              && GetVolumeLabels(p, pv).Success?
              && |GetVolumeLabels(p, pv).value| > 0
              && forall k :: k in GetVolumeLabels(p, pv).value && IsZoneKey(k) ==>
                   decodeZones(GetVolumeLabels(p, pv).value[k]).Some?
  {
    var resolved := GetVolumeLabels(p, pv);
    if resolved.Failure? {
      return Denied(resolved.error);
    }
    var volumeLabels := resolved.value;
    if |volumeLabels| == 0 {
      return AllowedUnchanged;
    }
    var newPV := pv.DeepCopy();
    var order := IterationOrder(volumeLabels);
    var outcome := MutatePV(newPV, volumeLabels, order, decodeZones);
    if outcome.Fail? {
      return Denied(outcome.error);
    }
    return AllowedWithPatch(newPV);
  }
}
