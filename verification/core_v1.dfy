/**
 * The part of the Kubernetes core/v1 API that the volume-labelling admission core reads and
 * writes: the well-known topology label keys, node-selector requirements and terms, the
 * volume source variants, and the PersistentVolume object itself.
 */
module CoreV1 {

  /** GA ("current generation") topology label keys. */
  const LabelTopologyZone: string := "topology.kubernetes.io/zone"
  const LabelTopologyRegion: string := "topology.kubernetes.io/region"

  /** Legacy ("failure-domain beta") topology label keys. */
  const LabelFailureDomainBetaZone: string := "failure-domain.beta.kubernetes.io/zone"
  const LabelFailureDomainBetaRegion: string := "failure-domain.beta.kubernetes.io/region"

  /** The annotation a dynamic provisioner puts on every volume it creates. */
  const AnnDynamicallyProvisioned: string := "pv.kubernetes.io/provisioned-by"

  datatype NodeSelectorOperator = In | NotIn | Exists | DoesNotExist | Gt | Lt

  /** One match expression: `key <operator> values`. */
  datatype NodeSelectorRequirement =
    NodeSelectorRequirement(key: string, operator: NodeSelectorOperator, values: seq<string>)

  /** One OR-branch of a node selector: all of its expressions must hold. */
  datatype NodeSelectorTerm =
    NodeSelectorTerm(matchExpressions: seq<NodeSelectorRequirement>, matchFields: seq<NodeSelectorRequirement>)

  /** The zero value of a term, as `make([]NodeSelectorTerm, 1)` produces it. */
  const EmptyTerm: NodeSelectorTerm := NodeSelectorTerm([], [])

  /**
   * The populated vendor-specific source of a volume. The API allows exactly one source to be
   * set; the four kinds the label providers know are distinguished, every other kind (host path,
   * NFS, CSI, ...) is OtherSource.
   */
  datatype VolumeSource =
    | GCEPersistentDisk(pdName: string)
    | AzureDisk(diskName: string)
    | AWSElasticBlockStore(volumeID: string)
    | VsphereVolume(volumePath: string)
    | OtherSource

  /** The contents of a PersistentVolume at one moment, as a value. */
  datatype VolumeSnapshot = VolumeSnapshot(
    name: string, annotations: map<string, string>, labels: map<string, string>, source: VolumeSource,
    hasNodeAffinity: bool, hasRequired: bool, terms: seq<NodeSelectorTerm>)

  /**
   * A PersistentVolume. The labels and the node affinity are updated in place; the pointer
   * fields `Spec.NodeAffinity` and `Spec.NodeAffinity.Required` are the flags hasNodeAffinity
   * and hasRequired, and `Required.NodeSelectorTerms` is `terms`. A nil label map reads as empty.
   */
  class PersistentVolume {
    const name: string
    const annotations: map<string, string>
    const source: VolumeSource
    var labels: map<string, string>
    var hasNodeAffinity: bool
    var hasRequired: bool
    var terms: seq<NodeSelectorTerm>

    /** A selector exists only inside a node affinity, and terms exist only inside a selector. */
    ghost predicate Valid()
      reads this
    {
      && (hasRequired ==> hasNodeAffinity)
      && (!hasRequired ==> terms == [])
    }

    /** Every field of the volume as it is now. */
    function Snapshot(): VolumeSnapshot
      reads this
    {
      VolumeSnapshot(name, annotations, labels, source, hasNodeAffinity, hasRequired, terms)
    }

    constructor (name: string, annotations: map<string, string>, source: VolumeSource,
                 labels: map<string, string>, hasNodeAffinity: bool, hasRequired: bool,
                 terms: seq<NodeSelectorTerm>)
      requires hasRequired ==> hasNodeAffinity
      requires !hasRequired ==> terms == []
      ensures Valid()
      ensures this.name == name && this.annotations == annotations && this.source == source
      ensures this.labels == labels && this.hasNodeAffinity == hasNodeAffinity
      ensures this.hasRequired == hasRequired && this.terms == terms
    {
      this.name := name;
      this.annotations := annotations;
      this.source := source;
      this.labels := labels;
      this.hasNodeAffinity := hasNodeAffinity;
      this.hasRequired := hasRequired;
      this.terms := terms;
    }

    /** A fresh object with the same contents. */
    method DeepCopy() returns (c: PersistentVolume)
      requires Valid()
      ensures fresh(c) && c.Valid()
      ensures c.name == name && c.annotations == annotations && c.source == source
      ensures c.labels == labels && c.hasNodeAffinity == hasNodeAffinity
      ensures c.hasRequired == hasRequired && c.terms == terms
    {
      c := new PersistentVolume(name, annotations, source, labels, hasNodeAffinity, hasRequired, terms);
    }
  }

  /** Go's byte-wise string order (on code points, which orders UTF-8 bytes the same way). */
  predicate LexLess(a: string, b: string)
    decreases |a|
  {
    |b| > 0 && (|a| == 0 || a[0] < b[0] || (a[0] == b[0] && LexLess(a[1..], b[1..])))
  }

  /** Strictly ascending, hence also free of duplicates. */
  predicate StrictlyAscending(s: seq<string>)
  {
    forall i, j :: 0 <= i < j < |s| ==> LexLess(s[i], s[j])
  }
}
