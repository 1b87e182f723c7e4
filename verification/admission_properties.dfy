/**
 * Properties of the admission core: what label resolution returns and when it asks the
 * provider, what the requirements built from a label map are (independently of Go's map
 * iteration order), and what merging them into node-affinity terms keeps and adds.
 */
module AdmissionProperties {
  import opened Wrappers
  import opened CoreV1
  import opened Admission

  // ---------------------------------------------------------------------------------------
  // Label resolution
  // ---------------------------------------------------------------------------------------

  /**
   * Trusted existing labels: a dynamically provisioned volume with a complete pair gets back
   * exactly one generation's pair, never a GA key beside a beta key, with the values it
   * already carries, so writing the result back changes no label.
   */
  lemma TrustedLabelsAreOneExistingGeneration(p: PVLabelAdmission, pv: PersistentVolume)
    requires Trusted(pv)
    ensures GetVolumeLabels(p, pv).Success?
    ensures var got := GetVolumeLabels(p, pv).value;
            || got.Keys == {LabelTopologyZone, LabelTopologyRegion}
            || got.Keys == {LabelFailureDomainBetaZone, LabelFailureDomainBetaRegion}
    ensures var got := GetVolumeLabels(p, pv).value;
            forall k :: k in got ==> k in pv.labels && got[k] == pv.labels[k]
    ensures var got := GetVolumeLabels(p, pv).value;
            forall ga, beta :: ga in got && beta in got ==>
              !(ga in {LabelTopologyZone, LabelTopologyRegion} &&
                beta in {LabelFailureDomainBetaZone, LabelFailureDomainBetaRegion})
    ensures pv.labels + GetVolumeLabels(p, pv).value == pv.labels
  {
  }

  /**
   * The provider is consulted only on dispatch: whenever the existing labels are trusted or the
   * configured provider does not own the volume's source, any other provider gives the same result.
   */
  lemma ProviderConsultedOnlyOnDispatch(p: PVLabelAdmission, pv: PersistentVolume, other: PVLabeler)
    requires !ConsultsProvider(p, pv)
    ensures GetVolumeLabels(p.(pvLabeler := other), pv) == GetVolumeLabels(p, pv)
  {
  }

  /** Resolution fails only when the provider was asked and failed. */
  lemma ResolutionErrorsComeFromProvider(p: PVLabelAdmission, pv: PersistentVolume)
    requires GetVolumeLabels(p, pv).Failure?
    ensures ConsultsProvider(p, pv) && p.pvLabeler(pv.Snapshot()).Failure?
    ensures GetVolumeLabels(p, pv).error.QueryFailed?
    ensures GetVolumeLabels(p, pv).error.cause == p.pvLabeler(pv.Snapshot()).error
  {
  }

  // ---------------------------------------------------------------------------------------
  // Requirements built from a label map
  // ---------------------------------------------------------------------------------------

  /** Every zone value of the map converts. */
  predicate ZoneValuesConvert(labels: map<string, string>, decodeZones: ZoneDecoder)
  {
    forall k :: k in labels && IsZoneKey(k) ==> decodeZones(labels[k]).Some?
  }

  predicate UniqueKeys(reqs: seq<NodeSelectorRequirement>)
  {
    forall a, b :: 0 <= a < b < |reqs| ==> reqs[a].key != reqs[b].key
  }

  /** Building the requirements fails exactly when some zone value does not convert, whatever the order. */
  lemma RequirementsSucceedIffZonesConvert(order: seq<string>, labels: map<string, string>, decodeZones: ZoneDecoder)
    requires IsIterationOrder(order, labels)
    ensures Requirements(order, labels, decodeZones).Success? <==> ZoneValuesConvert(labels, decodeZones)
  {
  }

  /**
   * The requirements are exactly one `In` requirement per label, keyed by the label: a
   * characterisation that does not mention the iteration order.
   */
  lemma RequirementsMatchLabels(order: seq<string>, labels: map<string, string>, decodeZones: ZoneDecoder)
    requires IsIterationOrder(order, labels)
    requires Requirements(order, labels, decodeZones).Success?
    ensures var reqs := Requirements(order, labels, decodeZones).value;
            forall rq :: rq in reqs <==>
              rq.key in labels && rq.operator == In && RequirementValues(rq.key, labels[rq.key], decodeZones) == Some(rq.values)
    ensures UniqueKeys(Requirements(order, labels, decodeZones).value)
  {
  }

  /**
   * Zone requirements list the converted zones (sorted and without duplicates, as the set
   * conversion promises); every other requirement lists the label's value alone.
   */
  lemma RequirementValuesShape(order: seq<string>, labels: map<string, string>, decodeZones: ZoneDecoder)
    requires ZoneListDecoder(decodeZones)
    requires forall k :: k in order ==> k in labels
    requires Requirements(order, labels, decodeZones).Success?
    ensures forall rq :: rq in Requirements(order, labels, decodeZones).value ==>
              rq.key in labels && rq.operator == In &&
              (IsZoneKey(rq.key) ==> Some(rq.values) == decodeZones(labels[rq.key]) && StrictlyAscending(rq.values)) &&
              (!IsZoneKey(rq.key) ==> rq.values == [labels[rq.key]])
  {
  }

  lemma {:induction false} DistinctCount<T>(s: seq<T>, x: T)
    requires Distinct(s)
    ensures multiset(s)[x] == if x in s then 1 else 0
  {
    if s != [] {
      var init := s[..|s| - 1];
      assert s == init + [s[|s| - 1]];
      DistinctCount(init, x);
    }
  }

  lemma DistinctSameElements<T>(a: seq<T>, b: seq<T>)
    requires Distinct(a) && Distinct(b)
    requires forall x :: x in a <==> x in b
    ensures multiset(a) == multiset(b)
  {
    forall x ensures multiset(a)[x] == multiset(b)[x] {
      DistinctCount(a, x);
      DistinctCount(b, x);
    }
  }

  /** Two runs of the map iteration build the same requirements, possibly in another order. */
  lemma RequirementsOrderIndependent(order1: seq<string>, order2: seq<string>, labels: map<string, string>,
                                     decodeZones: ZoneDecoder)
    requires IsIterationOrder(order1, labels) && IsIterationOrder(order2, labels)
    ensures Requirements(order1, labels, decodeZones).Success? == Requirements(order2, labels, decodeZones).Success?
    ensures Requirements(order1, labels, decodeZones).Success? ==>
              multiset(Requirements(order1, labels, decodeZones).value) == multiset(Requirements(order2, labels, decodeZones).value)
  {
    RequirementsSucceedIffZonesConvert(order1, labels, decodeZones);
    RequirementsSucceedIffZonesConvert(order2, labels, decodeZones);
    if Requirements(order1, labels, decodeZones).Success? {
      var reqs1 := Requirements(order1, labels, decodeZones).value;
      var reqs2 := Requirements(order2, labels, decodeZones).value;
      RequirementsMatchLabels(order1, labels, decodeZones);
      RequirementsMatchLabels(order2, labels, decodeZones);
      DistinctSameElements(reqs1, reqs2);
    }
  }

  // ---------------------------------------------------------------------------------------
  // Merging into node-affinity terms
  // ---------------------------------------------------------------------------------------

  function RequirementKeys(reqs: seq<NodeSelectorRequirement>): set<string>
  {
    set rq | rq in reqs :: rq.key
  }

  function ExpressionKeys(terms: seq<NodeSelectorTerm>): set<string>
  {
    set t, e | t in terms && e in t.matchExpressions :: e.key
  }

  /** The collision check holds exactly when the new keys and the keys in use overlap. */
  lemma KeysCollideIffKeySetsMeet(reqs: seq<NodeSelectorRequirement>, terms: seq<NodeSelectorTerm>)
    ensures KeysCollide(reqs, terms) <==> RequirementKeys(reqs) * ExpressionKeys(terms) != {}
  {
    if KeysCollide(reqs, terms) {
      var i, j, l :| 0 <= i < |reqs| && 0 <= j < |terms| && 0 <= l < |terms[j].matchExpressions|
                     && terms[j].matchExpressions[l].key == reqs[i].key;
      assert terms[j] in terms && terms[j].matchExpressions[l] in terms[j].matchExpressions;
      assert reqs[i].key in ExpressionKeys(terms);
      assert reqs[i] in reqs;
      assert reqs[i].key in RequirementKeys(reqs);
      assert reqs[i].key in RequirementKeys(reqs) * ExpressionKeys(terms);
    }
    if RequirementKeys(reqs) * ExpressionKeys(terms) != {} {
      var k :| k in RequirementKeys(reqs) * ExpressionKeys(terms);
      var rq :| rq in reqs && rq.key == k;
      var t, e :| t in terms && e in t.matchExpressions && e.key == k;
      var i :| 0 <= i < |reqs| && reqs[i] == rq;
      var j :| 0 <= j < |terms| && terms[j] == t;
      var l :| 0 <= l < |t.matchExpressions| && t.matchExpressions[l] == e;
      assert terms[j].matchExpressions[l].key == reqs[i].key;
      assert KeysCollide(reqs, terms);
    }
  }

  /**
   * Term seeding and all-or-nothing: the result has at least one term (exactly one when there
   * were none); existing terms keep their place, their match fields and their expressions as a
   * prefix; and either no term changes or every term gains exactly the new requirements.
   */
  lemma MergeKeepsTerms(terms: seq<NodeSelectorTerm>, reqs: seq<NodeSelectorRequirement>)
    ensures var merged := MergeTerms(Seed(terms), reqs);
            && |merged| == (if |terms| == 0 then 1 else |terms|)
            && (|terms| == 0 ==> merged[0].matchFields == [] && merged[0].matchExpressions == reqs)
            && (forall j :: 0 <= j < |terms| ==>
                  && merged[j].matchFields == terms[j].matchFields
                  && |terms[j].matchExpressions| <= |merged[j].matchExpressions|
                  && merged[j].matchExpressions[..|terms[j].matchExpressions|] == terms[j].matchExpressions)
            && ((!KeysCollide(reqs, terms) &&
                 forall j :: 0 <= j < |merged| ==> merged[j].matchExpressions == Seed(terms)[j].matchExpressions + reqs)
                || (KeysCollide(reqs, terms) && merged == terms))
  {
  }

  /**
   * Conflict safety: when every existing term and the new requirements each use a key at most
   * once, so does every term after the merge.
   */
  lemma MergeKeepsKeysUnique(terms: seq<NodeSelectorTerm>, reqs: seq<NodeSelectorRequirement>)
    requires forall j :: 0 <= j < |terms| ==> UniqueKeys(terms[j].matchExpressions)
    requires UniqueKeys(reqs)
    ensures var merged := MergeTerms(Seed(terms), reqs);
            forall j :: 0 <= j < |merged| ==> UniqueKeys(merged[j].matchExpressions)
  {
  }

  /**
   * Merging the same requirements a second time changes nothing: after a merge the terms
   * either already collided or now carry the requirements themselves.
   */
  lemma MergeIdempotent(terms: seq<NodeSelectorTerm>, reqs: seq<NodeSelectorRequirement>)
    ensures var merged := MergeTerms(Seed(terms), reqs);
            MergeTerms(Seed(merged), reqs) == merged
  {
    var seeded := Seed(terms);
    var merged := MergeTerms(seeded, reqs);
    assert Seed(merged) == merged;
    if reqs == [] {
      assert forall j :: 0 <= j < |merged| ==> merged[j].matchExpressions + [] == merged[j].matchExpressions;
      assert AppendToEveryTerm(merged, reqs) == merged;
    } else if !KeysCollide(reqs, seeded) {
      var l := |seeded[0].matchExpressions|;
      assert merged[0].matchExpressions == seeded[0].matchExpressions + reqs;
      assert merged[0].matchExpressions[l] == reqs[0];
      assert KeysCollide(reqs, merged);
    }
  }

  /** Requirement sequences with the same elements collide with the same terms. */
  lemma KeysCollideSameElements(reqs1: seq<NodeSelectorRequirement>, reqs2: seq<NodeSelectorRequirement>,
                                terms: seq<NodeSelectorTerm>)
    requires multiset(reqs1) == multiset(reqs2)
    ensures KeysCollide(reqs1, terms) == KeysCollide(reqs2, terms)
  {
    assert forall rq :: rq in reqs1 <==> rq in multiset(reqs1);
    assert forall rq :: rq in reqs2 <==> rq in multiset(reqs2);
    assert RequirementKeys(reqs1) == RequirementKeys(reqs2);
    KeysCollideIffKeySetsMeet(reqs1, terms);
    KeysCollideIffKeySetsMeet(reqs2, terms);
  }

  /**
   * The node affinity a successful mutation produces does not depend on Go's map iteration
   * order, up to the order of the appended expressions within each term.
   */
  lemma MutationOrderIndependent(terms: seq<NodeSelectorTerm>, labels: map<string, string>,
                                 order1: seq<string>, order2: seq<string>, decodeZones: ZoneDecoder)
    requires IsIterationOrder(order1, labels) && IsIterationOrder(order2, labels)
    requires Requirements(order1, labels, decodeZones).Success?
    ensures Requirements(order2, labels, decodeZones).Success?
    ensures var merged1 := MergeTerms(Seed(terms), Requirements(order1, labels, decodeZones).value);
            var merged2 := MergeTerms(Seed(terms), Requirements(order2, labels, decodeZones).value);
            && |merged1| == |merged2|
            && forall j :: 0 <= j < |merged1| ==>
                 && merged1[j].matchFields == merged2[j].matchFields
                 && multiset(merged1[j].matchExpressions) == multiset(merged2[j].matchExpressions)
  {
    RequirementsOrderIndependent(order1, order2, labels, decodeZones);
    var reqs1 := Requirements(order1, labels, decodeZones).value;
    var reqs2 := Requirements(order2, labels, decodeZones).value;
    var seeded := Seed(terms);
    KeysCollideSameElements(reqs1, reqs2, seeded);
    if !KeysCollide(reqs1, seeded) {
      var merged1 := MergeTerms(seeded, reqs1);
      var merged2 := MergeTerms(seeded, reqs2);
      forall j | 0 <= j < |merged1|
        ensures multiset(merged1[j].matchExpressions) == multiset(merged2[j].matchExpressions)
      {
        assert merged1[j].matchExpressions == seeded[j].matchExpressions + reqs1;
        assert merged2[j].matchExpressions == seeded[j].matchExpressions + reqs2;
      }
    }
  }

  /**
   * A volume with no node affinity ends up with exactly one term holding exactly the new
   * requirements (one empty term when there are none).
   */
  lemma NoAffinityGetsOneTerm(reqs: seq<NodeSelectorRequirement>)
    ensures MergeTerms(Seed([]), reqs) == [NodeSelectorTerm(reqs, [])]
  {
    assert !KeysCollide(reqs, [EmptyTerm]);
    var merged := AppendToEveryTerm([EmptyTerm], reqs);
    assert |merged| == 1 && merged[0] == NodeSelectorTerm(reqs, []);
  }
}
