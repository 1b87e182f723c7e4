# PersistentVolume topology-label admission, modelled in Dafny

This project models the core of a Kubernetes mutating-admission webhook. The webhook labels
PersistentVolumes with their topology (zone and region). It also adds matching node-affinity
requirements, so that pods using a volume are only scheduled onto nodes in the volume's zone.

The core has three parts:

- **Label resolution** (`Admission.GetVolumeLabels`). A dynamically provisioned volume that
  already carries a complete zone/region pair keeps that pair. The GA keys
  (`topology.kubernetes.io/...`) are tried first, then the legacy
  `failure-domain.beta.kubernetes.io/...` keys. Otherwise, the configured cloud provider is
  asked when it owns the volume's source (gce/GCE PD, azure/AzureDisk, aws/AWS EBS,
  vsphere/vSphere volume). Otherwise nothing is added.
- **Mutation** (`Admission.MutatePV`, on the class `CoreV1.PersistentVolume`). It overwrites the
  owned labels and builds one `In` requirement per label. A zone value is expanded into its
  sorted zone list. It makes sure a node affinity with at least one term exists. Then it appends
  every requirement to every term, unless one of the new keys is already used in some term, in
  which case no requirement is added at all.
- **The collision check** (`Admission.KeysCollide`, searched by the loop method
  `Admission.KeysExistInTerms`).

Two collaborators are parameters. The cloud label provider is the function field
`PVLabelAdmission.pvLabeler`. The library's multi-zone conversion (`LabelZonesToSet(v).List()`)
is a `ZoneDecoder`: it either fails or returns a list that `ZoneListDecoder` requires to be
strictly ascending. Go's randomised map iteration order is an explicit `order` sequence
(`IsIterationOrder`). `Admit` draws that order with a nondeterministic choice. The lemmas state
order-sensitive results as sets and multisets.

Behaviour kept as the code has it: when a zone value fails to convert, `mutatePV` returns an
error, but the labels of every key visited so far stay written, including the failing key
itself. The node affinity is left untouched. The model follows the code (`MutatePV`,
`WriteLabels`, `KeysVisited`).

Files: `wrappers.dfy` (Option/Result/Outcome), `core_v1.dfy` (label keys, node-selector types,
volume sources, the PersistentVolume class), `admission.dfy` (the core),
`admission_properties.dfy` (lemmas about the core).

## Model

| member | source | states |
|---|---|---|
| `Admission.GetVolumeLabels` | admission.go:183-243 | A provisioned volume with a complete GA pair gets exactly that GA pair. One with no GA pair but a complete beta pair gets exactly the beta pair. Otherwise, a matching provider's labels are returned verbatim on success. A provider failure becomes a query error naming the backend and the volume. A source the provider does not own gives empty labels and no error. |
| `Admission.Requirements` | admission.go:138-157 | Visiting the labels in iteration order succeeds iff every zone value converts. On success there is one requirement per visited key, in visiting order. Each is `key In values`: the converted zone list for zone keys, `[value]` for other keys. |
| `Admission.KeysVisited` | admission.go:138-150 | The loop stops at the first key whose zone value does not convert, after writing that key's label. The error names that value. Without a failure every key is visited. |
| `Admission.FailureIsFinal` | admission.go:146-150 | Once a prefix of the visit fails, the whole visit fails with the same error at the same key. |
| `Admission.KeysExistInTerms` | admission.go:245-256 | The triple search loop with early return answers true iff some requirement key equals the key of some expression in some term. |
| `Admission.WriteLabels` | admission.go:132-157 | The label loop returns exactly the requirements of the visit, or its error. It leaves the labels as the old labels overwritten by the visited keys' values. |
| `Admission.AppendToEveryTermInPlace` | admission.go:173-177 | The nested append loop leaves each term's expressions as its old expressions followed by all requirements, in requirement order. No term is added, removed or reordered. |
| `Admission.MutatePV` | admission.go:131-181 | Succeeds iff the requirements build. The labels become the old labels overwritten by the visited keys: all keys on success. On failure the node affinity is unchanged. On success the affinity and selector exist and the terms are the merge of the seeded old terms with the requirements. |
| `Admission.IterationOrder` | admission.go:138 | Go's `range` over a map yields every key exactly once, in an order the runtime chooses. |
| `Admission.Admit` | admission.go:66-83 | A resolution error denies. Empty labels allow without mutation. Otherwise a fresh copy of the volume is mutated. The result is a patch exactly when resolution succeeds with non-empty labels whose zone values all convert; a conversion error denies. A patched copy has the labels applied and at least one term. The request's volume is not modified. |
| `CoreV1.PersistentVolume.DeepCopy` | admission.go:77-78 | The copy is a fresh object with the same labels, annotations, source and node affinity. |
| `AdmissionProperties.TrustedLabelsAreOneExistingGeneration` | admission.go:187-211 | A trusted result has exactly the GA keys or exactly the beta keys, and never holds a GA key beside a beta key. Its values are the volume's existing values, so writing it back changes no label. |
| `AdmissionProperties.ProviderConsultedOnlyOnDispatch` | admission.go:199-239 | When the labels are trusted, or the provider does not own the source, replacing the provider changes nothing: it is not consulted. |
| `AdmissionProperties.ResolutionErrorsComeFromProvider` | admission.go:214-242 | Resolution fails only if the provider was consulted and failed; the error carries the provider's cause. |
| `AdmissionProperties.RequirementsSucceedIffZonesConvert` | admission.go:145-150 | For any iteration order, building the requirements succeeds iff every zone-keyed value of the label map converts. |
| `AdmissionProperties.RequirementsMatchLabels` | admission.go:138-157 | A requirement is in the built list iff it is the `In` requirement for some label of the map with that label's values. Requirement keys are unique. |
| `AdmissionProperties.RequirementValuesShape` | admission.go:145-156 | Zone requirements carry the converted zones, strictly ascending. Every other requirement carries just the label's value. |
| `AdmissionProperties.RequirementsOrderIndependent` | admission.go:138-157 | Two iteration orders agree on success and give the same multiset of requirements. |
| `AdmissionProperties.KeysCollideIffKeySetsMeet` | admission.go:245-256 | The collision check holds iff the set of new keys meets the set of keys used in the terms' expressions. |
| `AdmissionProperties.KeysCollideSameElements` | admission.go:245-256 | Requirement lists with the same multiset collide with the same terms. |
| `AdmissionProperties.MergeKeepsTerms` | admission.go:159-178 | After seeding and merging there is at least one term, exactly one if there were none. Existing terms keep their position, match fields and old expressions as a prefix. Either no term changes (collision) or every term gains exactly the requirements (no collision). |
| `AdmissionProperties.MergeKeepsKeysUnique` | admission.go:169-177 | If every existing term and the requirements each use a key at most once, every merged term does too. |
| `AdmissionProperties.MergeIdempotent` | admission.go:159-178 | Merging the same requirements into the merged terms again changes nothing. |
| `AdmissionProperties.MutationOrderIndependent` | admission.go:138-178 | For two iteration orders, the merged terms have the same count and match fields. Each term's expressions are the same multiset. |
| `AdmissionProperties.NoAffinityGetsOneTerm` | admission.go:165-168 | A volume without terms ends with exactly one term whose expressions are exactly the requirements. With no requirements, that term is empty. |

## Left out

- `admit`'s HTTP and wire handling (reading the body, decoding the AdmissionReview, the kind check, JSON unmarshalling, status codes, marshalling the response): I/O. `Admit` models only the decision over the core.
- `getPatchBytes`: a wrapper around an external JSON-patch diff library whose algorithm is not part of this model. `Admit` returns the mutated copy that would be diffed.
- main.go and provider.go: flags, TLS server, config-file reading and the global cloud-provider registry are process bootstrap.
- The providers' `GetLabelsForVolume`: network calls, modelled as the arbitrary function `PVLabeler` of a snapshot of the whole volume (name, annotations, labels, source, node affinity), which is what the real call receives.
- `volumehelpers.LabelZonesToSet` and the `sets.String` sorting: library code, modelled as the arbitrary `ZoneDecoder`. Sortedness is the assumption `ZoneListDecoder`.
- Logging (`klog`) and `context.Background()`: no effect on results.
- Nil versus empty label map: `mutatePV` allocates a nil label map before writing. The model treats a nil map as an empty one, since both serialise the same way.
- Volume sources: the API allows one populated source, so `VolumeSource` is a tagged union. An object with several populated sources, which the Go `switch` would resolve by case order, cannot be expressed.
- The test file's `NewPVLabelAdmission` constructor is not in admission.go. `PVLabelAdmission` is built directly from the provider name and the provider.
