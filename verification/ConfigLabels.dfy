/** Which configuration applies to a cluster type and deployment target.

    Config maps carry their conditions as labels; keys of Azure app-configuration maps spell them out as
    `label1.value1.label2.value2.key`. */
module ConfigLabels {
  import opened Api
  import opened Text

  // ----- Label matching -----

  /** One condition, on its own. Unknown labels may be met by either object; a missing label reads as "". */
  predicate ConditionHolds(key: string, value: string, ct: ClusterType, dt: DeploymentTarget) {
    if key == FLUX_OWNER_LABEL || key == FLUX_NAMESPACE_LABEL || key == PLATFORM_CONFIG_LABEL then true
    else if key == CLUSTER_TYPE_LABEL then value == ct.name
    else if key == DEPLOYMENT_TARGET_LABEL then value == dt.name
    else if key == WORKLOAD_LABEL then value == dt.Workload()
    else Lookup(ct.labels, key) == value || Lookup(dt.labels, key) == value
  }

  predicate Applies(labels: Labels, ct: ClusterType, dt: DeploymentTarget) {
    forall key :: key in labels ==> ConditionHolds(key, labels[key], ct, dt)
  }

  /** The labels are visited in an arbitrary order, and the loop stops at the first mismatch. */
  method IsConfigForClusterTypeAndTarget(labels: Labels, ct: ClusterType, dt: DeploymentTarget) returns (matches: bool)
    ensures matches <==> Applies(labels, ct, dt)
  {
    matches := true;
    var pending := labels.Keys;
    while pending != {}
      invariant pending <= labels.Keys && matches
      invariant forall key :: key in labels && key !in pending ==> ConditionHolds(key, labels[key], ct, dt)
    {
      var key :| key in pending;
      var value := labels[key];
      if key != FLUX_OWNER_LABEL && key != FLUX_NAMESPACE_LABEL && key != PLATFORM_CONFIG_LABEL {
        if key == CLUSTER_TYPE_LABEL {
          if value != ct.name {
            matches := false;
            break;
          }
        } else if key == DEPLOYMENT_TARGET_LABEL {
          if value != dt.name {
            matches := false;
            break;
          }
        } else if key == WORKLOAD_LABEL {
          if value != dt.Workload() {
            matches := false;
            break;
          }
        } else if Lookup(ct.labels, key) != value {
          if Lookup(dt.labels, key) != value {
            matches := false;
            break;
          }
        }
      }
      pending := pending - {key};
    }
  }

  // ----- What the labels of a config map ask for -----

  /** The labels by which Flux and the operator find config maps make no difference. */
  lemma OperatorLabelsIrrelevant(labels: Labels, key: string, value: string, ct: ClusterType, dt: DeploymentTarget)
    requires key in {"kustomize.toolkit.fluxcd.io/name", "kustomize.toolkit.fluxcd.io/namespace", "platform-config"}
    ensures Applies(labels[key := value], ct, dt) <==> Applies(labels - {key}, ct, dt)
  {
    AppliesWith(labels, key, value, ct, dt);
  }

  /** Each further label asks for one thing: the name of the cluster type, that of the target, that of its workload,
      or a label of either object. */
  lemma OneMoreLabel(labels: Labels, key: string, value: string, ct: ClusterType, dt: DeploymentTarget)
    requires key !in {"kustomize.toolkit.fluxcd.io/name", "kustomize.toolkit.fluxcd.io/namespace", "platform-config"}
    ensures Applies(labels[key := value], ct, dt) <==>
            Applies(labels - {key}, ct, dt)
            && if key == "cluster-type" then value == ct.name
               else if key == "deployment-target" then value == dt.name
               else if key == "workload" then value == if key in dt.labels then dt.labels[key] else ""
               else value in {if key in ct.labels then ct.labels[key] else "",
                              if key in dt.labels then dt.labels[key] else ""}
  {
    AppliesWith(labels, key, value, ct, dt);
  }

  lemma NoLabelsApply(ct: ClusterType, dt: DeploymentTarget)
    ensures Applies(map[], ct, dt)
  {
  }

  lemma AppliesWith(labels: Labels, key: string, value: string, ct: ClusterType, dt: DeploymentTarget)
    ensures Applies(labels[key := value], ct, dt) <==>
            Applies(labels - {key}, ct, dt) && ConditionHolds(key, value, ct, dt)
  {
    var more, fewer := labels[key := value], labels - {key};
    hide ConditionHolds;
    assert forall k :: k in fewer ==> k in more && more[k] == fewer[k];
    assert forall k :: k in more && k != key ==> k in fewer && more[k] == fewer[k];
    assert key in more && more[key] == value;
  }

  // ----- Keys with conditions -----

  datatype Condition = Condition(key: string, value: string)

  /** Later conditions on the same label override earlier ones. */
  function LabelsOf(conditions: seq<Condition>): Labels {
    if conditions == [] then map[]
    else
      var last := conditions[|conditions| - 1];
      LabelsOf(conditions[..|conditions| - 1])[last.key := last.value]
  }

  /** The parts taken pairwise, up to the last one; a left-over part before the last is ignored. */
  function PairUp(parts: seq<string>): seq<Condition>
    requires parts != []
  {
    seq((|parts| - 1) / 2, i requires 0 <= i < (|parts| - 1) / 2 => Condition(parts[2 * i], parts[2 * i + 1]))
  }

  function KeyLabels(key: string): Labels {
    LabelsOf(PairUp(Split(key, ".")))
  }

  function TrimmedKey(key: string): string {
    var parts := Split(key, ".");
    parts[|parts| - 1]
  }

  lemma NextPair(parts: seq<string>, k: nat)
    requires 2 * k + 1 < |parts| - 1
    ensures k < |PairUp(parts)|
    ensures LabelsOf(PairUp(parts)[..k + 1]) == LabelsOf(PairUp(parts)[..k])[parts[2 * k] := parts[2 * k + 1]]
  {
    assert PairUp(parts)[..k + 1][..k] == PairUp(parts)[..k];
  }

  method GetLabelsFromKey(key: string) returns (labels: Labels, trimmedKey: string)
    ensures labels == KeyLabels(key) && trimmedKey == TrimmedKey(key)
  {
    labels := map[];
    var parts := Split(key, ".");
    ghost var conditions := PairUp(parts);
    var i := 1;
    ghost var k := 0;
    while i < |parts| - 1
      invariant i == 2 * k + 1 && k <= |conditions|
      invariant labels == LabelsOf(conditions[..k])
    {
      NextPair(parts, k);
      labels := labels[parts[i - 1] := parts[i]];
      i, k := i + 2, k + 1;
    }
    assert conditions[..k] == conditions;
    trimmedKey := parts[|parts| - 1];
  }

  // ----- Printing and parsing -----

  function KeyParts(conditions: seq<Condition>, key: string): (parts: seq<string>)
    ensures |parts| == 2 * |conditions| + 1
  {
    if conditions == [] then [key]
    else [conditions[0].key, conditions[0].value] + KeyParts(conditions[1..], key)
  }

  /** `label1.value1. ... .key` */
  function PrintKey(conditions: seq<Condition>, key: string): string {
    Join(KeyParts(conditions, key), ".")
  }

  predicate DotFree(conditions: seq<Condition>, key: string) {
    '.' !in key && forall i :: 0 <= i < |conditions| ==> '.' !in conditions[i].key && '.' !in conditions[i].value
  }

  predicate DistinctLabels(conditions: seq<Condition>) {
    forall i, j :: 0 <= i < j < |conditions| ==> conditions[i].key != conditions[j].key
  }

  lemma {:induction false} KeyPartsAt(conditions: seq<Condition>, key: string)
    ensures var parts := KeyParts(conditions, key);
            parts[|parts| - 1] == key
            && forall i :: 0 <= i < |conditions| ==> Condition(parts[2 * i], parts[2 * i + 1]) == conditions[i]
  {
    if conditions == [] {
    } else {
      KeyPartsAt(conditions[1..], key);
      var parts, rest := KeyParts(conditions, key), KeyParts(conditions[1..], key);
      forall i | 0 <= i < |conditions|
        ensures Condition(parts[2 * i], parts[2 * i + 1]) == conditions[i]
      {
        if i > 0 {
          assert Condition(rest[2 * (i - 1)], rest[2 * (i - 1) + 1]) == conditions[1..][i - 1];
        }
      }
    }
  }

  lemma {:induction false} KeyPartsDotFree(conditions: seq<Condition>, key: string)
    requires DotFree(conditions, key)
    ensures forall i :: 0 <= i < |KeyParts(conditions, key)| ==> '.' !in KeyParts(conditions, key)[i]
  {
    if conditions == [] {
    } else {
      KeyPartsDotFree(conditions[1..], key);
    }
  }

  /** Parsing a printed key gives back its conditions and its bare key. */
  lemma ParsePrintedKey(conditions: seq<Condition>, key: string)
    requires DotFree(conditions, key)
    ensures KeyLabels(PrintKey(conditions, key)) == LabelsOf(conditions)
    ensures TrimmedKey(PrintKey(conditions, key)) == key
  {
    hide NoEarly, Lacks, Split, Join, KeyParts, LabelsOf;
    var parts := KeyParts(conditions, key);
    KeyPartsDotFree(conditions, key);
    forall i | 0 <= i < |parts|
      ensures NoEarly(parts[i], ".") && Lacks(parts[i], ".")
    {
      SingleSeparator(parts[i], '.');
    }
    SplitJoin(parts, ".");
    KeyPartsAt(conditions, key);
    assert PairUp(parts) == conditions;
  }

  lemma LabelsOfDistinct(conditions: seq<Condition>)
    requires DistinctLabels(conditions)
    ensures forall l :: l in LabelsOf(conditions) ==> exists i :: 0 <= i < |conditions| && conditions[i].key == l
    ensures forall i :: 0 <= i < |conditions| ==>
              conditions[i].key in LabelsOf(conditions)
                && LabelsOf(conditions)[conditions[i].key] == conditions[i].value
  {
    forall l | l in LabelsOf(conditions)
      ensures exists i :: 0 <= i < |conditions| && conditions[i].key == l
    {
      var i := LabelOrigin(conditions, l);
    }
    forall i | 0 <= i < |conditions|
      ensures conditions[i].key in LabelsOf(conditions)
              && LabelsOf(conditions)[conditions[i].key] == conditions[i].value
    {
      LabelAt(conditions, i);
    }
  }

  lemma {:induction false} LabelOrigin(conditions: seq<Condition>, l: string) returns (i: nat)
    requires l in LabelsOf(conditions)
    ensures i < |conditions| && conditions[i].key == l
  {
    var n := |conditions| - 1;
    i := n;
    if conditions[n].key != l {
      i := LabelOrigin(conditions[..n], l);
    }
  }

  lemma {:induction false} LabelAt(conditions: seq<Condition>, i: nat)
    requires DistinctLabels(conditions) && i < |conditions|
    ensures conditions[i].key in LabelsOf(conditions) && LabelsOf(conditions)[conditions[i].key] == conditions[i].value
  {
    var n := |conditions| - 1;
    if i < n {
      LabelAt(conditions[..n], i);
      assert conditions[i].key != conditions[n].key;
    }
  }

  /** The order in which a key lists its conditions is irrelevant. */
  lemma ConditionOrderIrrelevant(a: seq<Condition>, b: seq<Condition>, key: string)
    requires DotFree(a, key) && DotFree(b, key) && DistinctLabels(a) && DistinctLabels(b)
    requires multiset(a) == multiset(b)
    ensures KeyLabels(PrintKey(a, key)) == KeyLabels(PrintKey(b, key))
    ensures TrimmedKey(PrintKey(a, key)) == TrimmedKey(PrintKey(b, key))
  {
    hide KeyLabels, TrimmedKey, PrintKey, LabelsOf;
    ParsePrintedKey(a, key);
    ParsePrintedKey(b, key);
    SameLabels(a, b);
    SameLabels(b, a);
    assert LabelsOf(a) == LabelsOf(b);
  }

  lemma SameLabels(a: seq<Condition>, b: seq<Condition>)
    requires DistinctLabels(a) && DistinctLabels(b) && multiset(a) == multiset(b)
    ensures forall l :: l in LabelsOf(a) ==> l in LabelsOf(b) && LabelsOf(a)[l] == LabelsOf(b)[l]
  {
    LabelsOfDistinct(a);
    LabelsOfDistinct(b);
    forall l | l in LabelsOf(a)
      ensures l in LabelsOf(b) && LabelsOf(a)[l] == LabelsOf(b)[l]
    {
      var i :| 0 <= i < |a| && a[i].key == l;
      assert a[i] in multiset(a);
      assert a[i] in multiset(b);
      var j :| 0 <= j < |b| && b[j] == a[i];
    }
  }

  /** A key applies exactly when each of its conditions holds on its own. */
  lemma KeyAppliesIff(conditions: seq<Condition>, key: string, ct: ClusterType, dt: DeploymentTarget)
    requires DotFree(conditions, key) && DistinctLabels(conditions)
    ensures Applies(KeyLabels(PrintKey(conditions, key)), ct, dt) <==>
            forall i :: 0 <= i < |conditions| ==>
              Applies(KeyLabels(PrintKey([conditions[i]], key)), ct, dt)
  {
    hide KeyLabels, PrintKey;
    ParsePrintedKey(conditions, key);
    LabelsOfDistinct(conditions);
    var labels := LabelsOf(conditions);
    forall i | 0 <= i < |conditions|
      ensures Applies(KeyLabels(PrintKey([conditions[i]], key)), ct, dt) <==>
              ConditionHolds(conditions[i].key, conditions[i].value, ct, dt)
    {
      var c := conditions[i];
      ParsePrintedKey([c], key);
      assert LabelsOf([c]) == map[c.key := c.value];
    }
    forall l | l in labels
      ensures exists i :: 0 <= i < |conditions| && conditions[i].key == l && labels[l] == conditions[i].value
    {
      var i :| 0 <= i < |conditions| && conditions[i].key == l;
    }
  }

  // ----- Keys of other shapes -----

  /** A part that is left over before the key is ignored. */
  lemma StrayPartIgnored(conditions: seq<Condition>, stray: string, key: string)
    requires DotFree(conditions, key) && '.' !in stray
    ensures var printed := Join(KeyParts(conditions, stray) + [key], ".");
            KeyLabels(printed) == LabelsOf(conditions) && TrimmedKey(printed) == key
  {
    hide NoEarly, Lacks, Split, Join, KeyParts, LabelsOf;
    var parts := KeyParts(conditions, stray) + [key];
    KeyPartsDotFree(conditions, stray);
    forall i | 0 <= i < |parts|
      ensures NoEarly(parts[i], ".") && Lacks(parts[i], ".")
    {
      SingleSeparator(parts[i], '.');
    }
    SplitJoin(parts, ".");
    KeyPartsAt(conditions, stray);
    assert PairUp(parts) == conditions;
  }

  /** Of several conditions on one label the last counts. */
  lemma {:induction false} LastConditionCounts(conditions: seq<Condition>, i: nat)
    requires i < |conditions| && forall j :: i < j < |conditions| ==> conditions[j].key != conditions[i].key
    ensures var c := conditions[i]; c.key in LabelsOf(conditions) && LabelsOf(conditions)[c.key] == c.value
    decreases conditions
  {
    var n := |conditions| - 1;
    if i < n {
      LastConditionCounts(conditions[..n], i);
    }
  }
}
