/** The Kubernetes objects the controller reads and writes, reduced to the fields its
    code touches; the client calls it issues, as abstract actions; and the name-keyed
    helpers shared by the service and deployment reconcilers. */
module Kube {
  import opened Results
  import Constants

  /** V1ObjectMeta. A null name, annotation dictionary or resource version is `None`. */
  datatype ObjectMeta = ObjectMeta(
    name: Option<string>,
    labels: map<string, string>,
    annotations: Option<map<string, string>>,
    resourceVersion: Option<string>)

  /** The shape V1Deployment and V1Service share: API version, kind, metadata, spec
      and status. A null metadata object is `None`. The status is opaque: the
      controller only ever drops it. */
  datatype Resource<S> = Resource(
    apiVersion: Option<string>,
    kind: Option<string>,
    metadata: Option<ObjectMeta>,
    spec: S,
    status: Option<string>)

  /** The pod template the module builder produces. The controller reads only the
      annotations of its metadata (a null metadata or dictionary is `None`); the
      containers and volumes are opaque. */
  datatype PodTemplate = PodTemplate(annotations: Option<map<string, string>>, body: string)

  datatype DeploymentSpec = DeploymentSpec(
    replicas: int,
    matchLabels: map<string, string>,
    template: PodTemplate)

  /** The service spec comes from the module builder and is only ever serialized. */
  datatype ServiceSpec = ServiceSpec(body: string)

  type Deployment = Resource<DeploymentSpec>
  type Service = Resource<ServiceSpec>

  datatype ServiceAccount = ServiceAccount(metadata: ObjectMeta)

  /** Helpers whose code is outside this model, taken as uninterpreted functions:
      KubeUtils.SanitizeK8sValue and SanitizeLabelValue, JsonConvert.SerializeObject
      on either kind of object, and V1DeploymentEx.ImageEquals(current, desired). */
  datatype Externals = Externals(
    sanitize: string -> string,
    sanitizeLabel: string -> string,
    serializeDeployment: Deployment -> string,
    serializeService: Service -> string,
    imageEquals: (Deployment, Deployment) -> bool)

  /** DeploymentName (EdgeDeploymentController.cs line 79). */
  function DeploymentName(ext: Externals, moduleId: string): string
  {
    ext.sanitize(moduleId)
  }

  /** The mutating client calls the controller issues. */
  datatype Action =
    | DeleteService(name: string)
    | CreateService(service: Service)
    | DeleteDeployment(name: string)
    | DeleteServiceAccount(name: string)
    | CreateServiceAccount(account: ServiceAccount)
    | CreateDeployment(deployment: Deployment)
    | ReplaceDeployment(deployment: Deployment)

  /** The calls one operation issued, in order, and the exception that ended it, if any. */
  datatype Run = Run(trace: seq<Action>, failure: Option<Error>)

  /** The position of each kind of call in the controller's fixed stage order:
      service deletes, service creates, deployment deletes, account prunes, account
      creates, deployment creates, deployment replaces. */
  function Stage(a: Action): nat
  {
    match a
    case DeleteService(_) => 0
    case CreateService(_) => 1
    case DeleteDeployment(_) => 2
    case DeleteServiceAccount(_) => 3
    case CreateServiceAccount(_) => 4
    case CreateDeployment(_) => 5
    case ReplaceDeployment(_) => 6
  }

  /** No call of a later stage is issued before a call of an earlier one. */
  predicate StageSorted(t: seq<Action>)
  {
    forall i, j | 0 <= i < j < |t| :: Stage(t[i]) <= Stage(t[j])
  }

  /** Every call in `t` belongs to stage `k`. */
  predicate InStage(t: seq<Action>, k: nat)
  {
    forall i | 0 <= i < |t| :: Stage(t[i]) == k
  }

  lemma StageSortedAppend(t: seq<Action>, u: seq<Action>, k: nat)
    requires StageSorted(t) && InStage(u, k)
    requires forall i | 0 <= i < |t| :: Stage(t[i]) <= k
    ensures StageSorted(t + u)
  {
  }

  /** Two sorted runs, the first of stages at most `k` and the second of stages
      above `k`, are sorted together. */
  lemma StageSortedConcat(t: seq<Action>, u: seq<Action>, k: nat)
    requires StageSorted(t) && StageSorted(u)
    requires forall a | a in t :: Stage(a) <= k
    requires forall a | a in u :: Stage(a) > k
    ensures StageSorted(t + u)
  {
    forall i, j | 0 <= i < j < |t + u| ensures Stage((t + u)[i]) <= Stage((t + u)[j])
    {
      if j < |t| {
        assert (t + u)[i] == t[i] && (t + u)[j] == t[j];
      } else if i >= |t| {
        assert (t + u)[i] == u[i - |t|] && (t + u)[j] == u[j - |t|];
      } else {
        assert (t + u)[i] == t[i] && t[i] in t;
        assert (t + u)[j] == u[j - |t|] && u[j - |t|] in u;
      }
    }
  }

  /** How a desired object compares with what the cluster holds under its name. */
  datatype Fate = New | Changed | Unchanged

  predicate Named<S>(r: Resource<S>)
  {
    r.metadata.Some? && r.metadata.value.name.Some?
  }

  function NameOf<S>(r: Resource<S>): string
    requires Named(r)
  {
    r.metadata.value.name.value
  }

  predicate AllNamed<S>(rs: seq<Resource<S>>)
  {
    forall i | 0 <= i < |rs| :: Named(rs[i])
  }

  predicate DistinctNames<S>(rs: seq<Resource<S>>)
    requires AllNamed(rs)
  {
    forall i, j | 0 <= i < j < |rs| :: NameOf(rs[i]) != NameOf(rs[j])
  }

  function NameSet<S>(rs: seq<Resource<S>>): set<string>
    requires AllNamed(rs)
  {
    set i | 0 <= i < |rs| :: NameOf(rs[i])
  }

  lemma NameSetCons<S>(rs: seq<Resource<S>>)
    requires |rs| > 0 && AllNamed(rs)
    ensures NameSet(rs) == {NameOf(rs[0])} + NameSet(rs[1..])
  {
    var tail := rs[1..];
    forall n | n in NameSet(rs)
      ensures n in {NameOf(rs[0])} + NameSet(tail)
    {
      var i :| 0 <= i < |rs| && NameOf(rs[i]) == n;
      if i > 0 {
        assert NameOf(tail[i - 1]) == n;
      }
    }
    forall n | n in NameSet(tail)
      ensures n in NameSet(rs)
    {
      var i :| 0 <= i < |tail| && NameOf(tail[i]) == n;
      assert NameOf(rs[i + 1]) == n;
    }
  }

  /** The tail of a list with distinct names has distinct names, none of them the
      head's. */
  lemma DistinctTail<S>(rs: seq<Resource<S>>)
    requires |rs| > 0 && AllNamed(rs) && DistinctNames(rs)
    ensures AllNamed(rs[1..]) && DistinctNames(rs[1..]) && NameOf(rs[0]) !in NameSet(rs[1..])
  {
    var tail := rs[1..];
    forall i, j | 0 <= i < j < |tail| ensures NameOf(tail[i]) != NameOf(tail[j])
    {
      assert tail[i] == rs[i + 1] && tail[j] == rs[j + 1];
    }
    forall j | 0 <= j < |tail| ensures NameOf(tail[j]) != NameOf(rs[0])
    {
      assert tail[j] == rs[j + 1];
    }
  }

  /** The names of a concatenation are the names of its parts. */
  lemma NameSetAppend<S>(a: seq<Resource<S>>, b: seq<Resource<S>>)
    requires AllNamed(a) && AllNamed(b)
    ensures AllNamed(a + b) && NameSet(a + b) == NameSet(a) + NameSet(b)
  {
    var ab := a + b;
    assert AllNamed(ab) by {
      forall i | 0 <= i < |ab| ensures Named(ab[i])
      {
        if i < |a| { assert ab[i] == a[i]; } else { assert ab[i] == b[i - |a|]; }
      }
    }
    forall n | n in NameSet(ab) ensures n in NameSet(a) + NameSet(b)
    {
      var i :| 0 <= i < |ab| && NameOf(ab[i]) == n;
      if i < |a| { assert ab[i] == a[i]; } else { assert ab[i] == b[i - |a|]; }
    }
    forall n | n in NameSet(a) ensures n in NameSet(ab)
    {
      var i :| 0 <= i < |a| && NameOf(a[i]) == n;
      assert ab[i] == a[i];
    }
    forall n | n in NameSet(b) ensures n in NameSet(ab)
    {
      var i :| 0 <= i < |b| && NameOf(b[i]) == n;
      assert ab[|a| + i] == b[i];
    }
  }

  /** Two lists with distinct names and no name in common have distinct names
      together. */
  lemma DistinctAppend<S>(a: seq<Resource<S>>, b: seq<Resource<S>>)
    requires AllNamed(a) && AllNamed(b) && DistinctNames(a) && DistinctNames(b)
    requires NameSet(a) !! NameSet(b)
    ensures AllNamed(a + b) && DistinctNames(a + b)
  {
    NameSetAppend(a, b);
    var ab := a + b;
    forall i, j | 0 <= i < j < |ab| ensures NameOf(ab[i]) != NameOf(ab[j])
    {
      if j < |a| {
        assert ab[i] == a[i] && ab[j] == a[j];
      } else if i >= |a| {
        assert ab[i] == b[i - |a|] && ab[j] == b[j - |a|];
      } else {
        assert ab[i] == a[i] && ab[j] == b[j - |a|];
        assert NameOf(a[i]) in NameSet(a) && NameOf(b[j - |a|]) in NameSet(b);
      }
    }
  }

  /** `st` holds, one per name, exactly the objects of `after`, in some order. */
  ghost predicate SameByName<S>(st: seq<Resource<S>>, after: seq<Resource<S>>)
  {
    && AllNamed(st) && AllNamed(after) && DistinctNames(st)
    && NameSet(st) == NameSet(after)
    && forall i | 0 <= i < |after| :: after[i] in st
  }

  /** Lists that agree by name find the same object under every name. */
  lemma FindSame<S>(st: seq<Resource<S>>, after: seq<Resource<S>>, name: string)
    requires SameByName(st, after) && DistinctNames(after)
    ensures FindByName(st, name) == FindByName(after, name)
  {
    if name in NameSet(after) {
      var i :| 0 <= i < |after| && NameOf(after[i]) == name;
      FindDistinct(after, i);
      var k :| 0 <= k < |st| && st[k] == after[i];
      FindDistinct(st, k);
    }
  }

  /** An observed list holds no null item and no item without a name. */
  predicate Present<S>(items: seq<Option<Resource<S>>>)
  {
    forall i | 0 <= i < |items| :: items[i].Some? && Named(items[i].value)
  }

  /** The objects of a list that holds no null item. */
  function Values<S>(items: seq<Option<Resource<S>>>): (rs: seq<Resource<S>>)
    requires forall i | 0 <= i < |items| :: items[i].Some?
    ensures |rs| == |items|
    ensures forall i | 0 <= i < |items| :: rs[i] == items[i].value
  {
    seq(|items|, i requires 0 <= i < |items| => items[i].value)
  }

  /** The observed list holding exactly the objects `rs`. */
  function Listed<S>(rs: seq<Resource<S>>): (items: seq<Option<Resource<S>>>)
    ensures |items| == |rs|
    ensures forall i | 0 <= i < |rs| :: items[i] == Some(rs[i])
  {
    seq(|rs|, i requires 0 <= i < |rs| => Some(rs[i]))
  }

  /** Listing named objects gives a list with no null and no unnamed item, whose
      objects are those objects. */
  lemma ListedValues<S>(rs: seq<Resource<S>>)
    requires AllNamed(rs)
    ensures Present(Listed(rs)) && Values(Listed(rs)) == rs
  {
  }

  /** `List.Find` by name: the first object carrying `name`. */
  function FindByName<S>(rs: seq<Resource<S>>, name: string): (r: Option<Resource<S>>)
    requires AllNamed(rs)
    ensures r.Some? <==> name in NameSet(rs)
    ensures r.Some? ==> Named(r.value) && NameOf(r.value) == name
    decreases |rs|
  {
    if |rs| == 0 then None
    else
      NameSetCons(rs);
      if NameOf(rs[0]) == name then Some(rs[0]) else FindByName(rs[1..], name)
  }

  /** Among objects with distinct names, finding a name yields the one object carrying it. */
  lemma {:induction false} FindDistinct<S>(rs: seq<Resource<S>>, i: nat)
    requires AllNamed(rs) && DistinctNames(rs) && i < |rs|
    ensures FindByName(rs, NameOf(rs[i])) == Some(rs[i])
    decreases |rs|
  {
    if i > 0 {
      assert NameOf(rs[0]) != NameOf(rs[i]);
      FindDistinct(rs[1..], i - 1);
    }
  }

  /** The names of the observed objects that no desired object carries, in observed
      order: `RemoveAll` over the observed items with `Exists` over the desired ones
      (lines 147-148 and 214-216). */
  function RemovedNames<S>(observed: seq<Resource<S>>, desired: seq<Resource<S>>): (r: seq<string>)
    requires AllNamed(observed) && AllNamed(desired)
    ensures |r| <= |observed|
    ensures forall n :: n in r <==> n in NameSet(observed) && n !in NameSet(desired)
    decreases |observed|
  {
    if |observed| == 0 then []
    else
      NameSetCons(observed);
      var rest := RemovedNames(observed[1..], desired);
      if NameOf(observed[0]) in NameSet(desired) then rest else [NameOf(observed[0])] + rest
  }

  /** When every observed name is desired, nothing is removed. */
  lemma RemovedNothing<S>(observed: seq<Resource<S>>, desired: seq<Resource<S>>)
    requires AllNamed(observed) && AllNamed(desired)
    requires NameSet(observed) <= NameSet(desired)
    ensures RemovedNames(observed, desired) == []
  {
  }

  /** The annotations of an object after the creation fingerprint `fp` is written into
      them: a fresh dictionary when there was none, otherwise the old entries with the
      fingerprint key set (lines 166-171, 179-184 and 238-249). */
  function WithFingerprint(annotations: Option<map<string, string>>, fp: string): map<string, string>
  {
    match annotations
    case None => map[Constants.CreationString := fp]
    case Some(a) => a[Constants.CreationString := fp]
  }

  /** Writing a fingerprint stores it under its key, keeps every other annotation
      and adds no other key. */
  lemma WithFingerprintKeeps(annotations: Option<map<string, string>>, fp: string)
    ensures var a := WithFingerprint(annotations, fp);
      && Constants.CreationString in a && a[Constants.CreationString] == fp
      && (annotations.Some? ==> forall k | k in annotations.value && k != Constants.CreationString ::
            k in a && a[k] == annotations.value[k])
      && (annotations.Some? ==> a.Keys == annotations.value.Keys + {Constants.CreationString})
      && (annotations.None? ==> a.Keys == {Constants.CreationString})
  {
  }
}
