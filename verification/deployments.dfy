/** Deployment reconciliation (ManageDeployments, lines 210-302). Unlike services,
    a changed deployment is replaced in place. A new deployment also gets a service
    account, and the accounts of removed deployments are pruned. The stages run in a
    fixed order: deletes, account prunes, account creates, deployment creates,
    deployment replaces. */
module Deployments {
  import opened Results
  import opened Kube
  import opened Fingerprints
  import opened ServiceAccounts
  import opened Cluster
  import Constants

  /** The deployment name of edgeAgent. Only this deployment may skip a replace
      when its image is unchanged. */
  function AgentName(ext: Externals): string
  {
    DeploymentName(ext, Constants.EdgeAgentModuleName)
  }

  /** How a desired deployment compares with the cluster (lines 220-234). A name
      with no fingerprint is new. A stored fingerprint equal to the desired
      serialization means unchanged. So does edgeAgent's deployment whose image
      matches the observed one. Anything else has changed. */
  function FateOf(ext: Externals, fps: map<string, string>, observed: seq<Deployment>, d: Deployment): (f: Fate)
    requires AllNamed(observed) && fps.Keys == NameSet(observed) && Named(d)
    ensures f == New <==> NameOf(d) !in NameSet(observed)
  {
    var name := NameOf(d);
    if name !in fps then New
    else if fps[name] == ext.serializeDeployment(d) then Unchanged
    else if name == AgentName(ext) && ext.imageEquals(FindByName(observed, name).value, d) then Unchanged
    else Changed
  }

  /** A new deployment as sent (lines 256-262). Its annotations are replaced by a
      single entry: its serialization before the change. */
  function ForCreate(ext: Externals, d: Deployment): (r: Deployment)
    requires Named(d)
    ensures Named(r) && NameOf(r) == NameOf(d)
    ensures r.spec == d.spec && r.metadata.value.labels == d.metadata.value.labels
    ensures r.metadata.value.annotations == Some(map[Constants.CreationString := ext.serializeDeployment(d)])
    ensures r.metadata.value.resourceVersion == d.metadata.value.resourceVersion
  {
    var meta := d.metadata.value;
    d.(metadata := Some(meta.(annotations := Some(map[Constants.CreationString := ext.serializeDeployment(d)]))))
  }

  /** A changed deployment as sent (lines 236-249). It takes the observed resource
      version, and its serialization (taken before any change) is written into its
      own annotations. */
  function ForUpdate(ext: Externals, current: Deployment, d: Deployment): (r: Deployment)
    requires Named(current) && Named(d)
    ensures Named(r) && NameOf(r) == NameOf(d)
    ensures r.spec == d.spec && r.metadata.value.labels == d.metadata.value.labels
    ensures r.metadata.value.resourceVersion == current.metadata.value.resourceVersion
    ensures r.metadata.value.annotations == Some(WithFingerprint(d.metadata.value.annotations, ext.serializeDeployment(d)))
    ensures var a := r.metadata.value.annotations.value;
      && a[Constants.CreationString] == ext.serializeDeployment(d)
      && (d.metadata.value.annotations.Some? ==>
            forall k | k in d.metadata.value.annotations.value && k != Constants.CreationString ::
              k in a && a[k] == d.metadata.value.annotations.value[k])
  {
    var meta := d.metadata.value;
    d.(metadata := Some(meta.(
      resourceVersion := current.metadata.value.resourceVersion,
      annotations := Some(WithFingerprint(meta.annotations, ext.serializeDeployment(d))))))
  }

  /** The deployment sent for a desired one with the given fate. */
  function Sent(ext: Externals, observed: seq<Deployment>, d: Deployment, f: Fate): Deployment
    requires AllNamed(observed) && Named(d)
    requires f != New ==> NameOf(d) in NameSet(observed)
  {
    if f == New then ForCreate(ext, d) else ForUpdate(ext, FindByName(observed, NameOf(d)).value, d)
  }

  datatype DeploymentPlan = DeploymentPlan(removed: seq<string>, created: seq<Deployment>, updated: seq<Deployment>)

  /** The `ForEach` over the desired deployments (lines 218-264). A new deployment
      goes to the create list and a changed one to the replace list. */
  function Decide(ext: Externals, fps: map<string, string>, observed: seq<Deployment>, desired: seq<Deployment>)
    : (p: DeploymentPlan)
    requires AllNamed(observed) && fps.Keys == NameSet(observed) && AllNamed(desired)
    ensures p.removed == [] && AllNamed(p.created) && AllNamed(p.updated)
    decreases |desired|
  {
    if |desired| == 0 then DeploymentPlan([], [], [])
    else
      var rest := Decide(ext, fps, observed, desired[1..]);
      var d := desired[0];
      var f := FateOf(ext, fps, observed, d);
      match f
      case Unchanged => rest
      case New => rest.(created := [Sent(ext, observed, d, f)] + rest.created)
      case Changed => rest.(updated := [Sent(ext, observed, d, f)] + rest.updated)
  }

  /** The first half of ManageDeployments: extract the observed fingerprints,
      reject a desired deployment without a name, then plan. The delete list holds
      the observed deployments that no desired deployment names. */
  function DeploymentPlanFor(ext: Externals, items: seq<Option<Deployment>>, desired: seq<Deployment>)
    : (r: Result<DeploymentPlan>)
    ensures r.Ok? ==> CreatedHaveMetadata(r.value)
  {
    match CurrentConfig(items, ext.serializeDeployment)
    case Err(e) => Err(e)
    case Ok(fps) =>
      if !AllNamed(desired) then Err(NullReference)
      else
        CurrentConfigOk(items, ext.serializeDeployment);
        var observed := Values(items);
        Ok(Decide(ext, fps, observed, desired).(removed := RemovedNames(observed, desired)))
  }

  function DeleteDeployments(names: seq<string>): (r: seq<Action>)
    ensures |r| == |names| && InStage(r, 2)
    ensures forall i | 0 <= i < |names| :: r[i] == DeleteDeployment(names[i])
    ensures forall a :: a in r <==> a.DeleteDeployment? && a.name in names
  {
    seq(|names|, i requires 0 <= i < |names| => DeleteDeployment(names[i]))
  }

  function CreateDeployments(ds: seq<Deployment>): (r: seq<Action>)
    ensures |r| == |ds| && InStage(r, 5)
    ensures forall i | 0 <= i < |ds| :: r[i] == CreateDeployment(ds[i])
    ensures forall a :: a in r <==> a.CreateDeployment? && a.deployment in ds
  {
    seq(|ds|, i requires 0 <= i < |ds| => CreateDeployment(ds[i]))
  }

  function ReplaceDeployments(ds: seq<Deployment>): (r: seq<Action>)
    ensures |r| == |ds| && InStage(r, 6)
    ensures forall i | 0 <= i < |ds| :: r[i] == ReplaceDeployment(ds[i])
    ensures forall a :: a in r <==> a.ReplaceDeployment? && a.deployment in ds
  {
    seq(|ds|, i requires 0 <= i < |ds| => ReplaceDeployment(ds[i]))
  }

  /** Every deployment on the create list has metadata, which the account step
      reads its labels and name from. */
  predicate CreatedHaveMetadata(p: DeploymentPlan)
  {
    forall i | 0 <= i < |p.created| :: p.created[i].metadata.Some?
  }

  /** The staged calls of a plan (lines 296-301): deletes, then prunes of the
      removed deployments' accounts among `accounts`, then account creates. A failed
      account stops the pass before any deployment is created or replaced. */
  function Execute(p: DeploymentPlan, accounts: seq<string>): Run
    requires CreatedHaveMetadata(p)
  {
    var before := DeleteDeployments(p.removed) + PruneServiceAccounts(accounts, p.removed);
    var made := CreateAccounts(p.created);
    if made.failure.Some? then Run(before + made.trace, made.failure)
    else Run(before + made.trace + CreateDeployments(p.created) + ReplaceDeployments(p.updated), None)
  }

  /** ManageDeployments. `accounts` are the names of the service accounts the
      namespace lists when the prune step asks. */
  function ManageDeployments(ext: Externals, items: seq<Option<Deployment>>, desired: seq<Deployment>, accounts: seq<string>)
    : Run
  {
    match DeploymentPlanFor(ext, items, desired)
    case Err(e) => Run([], Some(e))
    case Ok(p) => Execute(p, accounts)
  }

  // ---------------------------------------------------------------------------
  // Plan-level properties

  /** `x` is what was sent for some desired deployment with fate `f`. */
  ghost predicate SentFor(ext: Externals, fps: map<string, string>, observed: seq<Deployment>,
                          desired: seq<Deployment>, f: Fate, x: Deployment)
    requires AllNamed(observed) && fps.Keys == NameSet(observed) && AllNamed(desired)
  {
    exists i | 0 <= i < |desired| ::
      FateOf(ext, fps, observed, desired[i]) == f && x == Sent(ext, observed, desired[i], f)
  }

  lemma SentForCons(ext: Externals, fps: map<string, string>, observed: seq<Deployment>,
                    desired: seq<Deployment>, f: Fate, x: Deployment)
    requires AllNamed(observed) && fps.Keys == NameSet(observed) && AllNamed(desired) && |desired| > 0
    ensures SentFor(ext, fps, observed, desired, f, x) <==>
      (FateOf(ext, fps, observed, desired[0]) == f && x == Sent(ext, observed, desired[0], f))
      || SentFor(ext, fps, observed, desired[1..], f, x)
  {
    var tail := desired[1..];
    if SentFor(ext, fps, observed, desired, f, x) {
      var i :| 0 <= i < |desired| &&
        FateOf(ext, fps, observed, desired[i]) == f && x == Sent(ext, observed, desired[i], f);
      if i > 0 { assert tail[i - 1] == desired[i]; }
    }
    SentForTail(ext, fps, observed, desired, f, x);
  }

  /** What was sent for the tail was sent for the whole list. */
  lemma SentForTail(ext: Externals, fps: map<string, string>, observed: seq<Deployment>,
                    desired: seq<Deployment>, f: Fate, x: Deployment)
    requires AllNamed(observed) && fps.Keys == NameSet(observed) && AllNamed(desired) && |desired| > 0
    ensures SentFor(ext, fps, observed, desired[1..], f, x) ==> SentFor(ext, fps, observed, desired, f, x)
  {
    var tail := desired[1..];
    if SentFor(ext, fps, observed, tail, f, x) {
      var i :| 0 <= i < |tail| &&
        FateOf(ext, fps, observed, tail[i]) == f && x == Sent(ext, observed, tail[i], f);
      assert desired[i + 1] == tail[i];
    }
  }

  /** The create list holds exactly what was sent for the new deployments, and the
      replace list exactly what was sent for the changed ones. */
  lemma {:induction false} DecideMembers(ext: Externals, fps: map<string, string>, observed: seq<Deployment>,
                                          desired: seq<Deployment>)
    requires AllNamed(observed) && fps.Keys == NameSet(observed) && AllNamed(desired)
    ensures var p := Decide(ext, fps, observed, desired);
      && (forall x :: x in p.created <==> SentFor(ext, fps, observed, desired, New, x))
      && (forall x :: x in p.updated <==> SentFor(ext, fps, observed, desired, Changed, x))
    decreases |desired|
  {
    if |desired| > 0 {
      DecideMembers(ext, fps, observed, desired[1..]);
      forall x ensures SentFor(ext, fps, observed, desired, New, x) <==>
        (FateOf(ext, fps, observed, desired[0]) == New && x == Sent(ext, observed, desired[0], New))
        || SentFor(ext, fps, observed, desired[1..], New, x)
      {
        SentForCons(ext, fps, observed, desired, New, x);
      }
      forall x ensures SentFor(ext, fps, observed, desired, Changed, x) <==>
        (FateOf(ext, fps, observed, desired[0]) == Changed && x == Sent(ext, observed, desired[0], Changed))
        || SentFor(ext, fps, observed, desired[1..], Changed, x)
      {
        SentForCons(ext, fps, observed, desired, Changed, x);
      }
    }
  }

  /** Every planned deployment is named after a desired deployment of the right
      fate. A created name has no observed deployment and a replaced name has one,
      so no name is both created and replaced. No planned name is also deleted. */
  lemma PlanPartition(ext: Externals, fps: map<string, string>, observed: seq<Deployment>, desired: seq<Deployment>)
    requires AllNamed(observed) && fps.Keys == NameSet(observed) && AllNamed(desired)
    ensures var p := Decide(ext, fps, observed, desired);
      var removed := RemovedNames(observed, desired);
      && AllNamed(p.created) && AllNamed(p.updated)
      && (forall n | n in NameSet(p.created) :: n in NameSet(desired) && n !in NameSet(observed))
      && (forall n | n in NameSet(p.updated) :: n in NameSet(desired) && n in NameSet(observed))
      && NameSet(p.created) !! NameSet(p.updated)
      && (forall n | n in removed :: n !in NameSet(p.created) && n !in NameSet(p.updated))
  {
    var p := Decide(ext, fps, observed, desired);
    DecideMembers(ext, fps, observed, desired);
    forall j | 0 <= j < |p.created|
      ensures Named(p.created[j]) && NameOf(p.created[j]) in NameSet(desired)
      ensures NameOf(p.created[j]) !in NameSet(observed)
    {
      assert SentFor(ext, fps, observed, desired, New, p.created[j]);
      var i :| 0 <= i < |desired| && FateOf(ext, fps, observed, desired[i]) == New
        && p.created[j] == Sent(ext, observed, desired[i], New);
      assert NameOf(desired[i]) in NameSet(desired);
    }
    forall j | 0 <= j < |p.updated|
      ensures Named(p.updated[j]) && NameOf(p.updated[j]) in NameSet(desired)
      ensures NameOf(p.updated[j]) in NameSet(observed)
    {
      assert SentFor(ext, fps, observed, desired, Changed, p.updated[j]);
      var i :| 0 <= i < |desired| && FateOf(ext, fps, observed, desired[i]) == Changed
        && p.updated[j] == Sent(ext, observed, desired[i], Changed);
      assert NameOf(desired[i]) in NameSet(desired);
    }
  }

  /** A new desired deployment is sent on the create list, and a changed one on
      the replace list, carrying the observed resource version. */
  lemma NewAndChangedPlanned(ext: Externals, fps: map<string, string>, observed: seq<Deployment>, desired: seq<Deployment>)
    requires AllNamed(observed) && fps.Keys == NameSet(observed) && AllNamed(desired)
    ensures var p := Decide(ext, fps, observed, desired);
      && (forall i | 0 <= i < |desired| :: FateOf(ext, fps, observed, desired[i]) == New ==>
            ForCreate(ext, desired[i]) in p.created)
      && (forall i | 0 <= i < |desired| :: FateOf(ext, fps, observed, desired[i]) == Changed ==>
            ForUpdate(ext, FindByName(observed, NameOf(desired[i])).value, desired[i]) in p.updated)
  {
    var p := Decide(ext, fps, observed, desired);
    DecideMembers(ext, fps, observed, desired);
    forall i | 0 <= i < |desired| && FateOf(ext, fps, observed, desired[i]) == New
      ensures ForCreate(ext, desired[i]) in p.created
    {
      assert SentFor(ext, fps, observed, desired, New, Sent(ext, observed, desired[i], New));
    }
    forall i | 0 <= i < |desired| && FateOf(ext, fps, observed, desired[i]) == Changed
      ensures ForUpdate(ext, FindByName(observed, NameOf(desired[i])).value, desired[i]) in p.updated
    {
      assert SentFor(ext, fps, observed, desired, Changed, Sent(ext, observed, desired[i], Changed));
    }
  }

  /** When desired names are distinct, an unchanged desired deployment is neither
      created nor replaced under its name. */
  lemma UnchangedNotPlanned(ext: Externals, fps: map<string, string>, observed: seq<Deployment>, desired: seq<Deployment>)
    requires AllNamed(observed) && fps.Keys == NameSet(observed) && AllNamed(desired) && DistinctNames(desired)
    ensures var p := Decide(ext, fps, observed, desired);
      forall i | 0 <= i < |desired| :: FateOf(ext, fps, observed, desired[i]) == Unchanged ==>
        NameOf(desired[i]) !in NameSet(p.created) && NameOf(desired[i]) !in NameSet(p.updated)
  {
    var p := Decide(ext, fps, observed, desired);
    DecideMembers(ext, fps, observed, desired);
    PlanPartition(ext, fps, observed, desired);
    forall i | 0 <= i < |desired| && FateOf(ext, fps, observed, desired[i]) == Unchanged
      ensures NameOf(desired[i]) !in NameSet(p.created) && NameOf(desired[i]) !in NameSet(p.updated)
    {
      forall j | 0 <= j < |p.updated| ensures NameOf(p.updated[j]) != NameOf(desired[i])
      {
        assert SentFor(ext, fps, observed, desired, Changed, p.updated[j]);
        var k :| 0 <= k < |desired| && FateOf(ext, fps, observed, desired[k]) == Changed
          && p.updated[j] == Sent(ext, observed, desired[k], Changed);
        assert k != i;
      }
    }
  }

  /** The suppression rule. Take a desired deployment that the cluster already
      holds, with distinct desired names. It is left alone exactly when its stored
      fingerprint equals its serialization, or it is edgeAgent's deployment and the
      image is unchanged. Otherwise it is replaced. It is never created again.
      For any other name the image plays no part. */
  lemma SuppressionRule(ext: Externals, fps: map<string, string>, observed: seq<Deployment>, desired: seq<Deployment>)
    requires AllNamed(observed) && fps.Keys == NameSet(observed) && AllNamed(desired) && DistinctNames(desired)
    ensures var p := Decide(ext, fps, observed, desired);
      forall i | 0 <= i < |desired| && NameOf(desired[i]) in NameSet(observed) ::
        var n := NameOf(desired[i]);
        && n !in NameSet(p.created)
        && (n !in NameSet(p.updated) <==>
              fps[n] == ext.serializeDeployment(desired[i])
              || (n == AgentName(ext) && ext.imageEquals(FindByName(observed, n).value, desired[i])))
  {
    var p := Decide(ext, fps, observed, desired);
    PlanPartition(ext, fps, observed, desired);
    NewAndChangedPlanned(ext, fps, observed, desired);
    UnchangedNotPlanned(ext, fps, observed, desired);
    forall i | 0 <= i < |desired| && NameOf(desired[i]) in NameSet(observed) &&
               FateOf(ext, fps, observed, desired[i]) == Changed
      ensures NameOf(desired[i]) in NameSet(p.updated)
    {
      var u := ForUpdate(ext, FindByName(observed, NameOf(desired[i])).value, desired[i]);
      var j :| 0 <= j < |p.updated| && p.updated[j] == u;
    }
  }

  // ---------------------------------------------------------------------------
  // The calls issued

  /** Every call in a run of one stage has that stage. */
  lemma InStageMember(t: seq<Action>, k: nat, a: Action)
    requires InStage(t, k) && a in t
    ensures Stage(a) == k
  {
  }

  /** The calls of a pass come in stage order. A failed account ends the pass
      with that failure, and then no deployment has been created or replaced. */
  lemma ExecuteOrder(p: DeploymentPlan, accounts: seq<string>)
    requires CreatedHaveMetadata(p)
    ensures var r := Execute(p, accounts);
      && StageSorted(r.trace)
      && r.failure == CreateAccounts(p.created).failure
      && (r.failure.Some? ==> forall a | a in r.trace :: Stage(a) <= 4)
  {
    var del := DeleteDeployments(p.removed);
    var prune := PruneServiceAccounts(accounts, p.removed);
    var made := CreateAccounts(p.created);
    StageSortedAppend(del, prune, 3);
    assert InStage(made.trace, 4);
    StageSortedAppend(del + prune, made.trace, 4);
    if made.failure.None? {
      var cr := CreateDeployments(p.created);
      StageSortedAppend(del + prune + made.trace, cr, 5);
      StageSortedAppend(del + prune + made.trace + cr, ReplaceDeployments(p.updated), 6);
    }
  }

  /** A pass issues no service call: every call it makes is of stage 2 or later. */
  lemma ExecuteStages(p: DeploymentPlan, accounts: seq<string>)
    requires CreatedHaveMetadata(p)
    ensures forall a | a in Execute(p, accounts).trace :: Stage(a) >= 2
  {
    var del := DeleteDeployments(p.removed);
    var prune := PruneServiceAccounts(accounts, p.removed);
    var made := CreateAccounts(p.created);
    var after := if made.failure.Some? then [] else CreateDeployments(p.created) + ReplaceDeployments(p.updated);
    assert Execute(p, accounts).trace == del + prune + made.trace + after;
    forall a | a in Execute(p, accounts).trace ensures Stage(a) >= 2
    {
      if a in del {
      } else if a in prune {
      } else if a in made.trace {
      } else {
        assert a in after;
      }
    }
  }

  /** A pass deletes exactly the planned deployments and, of the listed accounts,
      exactly those named after a deleted deployment. */
  lemma ExecuteDeletes(p: DeploymentPlan, accounts: seq<string>)
    requires CreatedHaveMetadata(p)
    ensures var r := Execute(p, accounts);
      && (forall n :: DeleteDeployment(n) in r.trace <==> n in p.removed)
      && (forall n :: DeleteServiceAccount(n) in r.trace <==> n in accounts && n in p.removed)
  {
    var del := DeleteDeployments(p.removed);
    var prune := PruneServiceAccounts(accounts, p.removed);
    var made := CreateAccounts(p.created);
    var after := if made.failure.Some? then [] else CreateDeployments(p.created) + ReplaceDeployments(p.updated);
    var r := Execute(p, accounts);
    assert r.trace == del + prune + made.trace + after;
    forall n
      ensures DeleteDeployment(n) !in prune + made.trace + after
      ensures DeleteServiceAccount(n) !in del + made.trace + after
    {
    }
  }

  /** Every account a pass creates is the account of a deployment on the create
      list. When no account fails, the pass creates exactly the planned new
      deployments and replaces exactly the planned changed ones. */
  lemma ExecuteCreates(p: DeploymentPlan, accounts: seq<string>)
    requires CreatedHaveMetadata(p)
    ensures var r := Execute(p, accounts);
      && (forall a :: CreateServiceAccount(a) in r.trace ==>
            exists i | 0 <= i < |p.created| :: AccountFor(p.created[i]) == Ok(a))
      && (r.failure.None? ==> forall x :: CreateDeployment(x) in r.trace <==> x in p.created)
      && (r.failure.None? ==> forall x :: ReplaceDeployment(x) in r.trace <==> x in p.updated)
  {
    ExecuteAccounts(p, accounts);
    ExecuteCompleted(p, accounts);
  }

  /** Every account a pass creates is the account of a deployment on the create list. */
  lemma ExecuteAccounts(p: DeploymentPlan, accounts: seq<string>)
    requires CreatedHaveMetadata(p)
    ensures forall a :: CreateServiceAccount(a) in Execute(p, accounts).trace ==>
      exists i | 0 <= i < |p.created| :: AccountFor(p.created[i]) == Ok(a)
  {
    var before := DeleteDeployments(p.removed) + PruneServiceAccounts(accounts, p.removed);
    var made := CreateAccounts(p.created);
    var after := if made.failure.Some? then [] else CreateDeployments(p.created) + ReplaceDeployments(p.updated);
    var r := Execute(p, accounts);
    assert r.trace == before + made.trace + after;
    forall a | CreateServiceAccount(a) in r.trace
      ensures exists i | 0 <= i < |p.created| :: AccountFor(p.created[i]) == Ok(a)
    {
      assert CreateServiceAccount(a) !in before && CreateServiceAccount(a) !in after;
      var k :| 0 <= k < |made.trace| && made.trace[k] == CreateServiceAccount(a);
      assert AccountFor(p.created[k]) == Ok(a);
    }
  }

  /** A pass whose accounts all succeed creates exactly the planned new deployments
      and replaces exactly the planned changed ones. */
  lemma ExecuteCompleted(p: DeploymentPlan, accounts: seq<string>)
    requires CreatedHaveMetadata(p)
    ensures var r := Execute(p, accounts);
      && (r.failure.None? ==> forall x :: CreateDeployment(x) in r.trace <==> x in p.created)
      && (r.failure.None? ==> forall x :: ReplaceDeployment(x) in r.trace <==> x in p.updated)
  {
    var before := DeleteDeployments(p.removed) + PruneServiceAccounts(accounts, p.removed);
    var made := CreateAccounts(p.created);
    if made.failure.None? {
      var cr := CreateDeployments(p.created);
      var rp := ReplaceDeployments(p.updated);
      assert Execute(p, accounts).trace == before + made.trace + cr + rp;
      forall x ensures CreateDeployment(x) !in before + made.trace && ReplaceDeployment(x) !in before + made.trace
      {
      }
    }
  }

  /** The account creates of a pass do not look at the accounts the namespace
      lists: an account left over from an earlier deployment of the same name is
      requested again. */
  lemma AccountCreatesIgnoreListing(p: DeploymentPlan, accounts: seq<string>)
    requires CreatedHaveMetadata(p)
    ensures forall x :: CreateServiceAccount(x) in Execute(p, accounts).trace <==>
                        CreateServiceAccount(x) in Execute(p, []).trace
    ensures Execute(p, accounts).failure == Execute(p, []).failure
  {
    var made := CreateAccounts(p.created);
    var after := if made.failure.Some? then [] else CreateDeployments(p.created) + ReplaceDeployments(p.updated);
    var del := DeleteDeployments(p.removed);
    var prune := PruneServiceAccounts(accounts, p.removed);
    var none := PruneServiceAccounts([], p.removed);
    assert Execute(p, accounts).trace == del + prune + made.trace + after;
    assert Execute(p, []).trace == del + none + made.trace + after;
    forall x ensures CreateServiceAccount(x) !in del + prune && CreateServiceAccount(x) !in del + none
                 && CreateServiceAccount(x) !in after
    {
    }
  }

  /** ManageDeployments fails, issuing nothing, exactly when the plan cannot be
      made. Otherwise it issues the plan's calls in stage order. A service account is
      created only when some deployment is new. */
  lemma ManageDeploymentsTrace(ext: Externals, items: seq<Option<Deployment>>, desired: seq<Deployment>,
                               accounts: seq<string>)
    ensures var r := ManageDeployments(ext, items, desired, accounts);
      var p := DeploymentPlanFor(ext, items, desired);
      && StageSorted(r.trace)
      && (p.Err? ==> r == Run([], Some(p.error)))
      && (p.Ok? ==> CreatedHaveMetadata(p.value) && r == Execute(p.value, accounts))
      && (forall a | CreateServiceAccount(a) in r.trace :: p.Ok? && p.value.created != [])
      && (forall a | CreateServiceAccount(a) in r.trace ::
            p.Ok? && exists i | 0 <= i < |p.value.created| :: AccountFor(p.value.created[i]) == Ok(a))
  {
    var p := DeploymentPlanFor(ext, items, desired);
    if p.Ok? {
      CurrentConfigOk(items, ext.serializeDeployment);
      var fps := CurrentConfig(items, ext.serializeDeployment).value;
      ExecuteOrder(p.value, accounts);
      ExecuteCreates(p.value, accounts);
    }
  }

  // ---------------------------------------------------------------------------
  // Idempotence

  /** The deployments the cluster holds after a pass whose calls all succeeded.
      Under each desired name it holds the observed deployment when that was
      unchanged, and what was sent otherwise. */
  function DeploymentsAfter(ext: Externals, fps: map<string, string>, observed: seq<Deployment>, desired: seq<Deployment>)
    : (after: seq<Deployment>)
    requires AllNamed(observed) && fps.Keys == NameSet(observed) && AllNamed(desired)
    ensures |after| == |desired| && AllNamed(after)
    ensures forall i | 0 <= i < |desired| :: NameOf(after[i]) == NameOf(desired[i])
  {
    seq(|desired|, i requires 0 <= i < |desired| =>
      var f := FateOf(ext, fps, observed, desired[i]);
      if f == Unchanged then FindByName(observed, NameOf(desired[i])).value
      else Sent(ext, observed, desired[i], f))
  }

  /** The cluster after a pass holds exactly the desired names, each once. */
  lemma DeploymentsAfterNames(ext: Externals, fps: map<string, string>, observed: seq<Deployment>, desired: seq<Deployment>)
    requires AllNamed(observed) && fps.Keys == NameSet(observed) && AllNamed(desired) && DistinctNames(desired)
    ensures var after := DeploymentsAfter(ext, fps, observed, desired);
      && DistinctNames(after)
      && NameSet(after) == NameSet(desired)
      && Values(Listed(after)) == after
  {
    var after := DeploymentsAfter(ext, fps, observed, desired);
    forall i, j | 0 <= i < j < |after| ensures NameOf(after[i]) != NameOf(after[j])
    {
      assert NameOf(desired[i]) != NameOf(desired[j]);
    }
    forall n | n in NameSet(desired) ensures n in NameSet(after)
    {
      var i :| 0 <= i < |desired| && NameOf(desired[i]) == n;
      assert NameOf(after[i]) == n;
    }
    forall n | n in NameSet(after) ensures n in NameSet(desired)
    {
      var i :| 0 <= i < |after| && NameOf(after[i]) == n;
      assert NameOf(desired[i]) == n;
    }
  }

  /** Read back from the cluster a pass left behind, every desired deployment is
      unchanged. Created and replaced ones carry their own serialization as
      fingerprint. A kept one still has the fingerprint, or for edgeAgent the image,
      that made it unchanged. */
  lemma DeploymentsAfterUnchanged(ext: Externals, items: seq<Option<Deployment>>, desired: seq<Deployment>)
    requires CurrentConfig(items, ext.serializeDeployment).Ok?
    requires AllNamed(desired) && DistinctNames(desired)
    ensures CurrentConfig(items, ext.serializeDeployment).value.Keys == NameSet(Values(items))
    ensures var fps := CurrentConfig(items, ext.serializeDeployment).value;
      var after := DeploymentsAfter(ext, fps, Values(items), desired);
      var again := CurrentConfig(Listed(after), ext.serializeDeployment);
      && again.Ok?
      && again.value.Keys == NameSet(after)
      && forall i | 0 <= i < |desired| :: FateOf(ext, again.value, after, desired[i]) == Unchanged
  {
    var ser := ext.serializeDeployment;
    CurrentConfigOk(items, ser);
    var fps := CurrentConfig(items, ser).value;
    var after := DeploymentsAfter(ext, fps, Values(items), desired);
    DeploymentsAfterNames(ext, fps, Values(items), desired);
    CurrentConfigOk(Listed(after), ser);
    var again := CurrentConfig(Listed(after), ser).value;
    forall i | 0 <= i < |desired| ensures FateOf(ext, again, after, desired[i]) == Unchanged
    {
      AfterEntryUnchanged(ext, items, desired, i);
    }
  }

  /** DeploymentsAfterUnchanged for the desired deployment at `i`. */
  lemma AfterEntryUnchanged(ext: Externals, items: seq<Option<Deployment>>, desired: seq<Deployment>, i: nat)
    requires CurrentConfig(items, ext.serializeDeployment).Ok?
    requires AllNamed(desired) && DistinctNames(desired) && i < |desired|
    ensures CurrentConfig(items, ext.serializeDeployment).value.Keys == NameSet(Values(items))
    ensures var fps := CurrentConfig(items, ext.serializeDeployment).value;
      var after := DeploymentsAfter(ext, fps, Values(items), desired);
      var again := CurrentConfig(Listed(after), ext.serializeDeployment);
      && again.Ok?
      && again.value.Keys == NameSet(after)
      && FateOf(ext, again.value, after, desired[i]) == Unchanged
  {
    var ser := ext.serializeDeployment;
    CurrentConfigOk(items, ser);
    var fps := CurrentConfig(items, ser).value;
    var observed := Values(items);
    var after := DeploymentsAfter(ext, fps, observed, desired);
    var listed := Listed(after);
    DeploymentsAfterNames(ext, fps, observed, desired);
    CurrentConfigOk(listed, ser);
    var again := CurrentConfig(listed, ser).value;
    var n := NameOf(desired[i]);
    var d := desired[i];
    assert again[n] == Fingerprint(after[i], ser) by {
      assert NameOf(listed[i].value) == n;
    }
    FindDistinct(after, i);
    var f := FateOf(ext, fps, observed, d);
    if f == Unchanged {
      var k :| 0 <= k < |observed| && NameOf(observed[k]) == n;
      FindDistinct(observed, k);
      assert NameOf(items[k].value) == n;
      assert after[i] == observed[k];
    } else {
      ReadsWrittenFingerprint(d, ser(d), ser);
      assert Stored(after[i]) == Some(ser(d));
    }
  }

  /** Planning again against the cluster a pass left behind yields the empty plan. */
  lemma SecondPassPlansNothing(ext: Externals, items: seq<Option<Deployment>>, desired: seq<Deployment>)
    requires CurrentConfig(items, ext.serializeDeployment).Ok?
    requires AllNamed(desired) && DistinctNames(desired)
    ensures CurrentConfig(items, ext.serializeDeployment).value.Keys == NameSet(Values(items))
    ensures var fps := CurrentConfig(items, ext.serializeDeployment).value;
      var after := DeploymentsAfter(ext, fps, Values(items), desired);
      DeploymentPlanFor(ext, Listed(after), desired) == Ok(DeploymentPlan([], [], []))
  {
    var ser := ext.serializeDeployment;
    DeploymentsAfterUnchanged(ext, items, desired);
    var fps := CurrentConfig(items, ser).value;
    var after := DeploymentsAfter(ext, fps, Values(items), desired);
    var listed := Listed(after);
    DeploymentsAfterNames(ext, fps, Values(items), desired);
    var again := CurrentConfig(listed, ser).value;
    AllUnchangedDecidesNothing(ext, again, after, desired);
    RemovedNothing(after, desired);
  }

  // ---------------------------------------------------------------------------
  // Effect on the cluster

  /** With distinct desired names, the create list and the replace list each have
      distinct names, all of them desired. */
  lemma {:induction false} DecideDistinct(ext: Externals, fps: map<string, string>, observed: seq<Deployment>,
                                           desired: seq<Deployment>)
    requires AllNamed(observed) && fps.Keys == NameSet(observed) && AllNamed(desired) && DistinctNames(desired)
    ensures var p := Decide(ext, fps, observed, desired);
      DistinctNames(p.created) && DistinctNames(p.updated)
    decreases |desired|
  {
    if |desired| > 0 {
      var tail := desired[1..];
      DistinctTail(desired);
      DecideDistinct(ext, fps, observed, tail);
      PlanPartition(ext, fps, observed, tail);
      var rest := Decide(ext, fps, observed, tail);
      var d := desired[0];
      var f := FateOf(ext, fps, observed, d);
      if f == New {
        DistinctCons(Sent(ext, observed, d, f), rest.created);
      } else if f == Changed {
        DistinctCons(Sent(ext, observed, d, f), rest.updated);
      }
    }
  }

  /** The cluster after the calls of a plan whose accounts all succeeded: the
      deletes, prunes, account creates and deployment creates leave the kept
      deployments followed by the created ones, with the services untouched; the
      replaces then act on that. */
  lemma ExecuteState(c: State, p: DeploymentPlan, accounts: seq<string>)
    requires CreatedHaveMetadata(p) && Execute(p, accounts).failure.None?
    ensures var mid := Apply(c, DeleteDeployments(p.removed) + PruneServiceAccounts(accounts, p.removed)
                                + CreateAccounts(p.created).trace + CreateDeployments(p.created));
      && mid.services == c.services
      && mid.deployments == Keep(c.deployments, p.removed) + p.created
      && Apply(c, Execute(p, accounts).trace) == Apply(mid, ReplaceDeployments(p.updated))
  {
    var del := DeleteDeployments(p.removed);
    var prune := PruneServiceAccounts(accounts, p.removed);
    var made := CreateAccounts(p.created).trace;
    var cr := CreateDeployments(p.created);
    var rp := ReplaceDeployments(p.updated);
    assert Execute(p, accounts).trace == del + prune + made + cr + rp;
    ApplyAppend(c, del + prune + made + cr, rp);
    ApplyAppend(c, del + prune + made, cr);
    ApplyAppend(c, del + prune, made);
    ApplyAppend(c, del, prune);
    ApplyDeleteDeployments(c, del, p.removed);
    var c1 := Apply(c, del);
    ApplyAccountCalls(c1, prune);
    var c2 := Apply(c1, prune);
    ApplyAccountCalls(c2, made);
    ApplyCreateDeployments(Apply(c2, made), cr, p.created);
  }

  /** The deployments kept by the deletes and the ones created have distinct
      names, no name in both, and together carry exactly the desired names. */
  lemma KeptAndCreatedDeployments(ext: Externals, fps: map<string, string>, observed: seq<Deployment>,
                                  desired: seq<Deployment>)
    requires AllNamed(observed) && DistinctNames(observed) && fps.Keys == NameSet(observed)
    requires AllNamed(desired) && DistinctNames(desired)
    ensures var p := Decide(ext, fps, observed, desired);
      var ds := Keep(observed, RemovedNames(observed, desired)) + p.created;
      && AllNamed(ds) && DistinctNames(ds) && NameSet(ds) == NameSet(desired)
  {
    var p := Decide(ext, fps, observed, desired);
    var removed := RemovedNames(observed, desired);
    var kept := Keep(observed, removed);
    KeepNames(observed, removed);
    PlanPartition(ext, fps, observed, desired);
    DecideDistinct(ext, fps, observed, desired);
    NewAndChangedPlanned(ext, fps, observed, desired);
    DistinctAppend(kept, p.created);
    NameSetAppend(kept, p.created);
    forall n | n in NameSet(desired) ensures n in NameSet(kept) + NameSet(p.created)
    {
      var i :| 0 <= i < |desired| && NameOf(desired[i]) == n;
      if n !in NameSet(observed) {
        var j :| 0 <= j < |p.created| && p.created[j] == ForCreate(ext, desired[i]);
      }
    }
  }

  /** What a successful pass's calls leave holds, one per name, exactly the
      deployments `DeploymentsAfter` names. */
  lemma DeploymentsAfterMatches(ext: Externals, fps: map<string, string>, observed: seq<Deployment>,
                                desired: seq<Deployment>, mid: State)
    requires AllNamed(observed) && DistinctNames(observed) && fps.Keys == NameSet(observed)
    requires AllNamed(desired) && DistinctNames(desired)
    requires mid.deployments ==
      Keep(observed, RemovedNames(observed, desired)) + Decide(ext, fps, observed, desired).created
    ensures var p := Decide(ext, fps, observed, desired);
      SameByName(Apply(mid, ReplaceDeployments(p.updated)).deployments, DeploymentsAfter(ext, fps, observed, desired))
  {
    var p := Decide(ext, fps, observed, desired);
    var ds := mid.deployments;
    KeptAndCreatedDeployments(ext, fps, observed, desired);
    DecideDistinct(ext, fps, observed, desired);
    ApplyReplaces(mid, ReplaceDeployments(p.updated), p.updated);
    var res := Apply(mid, ReplaceDeployments(p.updated)).deployments;
    var after := DeploymentsAfter(ext, fps, observed, desired);
    DeploymentsAfterNames(ext, fps, observed, desired);
    forall i, j | 0 <= i < j < |res| ensures NameOf(res[i]) != NameOf(res[j])
    {
      assert NameOf(ds[i]) != NameOf(ds[j]);
    }
    forall n | n in NameSet(res) ensures n in NameSet(ds)
    {
      var k :| 0 <= k < |res| && NameOf(res[k]) == n;
      assert NameOf(ds[k]) == n;
    }
    forall n | n in NameSet(ds) ensures n in NameSet(res)
    {
      var k :| 0 <= k < |ds| && NameOf(ds[k]) == n;
      assert NameOf(res[k]) == n;
    }
    forall i | 0 <= i < |desired| ensures after[i] in res
    {
      DeploymentEntryPresent(ext, fps, observed, desired, mid, i);
    }
  }

  /** The deployment `DeploymentsAfter` names for the desired deployment at `i` is
      in the cluster after the replaces: an unchanged or new one is left where the
      deletes and creates put it, a changed one takes its observed namesake's place. */
  lemma DeploymentEntryPresent(ext: Externals, fps: map<string, string>, observed: seq<Deployment>,
                               desired: seq<Deployment>, mid: State, i: nat)
    requires AllNamed(observed) && DistinctNames(observed) && fps.Keys == NameSet(observed)
    requires AllNamed(desired) && DistinctNames(desired) && i < |desired|
    requires mid.deployments ==
      Keep(observed, RemovedNames(observed, desired)) + Decide(ext, fps, observed, desired).created
    ensures var p := Decide(ext, fps, observed, desired);
      AllNamed(p.updated) && DistinctNames(p.updated) && AllNamed(mid.deployments)
    ensures var p := Decide(ext, fps, observed, desired);
      DeploymentsAfter(ext, fps, observed, desired)[i] in Apply(mid, ReplaceDeployments(p.updated)).deployments
  {
    var p := Decide(ext, fps, observed, desired);
    var kept := Keep(observed, RemovedNames(observed, desired));
    KeptAndCreatedDeployments(ext, fps, observed, desired);
    DecideDistinct(ext, fps, observed, desired);
    var f := FateOf(ext, fps, observed, desired[i]);
    if f == New {
      NewEntryPresent(ext, fps, observed, desired, mid, i);
    } else {
      var k :| 0 <= k < |observed| && NameOf(observed[k]) == NameOf(desired[i]);
      KeepMembers(observed, RemovedNames(observed, desired));
      assert observed[k] in kept;
      var m :| 0 <= m < |kept| && kept[m] == observed[k];
      FindDistinct(observed, k);
      ObservedEntryPresent(ext, fps, observed, desired, mid, i, m);
    }
  }

  /** A new desired deployment: what was sent for it stays where the creates put it. */
  lemma NewEntryPresent(ext: Externals, fps: map<string, string>, observed: seq<Deployment>,
                        desired: seq<Deployment>, mid: State, i: nat)
    requires AllNamed(observed) && DistinctNames(observed) && fps.Keys == NameSet(observed)
    requires AllNamed(desired) && DistinctNames(desired) && i < |desired|
    requires FateOf(ext, fps, observed, desired[i]) == New
    requires mid.deployments ==
      Keep(observed, RemovedNames(observed, desired)) + Decide(ext, fps, observed, desired).created
    requires var p := Decide(ext, fps, observed, desired);
      AllNamed(p.updated) && DistinctNames(p.updated) && AllNamed(mid.deployments)
    ensures var p := Decide(ext, fps, observed, desired);
      ForCreate(ext, desired[i]) in Apply(mid, ReplaceDeployments(p.updated)).deployments
  {
    var p := Decide(ext, fps, observed, desired);
    var kept := Keep(observed, RemovedNames(observed, desired));
    var ds := mid.deployments;
    PlanPartition(ext, fps, observed, desired);
    NewAndChangedPlanned(ext, fps, observed, desired);
    ApplyReplaces(mid, ReplaceDeployments(p.updated), p.updated);
    var res := Apply(mid, ReplaceDeployments(p.updated)).deployments;
    var j :| 0 <= j < |p.created| && p.created[j] == ForCreate(ext, desired[i]);
    var x := p.created[j];
    assert NameOf(x) in NameSet(p.created);
    assert NameOf(x) !in NameSet(p.updated);
    assert ds[|kept| + j] == x;
    assert res[|kept| + j] == x;
  }

  /** A desired deployment the cluster held, kept at `m` by the deletes: it stays
      when unchanged and is replaced by what was sent when changed. */
  lemma ObservedEntryPresent(ext: Externals, fps: map<string, string>, observed: seq<Deployment>,
                             desired: seq<Deployment>, mid: State, i: nat, m: nat)
    requires AllNamed(observed) && DistinctNames(observed) && fps.Keys == NameSet(observed)
    requires AllNamed(desired) && DistinctNames(desired) && i < |desired|
    requires FateOf(ext, fps, observed, desired[i]) != New
    requires mid.deployments ==
      Keep(observed, RemovedNames(observed, desired)) + Decide(ext, fps, observed, desired).created
    requires var p := Decide(ext, fps, observed, desired);
      AllNamed(p.updated) && DistinctNames(p.updated) && AllNamed(mid.deployments)
    requires m < |mid.deployments| && mid.deployments[m] == FindByName(observed, NameOf(desired[i])).value
    ensures var p := Decide(ext, fps, observed, desired);
      DeploymentsAfter(ext, fps, observed, desired)[i] in Apply(mid, ReplaceDeployments(p.updated)).deployments
  {
    var p := Decide(ext, fps, observed, desired);
    var ds := mid.deployments;
    var d := desired[i];
    ApplyReplaces(mid, ReplaceDeployments(p.updated), p.updated);
    var res := Apply(mid, ReplaceDeployments(p.updated)).deployments;
    if FateOf(ext, fps, observed, d) == Changed {
      NewAndChangedPlanned(ext, fps, observed, desired);
      var j :| 0 <= j < |p.updated| && p.updated[j] == ForUpdate(ext, ds[m], d);
      assert res[m] == p.updated[j];
    } else {
      UnchangedNotPlanned(ext, fps, observed, desired);
      assert res[m] == ds[m];
    }
  }

  /** A pass whose accounts all succeeded leaves the services alone and the
      deployments agreeing by name with `DeploymentsAfter`. */
  lemma DeploymentsPassMatches(ext: Externals, c: State, items: seq<Option<Deployment>>, desired: seq<Deployment>,
                               accounts: seq<string>)
    requires CurrentConfig(items, ext.serializeDeployment).Ok?
    requires AllNamed(desired) && DistinctNames(desired) && c.deployments == Values(items)
    requires ManageDeployments(ext, items, desired, accounts).failure.None?
    ensures CurrentConfig(items, ext.serializeDeployment).value.Keys == NameSet(Values(items))
    ensures var fps := CurrentConfig(items, ext.serializeDeployment).value;
      var st := Apply(c, ManageDeployments(ext, items, desired, accounts).trace);
      && st.services == c.services
      && SameByName(st.deployments, DeploymentsAfter(ext, fps, Values(items), desired))
  {
    var ser := ext.serializeDeployment;
    CurrentConfigOk(items, ser);
    var fps := CurrentConfig(items, ser).value;
    var observed := Values(items);
    var p := DeploymentPlanFor(ext, items, desired).value;
    assert p == Decide(ext, fps, observed, desired).(removed := RemovedNames(observed, desired));
    var r := ManageDeployments(ext, items, desired, accounts);
    ManageDeploymentsTrace(ext, items, desired, accounts);
    assert r == Execute(p, accounts);
    ExecuteState(c, p, accounts);
    var mid := Apply(c, DeleteDeployments(p.removed) + PruneServiceAccounts(accounts, p.removed)
                        + CreateAccounts(p.created).trace + CreateDeployments(p.created));
    assert mid.deployments == Keep(observed, RemovedNames(observed, desired)) + Decide(ext, fps, observed, desired).created;
    DeploymentsAfterMatches(ext, fps, observed, desired, mid);
    assert Apply(c, r.trace) == Apply(mid, ReplaceDeployments(p.updated));
    ExecuteStages(p, accounts);
    ApplyKeepsServices(c, r.trace);
  }

  /** Effect of a pass on the cluster, derived from its calls. A failed account
      leaves no deployment created or replaced. Otherwise the deployments are, one
      per name, exactly the desired ones: an unchanged deployment is the observed
      object left in place, a new one is created as sent, and a changed one is
      replaced by what was sent. The services are untouched. */
  lemma DeploymentsPassEffect(ext: Externals, c: State, items: seq<Option<Deployment>>, desired: seq<Deployment>,
                              accounts: seq<string>)
    requires CurrentConfig(items, ext.serializeDeployment).Ok?
    requires AllNamed(desired) && DistinctNames(desired) && c.deployments == Values(items)
    ensures CurrentConfig(items, ext.serializeDeployment).value.Keys == NameSet(Values(items))
    ensures var fps := CurrentConfig(items, ext.serializeDeployment).value;
      var observed := Values(items);
      var r := ManageDeployments(ext, items, desired, accounts);
      var st := Apply(c, r.trace);
      && (r.failure.Some? ==> forall a | a in r.trace :: !a.CreateDeployment? && !a.ReplaceDeployment?)
      && (r.failure.None? ==>
            && st.services == c.services
            && SameByName(st.deployments, DeploymentsAfter(ext, fps, observed, desired))
            && NameSet(st.deployments) == NameSet(desired)
            && forall i | 0 <= i < |desired| ::
                 var f := FateOf(ext, fps, observed, desired[i]);
                 FindByName(st.deployments, NameOf(desired[i])) ==
                   if f == Unchanged then FindByName(observed, NameOf(desired[i]))
                   else Some(Sent(ext, observed, desired[i], f)))
  {
    var ser := ext.serializeDeployment;
    CurrentConfigOk(items, ser);
    var fps := CurrentConfig(items, ser).value;
    var observed := Values(items);
    var r := ManageDeployments(ext, items, desired, accounts);
    if r.failure.Some? {
      FailedPassSendsNothing(ext, items, desired, accounts);
    } else {
      DeploymentsPassMatches(ext, c, items, desired, accounts);
      var st := Apply(c, r.trace).deployments;
      var after := DeploymentsAfter(ext, fps, observed, desired);
      DeploymentsAfterNames(ext, fps, observed, desired);
      forall i | 0 <= i < |desired|
        ensures var f := FateOf(ext, fps, observed, desired[i]);
          FindByName(st, NameOf(desired[i])) ==
            if f == Unchanged then FindByName(observed, NameOf(desired[i]))
            else Some(Sent(ext, observed, desired[i], f))
      {
        FindSame(st, after, NameOf(desired[i]));
        FindDistinct(after, i);
      }
    }
  }

  /** A pass that fails has created and replaced no deployment. */
  lemma FailedPassSendsNothing(ext: Externals, items: seq<Option<Deployment>>, desired: seq<Deployment>,
                               accounts: seq<string>)
    ensures var r := ManageDeployments(ext, items, desired, accounts);
      r.failure.Some? ==> forall a | a in r.trace :: !a.CreateDeployment? && !a.ReplaceDeployment?
  {
    var p := DeploymentPlanFor(ext, items, desired);
    if p.Ok? {
      var before := DeleteDeployments(p.value.removed) + PruneServiceAccounts(accounts, p.value.removed);
      var made := CreateAccounts(p.value.created);
      if made.failure.Some? {
        assert ManageDeployments(ext, items, desired, accounts).trace == before + made.trace;
      }
    }
  }



  /** Listing a cluster that agrees by name with what a pass left behind, a
      second pass with the same desired deployments issues no call, whatever
      accounts exist. */
  lemma SecondDeploymentPass(ext: Externals, items: seq<Option<Deployment>>, desired: seq<Deployment>,
                             st: seq<Deployment>, accounts: seq<string>)
    requires CurrentConfig(items, ext.serializeDeployment).Ok?
    requires AllNamed(desired) && DistinctNames(desired)
    requires CurrentConfig(items, ext.serializeDeployment).value.Keys == NameSet(Values(items))
    requires var fps := CurrentConfig(items, ext.serializeDeployment).value;
      SameByName(st, DeploymentsAfter(ext, fps, Values(items), desired))
    ensures ManageDeployments(ext, Listed(st), desired, accounts) == Run([], None)
  {
    var ser := ext.serializeDeployment;
    var fps := CurrentConfig(items, ser).value;
    var after := DeploymentsAfter(ext, fps, Values(items), desired);
    DeploymentsAfterUnchanged(ext, items, desired);
    DeploymentsAfterNames(ext, fps, Values(items), desired);
    SameConfig(st, after, ser);
    ListedValues(st);
    var again := CurrentConfig(Listed(st), ser).value;
    forall i | 0 <= i < |desired| ensures FateOf(ext, again, st, desired[i]) == Unchanged
    {
      FindSame(st, after, NameOf(desired[i]));
    }
    AllUnchangedDecidesNothing(ext, again, st, desired);
    RemovedNothing(st, desired);
    assert DeploymentPlanFor(ext, Listed(st), desired) == Ok(DeploymentPlan([], [], []));
    EmptyPlanIssuesNothing(accounts);
  }

  /** Idempotence: list the cluster a pass whose accounts all succeeded leaves
      behind, as computed from the calls it issued, and a second pass with the same
      desired deployments and the accounts then present issues no call at all. */
  lemma DeploymentsIdempotent(ext: Externals, c: State, items: seq<Option<Deployment>>, desired: seq<Deployment>,
                              accounts: seq<string>)
    requires CurrentConfig(items, ext.serializeDeployment).Ok?
    requires AllNamed(desired) && DistinctNames(desired) && c.deployments == Values(items)
    ensures var r := ManageDeployments(ext, items, desired, accounts);
      var st := Apply(c, r.trace);
      r.failure.None? ==> ManageDeployments(ext, Listed(st.deployments), desired, st.accounts) == Run([], None)
  {
    var r := ManageDeployments(ext, items, desired, accounts);
    DeploymentsPassEffect(ext, c, items, desired, accounts);
    if r.failure.None? {
      var st := Apply(c, r.trace);
      SecondDeploymentPass(ext, items, desired, st.deployments, st.accounts);
    }
  }

  /** The empty plan issues no call and does not fail. */
  lemma EmptyPlanIssuesNothing(accounts: seq<string>)
    ensures Execute(DeploymentPlan([], [], []), accounts) == Run([], None)
  {
    PruneNothing(accounts);
  }

  /** With every desired deployment unchanged, nothing is created or replaced. */
  lemma {:induction false} AllUnchangedDecidesNothing(ext: Externals, fps: map<string, string>,
                                                      observed: seq<Deployment>, desired: seq<Deployment>)
    requires AllNamed(observed) && fps.Keys == NameSet(observed) && AllNamed(desired)
    requires forall i | 0 <= i < |desired| :: FateOf(ext, fps, observed, desired[i]) == Unchanged
    ensures Decide(ext, fps, observed, desired) == DeploymentPlan([], [], [])
    decreases |desired|
  {
    if |desired| > 0 {
      var tail := desired[1..];
      forall i | 0 <= i < |tail| ensures FateOf(ext, fps, observed, tail[i]) == Unchanged
      {
        assert tail[i] == desired[i + 1];
      }
      AllUnchangedDecidesNothing(ext, fps, observed, tail);
    }
  }
}
