/** Service-account lifecycle: the account made for each new deployment
    (CreateServiceAccount, lines 304-321) and the pruning of accounts by name
    (PruneServiceAccounts, lines 323-338). */
module ServiceAccounts {
  import opened Results
  import opened Kube
  import Constants

  /** CreateServiceAccount: the account is named by the deployment's module label,
      copies the deployment's labels, and carries one annotation, the original module
      id read from the pod template. A missing label or annotation key raises
      KeyNotFound; a null template annotation dictionary raises a null reference. */
  function AccountFor(d: Deployment): (r: Result<ServiceAccount>)
    requires d.metadata.Some?
    ensures r.Ok? <==> Constants.ModuleLabel in d.metadata.value.labels
                       && d.spec.template.annotations.Some?
                       && Constants.OriginalModuleId in d.spec.template.annotations.value
  {
    var labels := d.metadata.value.labels;
    if Constants.ModuleLabel !in labels then Err(KeyNotFound(Constants.ModuleLabel))
    else
      match d.spec.template.annotations
      case None => Err(NullReference)
      case Some(a) =>
        if Constants.OriginalModuleId !in a then Err(KeyNotFound(Constants.OriginalModuleId))
        else
          Ok(ServiceAccount(ObjectMeta(
            Some(labels[Constants.ModuleLabel]),
            labels,
            Some(map[Constants.OriginalModuleId := a[Constants.OriginalModuleId]]),
            None)))
  }

  /** The account-creation stage (line 299): `Task.WhenAll` enumerates the lazy
      `Select`, so accounts are requested one deployment at a time, and the first
      deployment whose account cannot be built throws before any later request. */
  function CreateAccounts(ds: seq<Deployment>): (r: Run)
    requires forall i | 0 <= i < |ds| :: ds[i].metadata.Some?
    ensures |r.trace| <= |ds|
    ensures forall i | 0 <= i < |r.trace| ::
      AccountFor(ds[i]).Ok? && r.trace[i] == CreateServiceAccount(AccountFor(ds[i]).value)
    ensures forall a | a in r.trace :: a.CreateServiceAccount?
    ensures r.failure.None? <==> forall i | 0 <= i < |ds| :: AccountFor(ds[i]).Ok?
    ensures r.failure.None? ==> |r.trace| == |ds|
    ensures r.failure.Some? ==> |r.trace| < |ds| && AccountFor(ds[|r.trace|]) == Err(r.failure.value)
    decreases |ds|
  {
    if |ds| == 0 then Run([], None)
    else
      match AccountFor(ds[0])
      case Err(e) => Run([], Some(e))
      case Ok(a) =>
        var rest := CreateAccounts(ds[1..]);
        Run([CreateServiceAccount(a)] + rest.trace, rest.failure)
  }

  /** PruneServiceAccounts: of the accounts listed in the namespace (with no label
      selector), delete those whose name is on the prune list, in listing order. */
  function PruneServiceAccounts(accounts: seq<string>, prune: seq<string>): (r: seq<Action>)
    ensures |r| <= |accounts|
    ensures InStage(r, 3)
    ensures forall a :: a in r <==> a.DeleteServiceAccount? && a.name in accounts && a.name in prune
    decreases |accounts|
  {
    if |accounts| == 0 then []
    else
      var rest := PruneServiceAccounts(accounts[1..], prune);
      if accounts[0] in prune then [DeleteServiceAccount(accounts[0])] + rest else rest
  }

  /** An empty prune list deletes no account, whatever the namespace lists. */
  lemma {:induction false} PruneNothing(accounts: seq<string>)
    ensures PruneServiceAccounts(accounts, []) == []
    decreases |accounts|
  {
    if |accounts| > 0 {
      PruneNothing(accounts[1..]);
    }
  }
}
