/** The controller's two entry points. DeployModulesAsync (lines 81-140) builds a
    service and a deployment for every docker module, then reconciles services,
    then deployments. PurgeModulesAsync (lines 468-489) deletes every listed service
    and deployment, then prunes their service accounts. */
module Controller {
  import opened Results
  import opened Kube
  import opened Environment
  import opened Fingerprints
  import opened ServiceAccounts
  import Services
  import Deployments
  import Cluster
  import Constants

  /** What the module builder makes of one module. The module builder is
      KubernetesModelBuilder: LoadModule, then GetService and GetPod. The result is
      an optional service and the pod template. */
  datatype Built = Built(service: Option<Service>, pod: PodTemplate)

  /** The module builder, outside this model: labels, module, identity and
      environment in, service and pod out. */
  type Builder = (map<string, string>, Module, Identity, seq<EnvVar>) -> Built

  /** The desired services and deployments of one pass. */
  datatype Desired = Desired(services: seq<Service>, deployments: seq<Deployment>)

  /** What DeployModulesAsync did: its calls, and the module set it returns when
      it completes. */
  datatype Deployed = Deployed(run: Run, result: Option<seq<Module>>)

  predicate IsDocker(m: Module)
  {
    m.moduleType == Constants.DockerType
  }

  /** The modules the loop keeps. Any other type is logged and skipped. */
  function DockerModules(modules: seq<Module>): (r: seq<Module>)
    ensures |r| <= |modules|
    ensures forall m :: m in r <==> m in modules && IsDocker(m)
    decreases |modules|
  {
    if |modules| == 0 then []
    else if IsDocker(modules[0]) then [modules[0]] + DockerModules(modules[1..])
    else DockerModules(modules[1..])
  }

  /** A single module is kept exactly when it is a docker module. */
  lemma DockerModulesOne(m: Module)
    ensures DockerModules([m]) == if IsDocker(m) then [m] else []
  {
    assert [m][1..] == [];
  }

  /** The loop keeps modules in the order it meets them, each once: filtering a
      concatenation filters each part. */
  lemma {:induction false} DockerModulesAppend(a: seq<Module>, b: seq<Module>)
    ensures DockerModules(a + b) == DockerModules(a) + DockerModules(b)
    decreases |a|
  {
    if |a| == 0 {
      assert a + b == b;
    } else {
      assert (a + b)[0] == a[0];
      assert (a + b)[1..] == a[1..] + b;
      DockerModulesAppend(a[1..], b);
    }
  }

  /** Every docker module has an identity and an environment that can be
      collected, so the loop of lines 92-128 cannot throw. */
  predicate Buildable(modules: seq<Module>, ids: map<string, Identity>)
  {
    forall m | m in modules && IsDocker(m) :: m.name in ids && EnvPresent(m)
  }

  /** The default labels of a module (lines 103-108): its deployment name, and the
      label-sanitized device id and hub host name. */
  function Labels(ext: Externals, s: Settings, name: string): map<string, string>
  {
    map[Constants.ModuleLabel := name,
        Constants.DeviceLabel := ext.sanitizeLabel(s.deviceId),
        Constants.HubNameLabel := ext.sanitizeLabel(s.iotHubHostname)]
  }

  /** The desired deployment of a module with identity `id` (lines 110-127). It is
      named after the sanitized module id and has one replica. It selects its pods
      by its own labels. It carries no annotations and no resource version. */
  function DesiredDeployment(ext: Externals, s: Settings, build: Builder, m: Module, id: Identity): (r: Deployment)
    requires EnvPresent(m)
    ensures Named(r) && NameOf(r) == DeploymentName(ext, id.moduleId)
  {
    var name := DeploymentName(ext, id.moduleId);
    var labels := Labels(ext, s, name);
    var built := build(labels, m, id, CollectEnv(s, m, id).value);
    Resource(None, None, Some(ObjectMeta(Some(name), labels, None, None)),
             DeploymentSpec(1, labels, built.pod), None)
  }

  /** The service the builder makes for a module, if any (lines 118-119). */
  function DesiredService(ext: Externals, s: Settings, build: Builder, m: Module, id: Identity): Option<Service>
    requires EnvPresent(m)
  {
    var name := DeploymentName(ext, id.moduleId);
    build(Labels(ext, s, name), m, id, CollectEnv(s, m, id).value).service
  }

  /** The builder's optional service for each of the given docker modules, in order. */
  function DesiredServices(ext: Externals, s: Settings, build: Builder, docker: seq<Module>,
                           ids: map<string, Identity>): seq<Option<Service>>
    requires Buildable(docker, ids) && forall m | m in docker :: IsDocker(m)
  {
    assert forall i | 0 <= i < |docker| :: docker[i] in docker;
    seq(|docker|, i requires 0 <= i < |docker| && docker[i].name in ids && EnvPresent(docker[i]) =>
      DesiredService(ext, s, build, docker[i], ids[docker[i].name]))
  }

  /** The loop of lines 92-128, in module order. For a docker module, a name with
      no identity raises KeyNotFound at line 100, and a null in its environment
      raises a null reference in CollectEnv (line 112). Either ends the pass before
      any call. */
  function BuildDesired(ext: Externals, s: Settings, build: Builder, modules: seq<Module>,
                        ids: map<string, Identity>): (r: Result<Desired>)
    ensures r.Err? ==> r.error.KeyNotFound? || r.error == NullReference
    decreases |modules|
  {
    if |modules| == 0 then Ok(Desired([], []))
    else
      var m := modules[0];
      if !IsDocker(m) then BuildDesired(ext, s, build, modules[1..], ids)
      else if m.name !in ids then Err(KeyNotFound(m.name))
      else
        var id := ids[m.name];
        match CollectEnv(s, m, id)
        case Err(e) => Err(e)
        case Ok(_) =>
          match BuildDesired(ext, s, build, modules[1..], ids)
          case Err(e) => Err(e)
          case Ok(rest) =>
            var svc := DesiredService(ext, s, build, m, id);
            Ok(Desired(
              (if svc.Some? then [svc.value] else []) + rest.services,
              [DesiredDeployment(ext, s, build, m, id)] + rest.deployments))
  }

  /** Modules of other types have no effect on the desired objects. */
  lemma {:induction false} BuildIgnoresOtherTypes(ext: Externals, s: Settings, build: Builder, modules: seq<Module>,
                                                  ids: map<string, Identity>)
    ensures BuildDesired(ext, s, build, modules, ids) == BuildDesired(ext, s, build, DockerModules(modules), ids)
    decreases |modules|
  {
    if |modules| > 0 {
      BuildIgnoresOtherTypes(ext, s, build, modules[1..], ids);
      if IsDocker(modules[0]) {
        assert DockerModules(modules)[1..] == DockerModules(modules[1..]);
      }
    }
  }

  /** Building succeeds exactly when every docker module has an identity and a
      collectable environment. A failure names a docker module without an
      identity, or is the null reference of one whose environment holds a null. On
      success there is one deployment per docker module, in order, built from that
      module's identity, and the services are the builder's services of those
      modules, in the same order. */
  lemma BuildShape(ext: Externals, s: Settings, build: Builder, modules: seq<Module>, ids: map<string, Identity>)
    ensures var r := BuildDesired(ext, s, build, modules, ids);
      var docker := DockerModules(modules);
      && (r.Ok? <==> Buildable(modules, ids))
      && (r.Err? ==> exists m | m in modules && IsDocker(m) :: BuildError(m, ids, r.error))
      && (r.Ok? ==>
            && Buildable(docker, ids)
            && |r.value.deployments| == |docker|
            && (forall i | 0 <= i < |docker| ::
                 r.value.deployments[i] == DesiredDeployment(ext, s, build, docker[i], ids[docker[i].name]))
            && r.value.services == Somes(DesiredServices(ext, s, build, docker, ids)))
  {
    BuildSucceeds(ext, s, build, modules, ids);
    if BuildDesired(ext, s, build, modules, ids).Ok? {
      BuildContents(ext, s, build, modules, ids);
      BuildServices(ext, s, build, modules, ids);
    }
  }

  /** The error building raises at module `m`: KeyNotFound of its name when it has
      no identity, otherwise a null reference when its environment holds a null. */
  predicate BuildError(m: Module, ids: map<string, Identity>, e: Error)
  {
    if m.name !in ids then e == KeyNotFound(m.name) else !EnvPresent(m) && e == NullReference
  }

  /** Building succeeds exactly when every docker module has an identity and a
      collectable environment, and a failure is the error of a docker module that
      lacks one of them. */
  lemma {:induction false} BuildSucceeds(ext: Externals, s: Settings, build: Builder, modules: seq<Module>,
                                         ids: map<string, Identity>)
    ensures var r := BuildDesired(ext, s, build, modules, ids);
      && (r.Ok? <==> Buildable(modules, ids))
      && (r.Err? ==> exists m | m in modules && IsDocker(m) :: BuildError(m, ids, r.error))
    decreases |modules|
  {
    if |modules| > 0 {
      var tail := modules[1..];
      BuildSucceeds(ext, s, build, tail, ids);
      assert modules == [modules[0]] + tail;
    }
  }

  /** A successful build holds the deployments of the docker modules, in order,
      each built from that module's identity. */
  lemma {:induction false} BuildContents(ext: Externals, s: Settings, build: Builder, modules: seq<Module>,
                                         ids: map<string, Identity>)
    requires Buildable(modules, ids)
    ensures BuildDesired(ext, s, build, modules, ids).Ok?
    ensures BuildsInOrder(ext, s, build, modules, ids)
    decreases |modules|
  {
    BuildSucceeds(ext, s, build, modules, ids);
    if |modules| > 0 {
      BuildContents(ext, s, build, modules[1..], ids);
      if IsDocker(modules[0]) {
        BuildContentsStep(ext, s, build, modules, ids);
      } else {
        assert DockerModules(modules) == DockerModules(modules[1..]);
      }
    }
  }

  /** The `i`-th desired deployment is built from the `i`-th docker module. */
  predicate BuildsInOrder(ext: Externals, s: Settings, build: Builder, modules: seq<Module>,
                          ids: map<string, Identity>)
    requires Buildable(modules, ids)
    requires BuildDesired(ext, s, build, modules, ids).Ok?
  {
    var ds := BuildDesired(ext, s, build, modules, ids).value.deployments;
    var docker := DockerModules(modules);
    && |ds| == |docker|
    && forall i | 0 <= i < |docker| :: ds[i] == DesiredDeployment(ext, s, build, docker[i], ids[docker[i].name])
  }

  /** The inductive step of BuildContents for a leading docker module. */
  lemma BuildContentsStep(ext: Externals, s: Settings, build: Builder, modules: seq<Module>,
                          ids: map<string, Identity>)
    requires |modules| > 0 && IsDocker(modules[0])
    requires Buildable(modules, ids)
    requires BuildDesired(ext, s, build, modules[1..], ids).Ok?
    requires BuildsInOrder(ext, s, build, modules[1..], ids)
    ensures BuildDesired(ext, s, build, modules, ids).Ok?
    ensures BuildsInOrder(ext, s, build, modules, ids)
  {
    var m := modules[0];
    var tail := modules[1..];
    BuildStep(ext, s, build, modules, ids);
    var docker := DockerModules(modules);
    var dt := DockerModules(tail);
    assert docker == [m] + dt;
    var ds := BuildDesired(ext, s, build, modules, ids).value.deployments;
    var rest := BuildDesired(ext, s, build, tail, ids).value.deployments;
    forall i | 0 < i < |docker|
      ensures ds[i] == DesiredDeployment(ext, s, build, docker[i], ids[docker[i].name])
    {
      assert docker[i] == dt[i - 1] && ds[i] == rest[i - 1];
    }
  }

  /** One buildable docker module ahead of a list that builds: its deployment
      comes first, and its optional service ahead of the others. */
  lemma BuildStep(ext: Externals, s: Settings, build: Builder, modules: seq<Module>, ids: map<string, Identity>)
    requires |modules| > 0 && IsDocker(modules[0]) && modules[0].name in ids && EnvPresent(modules[0])
    requires BuildDesired(ext, s, build, modules[1..], ids).Ok?
    ensures var d := BuildDesired(ext, s, build, modules, ids);
      var rest := BuildDesired(ext, s, build, modules[1..], ids).value;
      var svc := DesiredService(ext, s, build, modules[0], ids[modules[0].name]);
      && d.Ok?
      && d.value.deployments ==
           [DesiredDeployment(ext, s, build, modules[0], ids[modules[0].name])] + rest.deployments
      && d.value.services == (if svc.Some? then [svc.value] else []) + rest.services
  {
  }

  /** A successful build holds exactly the services the builder made for the
      docker modules, in module order; a module without one adds nothing. */
  lemma {:induction false} BuildServices(ext: Externals, s: Settings, build: Builder, modules: seq<Module>,
                                         ids: map<string, Identity>)
    requires Buildable(modules, ids)
    ensures Buildable(DockerModules(modules), ids)
    ensures var d := BuildDesired(ext, s, build, modules, ids);
      d.Ok? && d.value.services == Somes(DesiredServices(ext, s, build, DockerModules(modules), ids))
    decreases |modules|
  {
    BuildSucceeds(ext, s, build, modules, ids);
    if |modules| > 0 {
      var m := modules[0];
      var tail := modules[1..];
      BuildServices(ext, s, build, tail, ids);
      if IsDocker(m) {
        BuildStep(ext, s, build, modules, ids);
        var dt := DockerModules(tail);
        assert DockerModules(modules) == [m] + dt;
        DesiredServicesCons(ext, s, build, m, dt, ids);
      }
    } else {
      assert DesiredServices(ext, s, build, [], ids) == [];
    }
  }

  /** The builder's services for a leading docker module and the rest: its
      service, if any, comes first. */
  lemma DesiredServicesCons(ext: Externals, s: Settings, build: Builder, m: Module, docker: seq<Module>,
                            ids: map<string, Identity>)
    requires Buildable([m] + docker, ids) && forall x | x in [m] + docker :: IsDocker(x)
    ensures Buildable(docker, ids) && forall x | x in docker :: IsDocker(x)
    ensures var svc := DesiredService(ext, s, build, m, ids[m.name]);
      Somes(DesiredServices(ext, s, build, [m] + docker, ids))
        == (if svc.Some? then [svc.value] else []) + Somes(DesiredServices(ext, s, build, docker, ids))
  {
    assert forall x | x in docker :: x in [m] + docker;
    assert m in [m] + docker;
    var all := DesiredServices(ext, s, build, [m] + docker, ids);
    assert all[1..] == DesiredServices(ext, s, build, docker, ids);
  }

  /** Every desired deployment is named after its module's sanitized id and labelled
      with that name, the sanitized device id and the sanitized hub name. It runs one
      replica and selects its pods by exactly its own labels. */
  lemma DesiredDeploymentShape(ext: Externals, s: Settings, build: Builder, m: Module, id: Identity)
    requires EnvPresent(m)
    ensures var d := DesiredDeployment(ext, s, build, m, id);
      && Named(d) && NameOf(d) == DeploymentName(ext, id.moduleId)
      && d.metadata.value.labels.Keys == {Constants.ModuleLabel, Constants.DeviceLabel, Constants.HubNameLabel}
      && d.metadata.value.labels[Constants.ModuleLabel] == NameOf(d)
      && d.metadata.value.labels[Constants.DeviceLabel] == ext.sanitizeLabel(s.deviceId)
      && d.metadata.value.labels[Constants.HubNameLabel] == ext.sanitizeLabel(s.iotHubHostname)
      && d.spec.replicas == 1 && d.spec.matchLabels == d.metadata.value.labels
      && d.metadata.value.annotations.None? && d.status.None?
  {
  }

  /** The service account made for a desired deployment is named after the
      deployment. So the accounts it creates are the ones pruning finds by
      deployment name. The account carries the deployment's labels. It can be made
      exactly when the builder put the original module id into the pod annotations. */
  lemma AccountNamedAfterDeployment(ext: Externals, s: Settings, build: Builder, m: Module, id: Identity)
    requires EnvPresent(m)
    ensures var d := DesiredDeployment(ext, s, build, m, id);
      var a := AccountFor(d);
      var pod := d.spec.template.annotations;
      && (a.Ok? <==> pod.Some? && Constants.OriginalModuleId in pod.value)
      && (a.Ok? ==> a.value.metadata.name == Some(DeploymentName(ext, id.moduleId))
                    && a.value.metadata.labels == d.metadata.value.labels
                    && a.value.metadata.annotations ==
                         Some(map[Constants.OriginalModuleId := pod.value[Constants.OriginalModuleId]]))
  {
  }

  /** DeployModulesAsync. `serviceItems` and `deploymentItems` are what the two
      list calls return and `accounts` what the account listing returns. The
      identities are what the identity manager hands out. */
  function DeployModules(ext: Externals, s: Settings, build: Builder, modules: seq<Module>, ids: map<string, Identity>,
                         serviceItems: seq<Option<Service>>, deploymentItems: seq<Option<Deployment>>,
                         accounts: seq<string>): (r: Deployed)
    ensures r.result.Some? <==> r.run.failure.None?
    ensures r.result.Some? ==> r.result.value == modules
  {
    match BuildDesired(ext, s, build, modules, ids)
    case Err(e) => Deployed(Run([], Some(e)), None)
    case Ok(d) =>
      var sv := Services.ManageServices(ext, serviceItems, d.services);
      if sv.failure.Some? then Deployed(sv, None)
      else
        var dp := Deployments.ManageDeployments(ext, deploymentItems, d.deployments, accounts);
        Deployed(Run(sv.trace + dp.trace, dp.failure), if dp.failure.None? then Some(modules) else None)
  }

  /** A pass issues its calls in stage order: every service call before any
      deployment call, and within each the order its reconciler fixes. A pass that
      cannot build its desired objects issues no call. A pass whose services fail
      issues no deployment call. */
  lemma DeployOrder(ext: Externals, s: Settings, build: Builder, modules: seq<Module>, ids: map<string, Identity>,
                    serviceItems: seq<Option<Service>>, deploymentItems: seq<Option<Deployment>>, accounts: seq<string>)
    ensures var r := DeployModules(ext, s, build, modules, ids, serviceItems, deploymentItems, accounts);
      var b := BuildDesired(ext, s, build, modules, ids);
      && StageSorted(r.run.trace)
      && (b.Err? ==> r.run == Run([], Some(b.error)))
      && (b.Ok? && Services.ManageServices(ext, serviceItems, b.value.services).failure.Some? ==>
            r.run == Services.ManageServices(ext, serviceItems, b.value.services))
  {
    var b := BuildDesired(ext, s, build, modules, ids);
    if b.Ok? {
      var sv := Services.ManageServices(ext, serviceItems, b.value.services);
      Services.ManageServicesTrace(ext, serviceItems, b.value.services);
      if sv.failure.None? {
        var dp := Deployments.ManageDeployments(ext, deploymentItems, b.value.deployments, accounts);
        Deployments.ManageDeploymentsTrace(ext, deploymentItems, b.value.deployments, accounts);
        ManageServicesCallsOnly(ext, serviceItems, b.value.services);
        DeploymentCallsLater(ext, deploymentItems, b.value.deployments, accounts);
        StageSortedConcat(sv.trace, dp.trace, 1);
      }
    }
  }

  /** ManageServices issues only service calls. */
  lemma ManageServicesCallsOnly(ext: Externals, items: seq<Option<Service>>, desired: seq<Service>)
    ensures forall a | a in Services.ManageServices(ext, items, desired).trace :: a.DeleteService? || a.CreateService?
  {
  }

  /** ManageDeployments issues no service call. */
  lemma DeploymentCallsLater(ext: Externals, items: seq<Option<Deployment>>, desired: seq<Deployment>,
                             accounts: seq<string>)
    ensures forall a | a in Deployments.ManageDeployments(ext, items, desired, accounts).trace :: Stage(a) >= 2
  {
    var p := Deployments.DeploymentPlanFor(ext, items, desired);
    if p.Ok? {
      Deployments.ExecuteStages(p.value, accounts);
    }
  }

  /** Idempotence of a whole pass. Run a pass with distinct desired names against
      what cluster `c` lists. If it returns the module set, apply its calls to `c`
      and list the result: a second pass with the same modules and identities
      issues no call and returns the module set again. */
  lemma DeployIdempotent(ext: Externals, s: Settings, build: Builder, modules: seq<Module>, ids: map<string, Identity>,
                         c: Cluster.State)
    requires BuildDesired(ext, s, build, modules, ids).Ok?
    requires var d := BuildDesired(ext, s, build, modules, ids).value;
      AllNamed(d.services) && DistinctNames(d.services) && AllNamed(d.deployments) && DistinctNames(d.deployments)
    ensures var r := DeployModules(ext, s, build, modules, ids, Listed(c.services), Listed(c.deployments), c.accounts);
      var c2 := Cluster.Apply(c, r.run.trace);
      r.result.Some? ==>
        DeployModules(ext, s, build, modules, ids, Listed(c2.services), Listed(c2.deployments), c2.accounts)
          == Deployed(Run([], None), Some(modules))
  {
    var d := BuildDesired(ext, s, build, modules, ids).value;
    var serviceItems := Listed(c.services);
    var deploymentItems := Listed(c.deployments);
    var r := DeployModules(ext, s, build, modules, ids, serviceItems, deploymentItems, c.accounts);
    if r.result.Some? {
      var sv := Services.ManageServices(ext, serviceItems, d.services);
      var dp := Deployments.ManageDeployments(ext, deploymentItems, d.deployments, c.accounts);
      assert r.run.trace == sv.trace + dp.trace;
      assert CurrentConfig(serviceItems, ext.serializeService).Ok?;
      assert CurrentConfig(deploymentItems, ext.serializeDeployment).Ok?;
      ListedValues(c.services);
      ListedValues(c.deployments);
      Cluster.ApplyAppend(c, sv.trace, dp.trace);
      ManageServicesCallsOnly(ext, serviceItems, d.services);
      Cluster.ApplyKeepsDeployments(c, sv.trace);
      var c1 := Cluster.Apply(c, sv.trace);
      DeploymentCallsLater(ext, deploymentItems, d.deployments, c.accounts);
      Cluster.ApplyKeepsServices(c1, dp.trace);
      Services.ServicesIdempotent(ext, c, serviceItems, d.services);
      Deployments.DeploymentsIdempotent(ext, c1, deploymentItems, d.deployments, c.accounts);
    }
  }

  // ---------------------------------------------------------------------------
  // PurgeModulesAsync

  /** The names a `Select` over a listed collection hands to the client before it
      meets an item it cannot name. A null item or metadata throws NullReference
      there. A null name is not passed to the client: the model stops on it too. */
  function NamesUntilNull<S>(items: seq<Option<Resource<S>>>): (r: (seq<string>, Option<Error>))
    ensures |r.0| <= |items|
    ensures forall i | 0 <= i < |r.0| :: items[i].Some? && Named(items[i].value) && r.0[i] == NameOf(items[i].value)
    ensures r.1.None? <==> Present(items)
    ensures r.1.None? ==> |r.0| == |items|
    ensures r.1.Some? ==> r.1 == Some(NullReference) && |r.0| < |items|
                          && !(items[|r.0|].Some? && Named(items[|r.0|].value))
    decreases |items|
  {
    if |items| == 0 then ([], None)
    else if items[0].None? || !Named(items[0].value) then ([], Some(NullReference))
    else
      var rest := NamesUntilNull(items[1..]);
      ([NameOf(items[0].value)] + rest.0, rest.1)
  }

  /** PurgeModulesAsync. Delete every listed service, then every listed deployment,
      then prune the accounts named after the listed deployments. */
  function PurgeModules(serviceItems: seq<Option<Service>>, deploymentItems: seq<Option<Deployment>>,
                        accounts: seq<string>): (r: Run)
    ensures forall a | a in r.trace :: a.DeleteService? || a.DeleteDeployment? || a.DeleteServiceAccount?
  {
    var sv := NamesUntilNull(serviceItems);
    var svTrace := Services.DeleteServices(sv.0);
    if sv.1.Some? then Run(svTrace, sv.1)
    else
      var dp := NamesUntilNull(deploymentItems);
      var dpTrace := Deployments.DeleteDeployments(dp.0);
      if dp.1.Some? then Run(svTrace + dpTrace, dp.1)
      else Run(svTrace + dpTrace + PruneServiceAccounts(accounts, dp.0), None)
  }

  /** Purging only deletes, in stage order, and completes exactly when every
      listed service and deployment can be named. */
  lemma PurgeOnlyDeletes(serviceItems: seq<Option<Service>>, deploymentItems: seq<Option<Deployment>>,
                         accounts: seq<string>)
    ensures var r := PurgeModules(serviceItems, deploymentItems, accounts);
      && StageSorted(r.trace)
      && (forall a | a in r.trace :: a.DeleteService? || a.DeleteDeployment? || a.DeleteServiceAccount?)
      && (r.failure.None? <==> Present(serviceItems) && Present(deploymentItems))
  {
    var sv := NamesUntilNull(serviceItems);
    var svTrace := Services.DeleteServices(sv.0);
    var dp := NamesUntilNull(deploymentItems);
    var dpTrace := Deployments.DeleteDeployments(dp.0);
    var prune := PruneServiceAccounts(accounts, dp.0);
    var r := PurgeModules(serviceItems, deploymentItems, accounts);
    StageSortedAppend(svTrace, dpTrace, 2);
    StageSortedAppend(svTrace + dpTrace, prune, 3);
    forall a | a in r.trace ensures a.DeleteService? || a.DeleteDeployment? || a.DeleteServiceAccount?
    {
      if a in svTrace { var k :| 0 <= k < |svTrace| && svTrace[k] == a; }
      else if a in dpTrace { var k :| 0 <= k < |dpTrace| && dpTrace[k] == a; }
    }
  }

  /** A completed purge deletes exactly the listed services and deployments, and
      exactly the listed accounts named after a listed deployment. */
  lemma PurgeDeletesAll(serviceItems: seq<Option<Service>>, deploymentItems: seq<Option<Deployment>>,
                        accounts: seq<string>)
    requires Present(serviceItems) && Present(deploymentItems)
    ensures var r := PurgeModules(serviceItems, deploymentItems, accounts);
      && r.failure.None?
      && (forall n :: DeleteService(n) in r.trace <==> n in NameSet(Values(serviceItems)))
      && (forall n :: DeleteDeployment(n) in r.trace <==> n in NameSet(Values(deploymentItems)))
      && (forall n :: DeleteServiceAccount(n) in r.trace <==>
            n in accounts && n in NameSet(Values(deploymentItems)))
  {
    var sv := NamesUntilNull(serviceItems);
    var svTrace := Services.DeleteServices(sv.0);
    var dp := NamesUntilNull(deploymentItems);
    var dpTrace := Deployments.DeleteDeployments(dp.0);
    var r := PurgeModules(serviceItems, deploymentItems, accounts);
    PurgeNames(serviceItems);
    PurgeNames(deploymentItems);
    forall n ensures DeleteService(n) in r.trace <==> n in sv.0
    {
      if n in sv.0 {
        var k :| 0 <= k < |sv.0| && sv.0[k] == n;
        assert svTrace[k] == DeleteService(n);
      }
      if DeleteService(n) in svTrace {
        var k :| 0 <= k < |svTrace| && svTrace[k] == DeleteService(n);
      }
    }
    forall n ensures DeleteDeployment(n) in r.trace <==> n in dp.0
    {
      if n in dp.0 {
        var k :| 0 <= k < |dp.0| && dp.0[k] == n;
        assert dpTrace[k] == DeleteDeployment(n);
      }
      if DeleteDeployment(n) in dpTrace {
        var k :| 0 <= k < |dpTrace| && dpTrace[k] == DeleteDeployment(n);
      }
    }
  }

  /** For a list whose every item is named, the names handed out are exactly the
      names of the listed objects. */
  lemma PurgeNames<S>(items: seq<Option<Resource<S>>>)
    requires Present(items)
    ensures forall n :: n in NamesUntilNull(items).0 <==> n in NameSet(Values(items))
  {
    var names := NamesUntilNull(items).0;
    forall n ensures n in names <==> n in NameSet(Values(items))
    {
      if n in names {
        var k :| 0 <= k < |names| && names[k] == n;
        assert NameOf(Values(items)[k]) == n;
      }
      if n in NameSet(Values(items)) {
        var k :| 0 <= k < |items| && NameOf(Values(items)[k]) == n;
        assert names[k] == n;
      }
    }
  }
}
