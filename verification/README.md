# Kubernetes edge deployment controller, modelled in Dafny

This project models the reconciliation core of the IoT Edge agent's Kubernetes
mode: `EdgeDeploymentController`. Given the modules of an edge deployment, the
controller turns each docker module into a desired Kubernetes deployment and an
optional service. It then reconciles both kinds of object against what the
cluster lists.

- **Deployments.** A deployment whose stored creation fingerprint matches is left
  alone. A changed deployment is replaced. A new one is created together with a
  service account. One that is no longer desired is deleted, and its account is
  pruned.
- **Services.** Services have no update call, so a changed service is deleted and
  created again.
- **Purge.** Deletes every listed service and deployment, then their accounts.

The model is purely functional. Every mutating client call becomes an `Action`
appended to a trace (`Kube.Run`). A call batch awaited with `Task.WhenAll` is a
run of consecutive actions of one *stage*:

| stage | call |
|---|---|
| 0 | service delete |
| 1 | service create |
| 2 | deployment delete |
| 3 | account delete |
| 4 | account create |
| 5 | deployment create |
| 6 | deployment replace |

"Awaited in this order" becomes `Kube.StageSorted`: the stage never decreases along
the trace. An exception thrown before a call is a `Results.Error` in `failure`, and
nothing after it is issued.

Modules, following the source's structure:

| module | file | models |
|---|---|---|
| `Results` | `results.dfy` | `Option`, `Result` and the three exceptions the core can raise (null reference, duplicate key, key not found) |
| `Constants` | `constants.dfy` | label, annotation and environment-variable names (stand-in values) |
| `Cluster` | `cluster.dfy` | what each client call does to the namespace's services, deployments and accounts |
| `Kube` | `kube.dfy` | object metadata, deployments, services, accounts, client actions, name helpers, `DeploymentName`, writing the fingerprint annotation |
| `Fingerprints` | `fingerprints.dfy` | `GetCurrentServiceConfig` / `GetCurrentDeploymentConfig` |
| `Environment` | `environment.dfy` | `CollectEnv` |
| `ServiceAccounts` | `accounts.dfy` | `CreateServiceAccount`, `PruneServiceAccounts` |
| `Services` | `services.dfy` | `ManageServices` |
| `Deployments` | `deployments.dfy` | `ManageDeployments` |
| `Controller` | `controller.dfy` | `DeployModulesAsync`, `PurgeModulesAsync` |

The code outside the controller is taken as parameters: the module builder
(`Controller.Builder`), the identities the identity manager hands out (a map from
module name to identity), and the results of the list calls. Sanitizing, JSON
serialization and `ImageEquals` are the uninterpreted function fields of
`Kube.Externals`.

One might expect every workload to have exactly one service account. The code
does not promise this: accounts are created only for new deployments, and account
pruning lists every account in the namespace without the deployment selector. The
model proves what the code does: `Deployments.ExecuteCreates`,
`Deployments.ExecuteDeletes` and `Controller.PurgeDeletesAll`.

What the calls do to the namespace is the `Cluster` module. A cluster state
holds services, deployments and account names. A delete removes the object of
that name at once, a create appends the object, and a replace swaps the object
of that name for the new one. Every call succeeds, including a create for a name
the cluster already holds. `Cluster.Apply` runs a whole trace. The effect and
idempotence lemmas are stated over the state a pass's own trace produces, so
they speak of a cluster that has finished deleting and refuses no create; the
two gaps are listed under "Left out".

All source paths below are under
`edge-agent/src/Microsoft.Azure.Devices.Edge.Agent.Kubernetes/`, written out in full.

## Model

| member | source | states |
|---|---|---|
| Kube.FindByName | edge-agent/src/Microsoft.Azure.Devices.Edge.Agent.Kubernetes/EdgeDeploymentController.cs:225 | `List.Find` by name finds an object exactly when one carries that name, and what it finds carries it |
| Kube.FindDistinct | edge-agent/src/Microsoft.Azure.Devices.Edge.Agent.Kubernetes/EdgeDeploymentController.cs:225 | among distinct names, finding an object's name yields that very object |
| Kube.RemovedNames | edge-agent/src/Microsoft.Azure.Devices.Edge.Agent.Kubernetes/EdgeDeploymentController.cs:147-148 | the `RemoveAll`/`Exists` filter keeps exactly the observed names that no desired object carries |
| Kube.WithFingerprintKeeps | edge-agent/src/Microsoft.Azure.Devices.Edge.Agent.Kubernetes/EdgeDeploymentController.cs:166-171 | writing the fingerprint stores it under the creation-string key, keeps every other annotation and adds no other key; a missing dictionary becomes one holding only the fingerprint |
| Fingerprints.CurrentConfig | edge-agent/src/Microsoft.Azure.Devices.Edge.Agent.Kubernetes/EdgeDeploymentController.cs:401-433 | the extraction only succeeds on a list whose items are all non-null and named |
| Fingerprints.CurrentConfigOk | edge-agent/src/Microsoft.Azure.Devices.Edge.Agent.Kubernetes/EdgeDeploymentController.cs:435-466 | the dictionary is built exactly when every item is present and named and no name repeats; its keys are exactly the listed names, and each maps to that item's fingerprint |
| Fingerprints.CurrentConfigSucceeds | edge-agent/src/Microsoft.Azure.Devices.Edge.Agent.Kubernetes/EdgeDeploymentController.cs:403-413 | `ToDictionary` throws exactly when some item is null or unnamed or two items share a name |
| Fingerprints.CurrentConfigContents | edge-agent/src/Microsoft.Azure.Devices.Edge.Agent.Kubernetes/EdgeDeploymentController.cs:437-465 | a built dictionary has exactly the listed names as keys, each mapped to its item's fingerprint |
| Fingerprints.CurrentConfigErrors | edge-agent/src/Microsoft.Azure.Devices.Edge.Agent.Kubernetes/EdgeDeploymentController.cs:403-419 | a null-reference failure means a null or unnamed item exists; any other failure is a duplicate key whose name two items carry |
| Fingerprints.ReadsWrittenFingerprint | edge-agent/src/Microsoft.Azure.Devices.Edge.Agent.Kubernetes/EdgeDeploymentController.cs:422-426 | a fingerprint written into an object's annotations is read back as its fingerprint, never replaced by a serialization |
| Fingerprints.FallbackIgnoresStatus | edge-agent/src/Microsoft.Azure.Devices.Edge.Agent.Kubernetes/EdgeDeploymentController.cs:428-431 | without a stored fingerprint, the fingerprint is the serialization with status dropped, so the observed status never affects it |
| Environment.SplitOnFirst | edge-agent/src/Microsoft.Azure.Devices.Edge.Agent.Kubernetes/EdgeDeploymentController.cs:353-354 | `Split('=', 2)` yields two parts exactly when the string holds `=`; then the first part has no `=` and the parts joined by `=` give the string back |
| Environment.SplitOnFirstJoin | edge-agent/src/Microsoft.Azure.Devices.Edge.Agent.Kubernetes/EdgeDeploymentController.cs:353-357 | splitting `name=value` with `=`-free name returns exactly (name, value), including an empty value |
| Environment.InjectedRoles | edge-agent/src/Microsoft.Azure.Devices.Edge.Agent.Kubernetes/EdgeDeploymentController.cs:361-396 | the generation id appears iff the credentials come from the identity service; each of the ten edgeAgent-only variables (mode, management URI, network id, proxy settings) iff the module is edgeAgent; the device host name iff edgeAgent or edgeHub; the gateway host name iff neither |
| Environment.GenerationIdRole | edge-agent/src/Microsoft.Azure.Devices.Edge.Agent.Kubernetes/EdgeDeploymentController.cs:365-368 | the module generation id is injected exactly for identity-service credentials, with the generation id they carry |
| Environment.ProxyRole | edge-agent/src/Microsoft.Azure.Devices.Edge.Agent.Kubernetes/EdgeDeploymentController.cs:374-386 | each of the ten edgeAgent-only variables (mode, management URI, network id and the proxy settings) is injected exactly into edgeAgent |
| Environment.HostNameRole | edge-agent/src/Microsoft.Azure.Devices.Edge.Agent.Kubernetes/EdgeDeploymentController.cs:388-396 | edgeAgent and edgeHub get the device host name and every other module the gateway host name, never both |
| ServiceAccounts.AccountFor | edge-agent/src/Microsoft.Azure.Devices.Edge.Agent.Kubernetes/EdgeDeploymentController.cs:304-321 | an account can be made exactly when the module label and the template's original-module-id annotation exist; otherwise the lookup throws |
| ServiceAccounts.CreateAccounts | edge-agent/src/Microsoft.Azure.Devices.Edge.Agent.Kubernetes/EdgeDeploymentController.cs:287-299 | accounts are requested in create-list order; the batch completes iff every account can be made; otherwise it stops at the first deployment that cannot, with that deployment's error |
| ServiceAccounts.PruneServiceAccounts | edge-agent/src/Microsoft.Azure.Devices.Edge.Agent.Kubernetes/EdgeDeploymentController.cs:323-338 | exactly the listed accounts whose name is on the prune list are deleted, and nothing else |
| ServiceAccounts.PruneNothing | edge-agent/src/Microsoft.Azure.Devices.Edge.Agent.Kubernetes/EdgeDeploymentController.cs:328 | an empty prune list deletes no account, whatever the namespace lists |
| Services.ChangesMembers | edge-agent/src/Microsoft.Azure.Devices.Edge.Agent.Kubernetes/EdgeDeploymentController.cs:152-189 | the desired-side pass deletes a name exactly for a changed desired service, and sends exactly the fingerprinted form of every new or changed one |
| Services.ServiceFates | edge-agent/src/Microsoft.Azure.Devices.Edge.Agent.Kubernetes/EdgeDeploymentController.cs:146-189 | a changed service is both deleted and created; a new one is only created; an undesired observed one is only deleted; an unchanged one is in neither list (distinct names); nothing else is planned |
| Services.UnchangedServiceNotPlanned | edge-agent/src/Microsoft.Azure.Devices.Edge.Agent.Kubernetes/EdgeDeploymentController.cs:157-164 | with distinct desired names, a service whose fingerprint matches is neither deleted nor created |
| Services.ManageServicesTrace | edge-agent/src/Microsoft.Azure.Devices.Edge.Agent.Kubernetes/EdgeDeploymentController.cs:142-208 | a failed extraction issues no call; otherwise exactly the planned deletes and creates are issued, every delete before any create |
| Deployments.FateOf | edge-agent/src/Microsoft.Azure.Devices.Edge.Agent.Kubernetes/EdgeDeploymentController.cs:223-235 | a desired deployment is new exactly when no observed deployment carries its name |
| Deployments.ForCreate | edge-agent/src/Microsoft.Azure.Devices.Edge.Agent.Kubernetes/EdgeDeploymentController.cs:254-262 | a created deployment keeps name, labels and spec, and its annotations are replaced by exactly the fingerprint of the desired deployment |
| Deployments.ForUpdate | edge-agent/src/Microsoft.Azure.Devices.Edge.Agent.Kubernetes/EdgeDeploymentController.cs:236-249 | a replaced deployment takes the observed resource version, stores the fingerprint of the desired deployment and keeps every other annotation it had |
| Deployments.Decide | edge-agent/src/Microsoft.Azure.Devices.Edge.Agent.Kubernetes/EdgeDeploymentController.cs:217-265 | the desired-side pass never removes anything, and everything it sends is named |
| Deployments.DecideMembers | edge-agent/src/Microsoft.Azure.Devices.Edge.Agent.Kubernetes/EdgeDeploymentController.cs:220-265 | the create list holds exactly what is sent for new deployments and the replace list exactly what is sent for changed ones |
| Deployments.PlanPartition | edge-agent/src/Microsoft.Azure.Devices.Edge.Agent.Kubernetes/EdgeDeploymentController.cs:214-265 | created names are desired and unobserved; replaced names are desired and observed; so no name is both created and replaced, and no removed name is either |
| Deployments.NewAndChangedPlanned | edge-agent/src/Microsoft.Azure.Devices.Edge.Agent.Kubernetes/EdgeDeploymentController.cs:236-263 | each new desired deployment is on the create list and each changed one, with the observed resource version, on the replace list |
| Deployments.UnchangedNotPlanned | edge-agent/src/Microsoft.Azure.Devices.Edge.Agent.Kubernetes/EdgeDeploymentController.cs:229-235 | with distinct desired names, an unchanged deployment is neither created nor replaced |
| Deployments.SuppressionRule | edge-agent/src/Microsoft.Azure.Devices.Edge.Agent.Kubernetes/EdgeDeploymentController.cs:223-235 | an observed desired deployment is never created again, and is left alone iff its fingerprint matches or it is edgeAgent's deployment with an equal image; the image exemption applies to no other name |
| Deployments.ExecuteOrder | edge-agent/src/Microsoft.Azure.Devices.Edge.Agent.Kubernetes/EdgeDeploymentController.cs:297-301 | calls are issued in the order deletes, prunes, account creates, deployment creates, replaces; a failing account creation ends the pass before any deployment create or replace |
| Deployments.ExecuteStages | edge-agent/src/Microsoft.Azure.Devices.Edge.Agent.Kubernetes/EdgeDeploymentController.cs:297-301 | the deployment stage issues no service call |
| Deployments.ExecuteDeletes | edge-agent/src/Microsoft.Azure.Devices.Edge.Agent.Kubernetes/EdgeDeploymentController.cs:267-298 | exactly the removed deployments are deleted, and exactly the listed accounts named after one of them |
| Deployments.ExecuteCreates | edge-agent/src/Microsoft.Azure.Devices.Edge.Agent.Kubernetes/EdgeDeploymentController.cs:279-301 | every created account belongs to a deployment on the create list; a completed pass creates exactly the create list and replaces exactly the replace list |
| Deployments.ManageDeploymentsTrace | edge-agent/src/Microsoft.Azure.Devices.Edge.Agent.Kubernetes/EdgeDeploymentController.cs:210-302 | a failed extraction issues no call; otherwise the staged calls of the plan are issued in order; every account created is the account of a deployment on the create list |
| Deployments.AccountCreatesIgnoreListing | edge-agent/src/Microsoft.Azure.Devices.Edge.Agent.Kubernetes/EdgeDeploymentController.cs:287-299 | the accounts a pass creates, and whether it fails there, do not depend on the accounts the namespace lists |
| Deployments.AllUnchangedDecidesNothing | edge-agent/src/Microsoft.Azure.Devices.Edge.Agent.Kubernetes/EdgeDeploymentController.cs:233-234 | when no desired deployment has changed, the create and replace lists are empty |
| Controller.BuildIgnoresOtherTypes | edge-agent/src/Microsoft.Azure.Devices.Edge.Agent.Kubernetes/EdgeDeploymentController.cs:94-98 | modules of any other type have no effect on the desired objects |
| Controller.BuildContents | edge-agent/src/Microsoft.Azure.Devices.Edge.Agent.Kubernetes/EdgeDeploymentController.cs:92-131 | when every docker module has an identity, the i-th desired deployment is the one built from the i-th docker module and its identity |
| Controller.DesiredDeploymentShape | edge-agent/src/Microsoft.Azure.Devices.Edge.Agent.Kubernetes/EdgeDeploymentController.cs:101-130 | a desired deployment is named after the sanitized module id, carries exactly the three default labels, runs one replica and selects its pods by its own labels |
| Controller.AccountNamedAfterDeployment | edge-agent/src/Microsoft.Azure.Devices.Edge.Agent.Kubernetes/EdgeDeploymentController.cs:304-321 | the account of a desired deployment is named after that deployment and carries its labels, so pruning by deployment name finds it |
| Controller.DeployModules | edge-agent/src/Microsoft.Azure.Devices.Edge.Agent.Kubernetes/EdgeDeploymentController.cs:81-140 | a pass returns a module set exactly when no call failed, and it is the full desired module list, docker or not |
| Controller.DeployOrder | edge-agent/src/Microsoft.Azure.Devices.Edge.Agent.Kubernetes/EdgeDeploymentController.cs:133-137 | every service call comes before any deployment call; a build failure issues nothing; a service failure issues no deployment call |
| Controller.ManageServicesCallsOnly | edge-agent/src/Microsoft.Azure.Devices.Edge.Agent.Kubernetes/EdgeDeploymentController.cs:192-207 | the service reconciler issues only service deletes and creates |
| Controller.DeploymentCallsLater | edge-agent/src/Microsoft.Azure.Devices.Edge.Agent.Kubernetes/EdgeDeploymentController.cs:271-301 | the deployment reconciler issues no service call |
| Controller.NamesUntilNull | edge-agent/src/Microsoft.Azure.Devices.Edge.Agent.Kubernetes/EdgeDeploymentController.cs:472-473 | the names handed to the client are those of the listed items up to the first item that cannot be named, where the pass fails with a null reference |
| Controller.PurgeOnlyDeletes | edge-agent/src/Microsoft.Azure.Devices.Edge.Agent.Kubernetes/EdgeDeploymentController.cs:468-489 | a purge only deletes, services then deployments then accounts, and completes iff every listed item can be named |
| Controller.PurgeDeletesAll | edge-agent/src/Microsoft.Azure.Devices.Edge.Agent.Kubernetes/EdgeDeploymentController.cs:468-489 | a completed purge deletes exactly the listed services and deployments, and exactly the listed accounts named after a listed deployment |
| Kube.DeploymentName | edge-agent/src/Microsoft.Azure.Devices.Edge.Agent.Kubernetes/EdgeDeploymentController.cs:79 | a deployment is named by sanitizing the module id; the contract is on `Controller.DesiredDeployment` and `Controller.DesiredDeploymentShape` |
| Cluster.ApplyAppend | edge-agent/src/Microsoft.Azure.Devices.Edge.Agent.Kubernetes/EdgeDeploymentController.cs:190-207 | issuing two batches one after the other has the effect of the first, then the second |
| Cluster.ApplyDeleteServices | edge-agent/src/Microsoft.Azure.Devices.Edge.Agent.Kubernetes/EdgeDeploymentController.cs:191-198 | deleting services by name, one call per name, removes exactly the services those names carry |
| Cluster.ApplyCreateServices | edge-agent/src/Microsoft.Azure.Devices.Edge.Agent.Kubernetes/EdgeDeploymentController.cs:200-207 | creating services, one call per service, appends exactly those services in order |
| Cluster.ApplyDeleteDeployments | edge-agent/src/Microsoft.Azure.Devices.Edge.Agent.Kubernetes/EdgeDeploymentController.cs:272-277 | deleting deployments by name removes exactly the deployments those names carry |
| Cluster.ApplyCreateDeployments | edge-agent/src/Microsoft.Azure.Devices.Edge.Agent.Kubernetes/EdgeDeploymentController.cs:279-285 | creating deployments appends exactly those deployments in order |
| Cluster.ApplyReplaces | edge-agent/src/Microsoft.Azure.Devices.Edge.Agent.Kubernetes/EdgeDeploymentController.cs:294-301 | replacing deployments with distinct names keeps every position and name; a replaced name holds the replacement, any other keeps its object |
| Cluster.ApplyAccountCalls | edge-agent/src/Microsoft.Azure.Devices.Edge.Agent.Kubernetes/EdgeDeploymentController.cs:297-299 | account deletes and creates leave services and deployments alone |
| Cluster.KeepNames | edge-agent/src/Microsoft.Azure.Devices.Edge.Agent.Kubernetes/EdgeDeploymentController.cs:191-198 | after deletes by name the cluster holds exactly the names not deleted, still distinct |
| Services.ManageServices | edge-agent/src/Microsoft.Azure.Devices.Edge.Agent.Kubernetes/EdgeDeploymentController.cs:142-208 | a failure issues no call, and only service deletes and creates are ever issued; the plan itself is stated by `Services.ManageServicesTrace` |
| Services.ChangesDistinct | edge-agent/src/Microsoft.Azure.Devices.Edge.Agent.Kubernetes/EdgeDeploymentController.cs:152-189 | with distinct desired names the services to create have distinct names, all of them desired |
| Services.ServicePassState | edge-agent/src/Microsoft.Azure.Devices.Edge.Agent.Kubernetes/EdgeDeploymentController.cs:190-207 | applying a successful pass to the cluster deletes the planned names, then appends the planned services; deployments and accounts are untouched |
| Services.KeptAndCreated | edge-agent/src/Microsoft.Azure.Devices.Edge.Agent.Kubernetes/EdgeDeploymentController.cs:146-189 | the services kept by the deletes and the ones created have distinct names, none in both, all desired |
| Services.ServicesAfterMatches | edge-agent/src/Microsoft.Azure.Devices.Edge.Agent.Kubernetes/EdgeDeploymentController.cs:146-207 | what the deletes keep plus what the creates add holds, one per name, exactly the service the pass means to leave under each desired name |
| Services.ServicesPassEffect | edge-agent/src/Microsoft.Azure.Devices.Edge.Agent.Kubernetes/EdgeDeploymentController.cs:142-208 | after a successful pass, computed from its calls, the cluster holds exactly the desired service names once each; an unchanged one is the observed object, any other the desired service with its fingerprint; deployments and accounts are untouched |
| Services.SecondServicePass | edge-agent/src/Microsoft.Azure.Devices.Edge.Agent.Kubernetes/EdgeDeploymentController.cs:155-164 | listing a cluster that agrees by name with what a pass left, a second pass with the same desired services issues no call |
| Services.ServicesIdempotent | edge-agent/src/Microsoft.Azure.Devices.Edge.Agent.Kubernetes/EdgeDeploymentController.cs:142-208 | list the cluster a successful pass leaves, as computed from its calls, and a second pass with the same desired services issues no call |
| Deployments.ManageDeployments | edge-agent/src/Microsoft.Azure.Devices.Edge.Agent.Kubernetes/EdgeDeploymentController.cs:210-302 | the plan and the staged calls are stated by `Deployments.ManageDeploymentsTrace`, the failure case by `Deployments.FailedPassSendsNothing` |
| Deployments.Execute | edge-agent/src/Microsoft.Azure.Devices.Edge.Agent.Kubernetes/EdgeDeploymentController.cs:267-301 | the order of the staged calls is stated by `Deployments.ExecuteOrder`, their contents by `Deployments.ExecuteDeletes` and `Deployments.ExecuteCreates` |
| Deployments.DecideDistinct | edge-agent/src/Microsoft.Azure.Devices.Edge.Agent.Kubernetes/EdgeDeploymentController.cs:218-265 | with distinct desired names the create list and the replace list each have distinct names |
| Deployments.ExecuteState | edge-agent/src/Microsoft.Azure.Devices.Edge.Agent.Kubernetes/EdgeDeploymentController.cs:267-301 | applying a plan whose accounts succeed leaves the kept deployments followed by the created ones, services untouched, and then applies the replaces |
| Deployments.KeptAndCreatedDeployments | edge-agent/src/Microsoft.Azure.Devices.Edge.Agent.Kubernetes/EdgeDeploymentController.cs:214-265 | the deployments kept by the deletes and the ones created have distinct names, none in both, and together carry exactly the desired names |
| Deployments.DeploymentsAfterMatches | edge-agent/src/Microsoft.Azure.Devices.Edge.Agent.Kubernetes/EdgeDeploymentController.cs:214-301 | after the deletes, creates and replaces the cluster holds, one per name, exactly the deployment the pass means to leave under each desired name |
| Deployments.DeploymentEntryPresent | edge-agent/src/Microsoft.Azure.Devices.Edge.Agent.Kubernetes/EdgeDeploymentController.cs:223-292 | the deployment meant for each desired name is in the cluster after the pass: unchanged and new ones where the deletes and creates put them, a changed one in its namesake's place |
| Deployments.DeploymentsPassMatches | edge-agent/src/Microsoft.Azure.Devices.Edge.Agent.Kubernetes/EdgeDeploymentController.cs:210-302 | a pass whose accounts succeed leaves services alone and deployments agreeing by name with what the pass means to leave |
| Deployments.FailedPassSendsNothing | edge-agent/src/Microsoft.Azure.Devices.Edge.Agent.Kubernetes/EdgeDeploymentController.cs:296-299 | a pass that fails has created and replaced no deployment |
| Deployments.DeploymentsPassEffect | edge-agent/src/Microsoft.Azure.Devices.Edge.Agent.Kubernetes/EdgeDeploymentController.cs:210-302 | after a completed pass, computed from its calls, the cluster holds exactly the desired deployment names once each; an unchanged one is the observed object, a new one as created, a changed one as replaced; services untouched |
| Deployments.SecondDeploymentPass | edge-agent/src/Microsoft.Azure.Devices.Edge.Agent.Kubernetes/EdgeDeploymentController.cs:223-235 | listing a cluster that agrees by name with what a pass left, a second pass with the same desired deployments issues no call, whatever accounts exist |
| Deployments.DeploymentsIdempotent | edge-agent/src/Microsoft.Azure.Devices.Edge.Agent.Kubernetes/EdgeDeploymentController.cs:210-302 | list the cluster a completed pass leaves, as computed from its calls, and a second pass with the same desired deployments and the accounts then present issues no call |
| Environment.HostEnv | edge-agent/src/Microsoft.Azure.Devices.Edge.Agent.Kubernetes/EdgeDeploymentController.cs:349-359 | parsing the create-option entries yields at most one variable per entry; the rest is stated by `Environment.HostEnvMembers`, `Environment.HostEnvAppend` and `Environment.HostEnvCount` |
| Environment.HostEnvOne | edge-agent/src/Microsoft.Azure.Devices.Edge.Agent.Kubernetes/EdgeDeploymentController.cs:351-358 | one entry without `=` yields nothing; one with `=` yields exactly the variable named by the part before the first `=` with the rest as value |
| Environment.HostEnvAppend | edge-agent/src/Microsoft.Azure.Devices.Edge.Agent.Kubernetes/EdgeDeploymentController.cs:349-359 | the entries are parsed one by one: the variables of two lists of entries are those of the first followed by those of the second |
| Environment.HostEnvCount | edge-agent/src/Microsoft.Azure.Devices.Edge.Agent.Kubernetes/EdgeDeploymentController.cs:349-359 | the create options yield exactly as many variables as there are entries holding `=` |
| Environment.HostEnvMembers | edge-agent/src/Microsoft.Azure.Devices.Edge.Agent.Kubernetes/EdgeDeploymentController.cs:349-359 | a create-option variable appears exactly when some entry spells `name=value` with an `=`-free name |
| Environment.OwnEnv | edge-agent/src/Microsoft.Azure.Devices.Edge.Agent.Kubernetes/EdgeDeploymentController.cs:343-347 | the module's own variables are copied in order; a null value throws a null reference |
| Environment.CollectEnv | edge-agent/src/Microsoft.Azure.Devices.Edge.Agent.Kubernetes/EdgeDeploymentController.cs:340-399 | collecting the environment fails, with a null reference, exactly when a module variable has a null value or a create-option entry is null |
| Environment.CollectEnvLayout | edge-agent/src/Microsoft.Azure.Devices.Edge.Agent.Kubernetes/EdgeDeploymentController.cs:340-399 | the environment is the module's own variables unchanged, then exactly the variables parsed from the create options (one per entry holding `=`, in order), then the injected ones; nothing is deduplicated; it ends with the device host name for edgeAgent/edgeHub and the gateway host name otherwise |
| Controller.DockerModules | edge-agent/src/Microsoft.Azure.Devices.Edge.Agent.Kubernetes/EdgeDeploymentController.cs:94-98 | the loop keeps exactly the modules of type docker |
| Controller.DockerModulesAppend | edge-agent/src/Microsoft.Azure.Devices.Edge.Agent.Kubernetes/EdgeDeploymentController.cs:94-98 | the docker modules of two lists are those of the first followed by those of the second |
| Controller.DockerModulesOne | edge-agent/src/Microsoft.Azure.Devices.Edge.Agent.Kubernetes/EdgeDeploymentController.cs:94-98 | a single module is kept exactly when it is of type docker |
| Controller.DesiredDeployment | edge-agent/src/Microsoft.Azure.Devices.Edge.Agent.Kubernetes/EdgeDeploymentController.cs:101-130 | a desired deployment is named after the sanitized module id; its labels, replicas and selector are stated by `Controller.DesiredDeploymentShape` |
| Controller.BuildDesired | edge-agent/src/Microsoft.Azure.Devices.Edge.Agent.Kubernetes/EdgeDeploymentController.cs:92-131 | building can fail only with a missing identity key or a null reference from the environment |
| Controller.BuildShape | edge-agent/src/Microsoft.Azure.Devices.Edge.Agent.Kubernetes/EdgeDeploymentController.cs:92-131 | building succeeds iff every docker module has an identity and a complete environment, and a failure names a module lacking one; on success the i-th deployment is built from the i-th docker module, and the services are exactly the builder's services for the docker modules, in order, skipping modules without one |
| Controller.BuildSucceeds | edge-agent/src/Microsoft.Azure.Devices.Edge.Agent.Kubernetes/EdgeDeploymentController.cs:92-112 | the pass throws before any call exactly when some docker module has no identity or a null in its environment, and the error matches that module |
| Controller.BuildServices | edge-agent/src/Microsoft.Azure.Devices.Edge.Agent.Kubernetes/EdgeDeploymentController.cs:118-119 | a successful build holds exactly the services the builder made for the docker modules, in module order |
| Controller.DeployIdempotent | edge-agent/src/Microsoft.Azure.Devices.Edge.Agent.Kubernetes/EdgeDeploymentController.cs:81-140 | run a pass with distinct desired names against what a cluster lists; if it returns the module set, apply its calls to the cluster: a second pass over the result issues no call and returns the module set again |
| Controller.PurgeModules | edge-agent/src/Microsoft.Azure.Devices.Edge.Agent.Kubernetes/EdgeDeploymentController.cs:468-489 | a purge issues only deletes; its order and contents are stated by `Controller.PurgeOnlyDeletes` and `Controller.PurgeDeletesAll` |

## Left out

- Client I/O: list, create, replace and delete calls are actions in a trace. List results are parameters. An API error from the cluster is not modelled: every issued call is taken to succeed.
- Concurrency: a batch awaited with `Task.WhenAll` is modelled as its calls in `Select` order. Only the order between batches is promised.
- JSON serialization, `KubeUtils.SanitizeK8sValue` / `SanitizeLabelValue` and `V1DeploymentEx.ImageEquals` are uninterpreted functions. Their code is not part of this model.
- `KubernetesModelBuilder` is a function parameter (`Controller.Builder`), and cannot throw. Its code is not part of this model.
- `ModuleIdentityLifecycleManager` is a map parameter. `ModuleSet.Create` is not modelled: the returned module set is the input list, and its duplicate-name check is left out.
- Logging and `Events` are left out. `Logger.GetLogLevel()` is a `Settings` field.
- Namespace, label selector, proxy settings and the default service type are opaque settings. Constant names are stand-in strings whose distinctness is all that matters.
- An unnamed desired object reaching `ContainsKey` raises `ArgumentNullException` in .NET. The model folds it into the null-reference error; both end the pass before any call.
- Controller.NamesUntilNull: a listed item with metadata but a null name would be passed to the client as a null name. The model stops there with a null reference instead.
- ServiceAccounts.PruneServiceAccounts: the account listing is a list of names. A null account or account name is not modelled.
- Deployments.FateOf: `Find` at line 225 cannot miss, since the dictionary and the list hold the same names. So the null `current` the source could dereference is not modelled.
- One service account per workload is not promised by the code, and not claimed: accounts exist only for deployments created by the controller, and pruning does not use the deployment selector.
- The list calls use the device label selector. The model lists every object in the cluster state, so a cluster with no foreign objects stands for what the selector returns.
- Cluster.Step: a create for a name the cluster already holds is refused by the API server (409 conflict); the model appends it, since every call is taken to succeed. A pass can issue such a create. The account step never consults the account listing (lines 287-299, `Deployments.AccountCreatesIgnoreListing`), so an account left behind by a deleted deployment is requested again when a deployment of that name is new. Desired names that repeat are also sent twice. In the source that pass throws at line 299, before any deployment create, and every later pass plans the same account create and fails the same way. The model calls such a pass complete, and `Deployments.DeploymentsIdempotent` and `Controller.DeployIdempotent` do not cover this non-converging case.
- Cluster.Step: deployments are deleted with foreground propagation (lines 276 and 480-483). The deployment stays listed, with a deletion timestamp, until its pods are gone, and a pass in that window lists it, deletes it and prunes its account again. `DeleteDeployment` does not record the policy and the model removes the deployment at once, so `Deployments.DeploymentsIdempotent` and `Controller.DeployIdempotent` hold only for a cluster that has finished deleting.
- Environment.CollectEnv: a null `Env` dictionary on the module, or a null key in it, is not modelled. The module's variables are a list of key and optional value. A null value and a null create-option entry are modelled as the null reference they raise.
