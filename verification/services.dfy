/** Service reconciliation (ManageServices, lines 142-208). Services have no update
    path: a changed service is deleted and created again, and every delete is issued
    before any create. */
module Services {
  import opened Results
  import opened Kube
  import opened Fingerprints
  import opened Cluster

  /** How a desired service compares with the fingerprint the cluster holds for its
      name: absent, equal to the desired serialization, or different. */
  function FateOf(ext: Externals, fps: map<string, string>, s: Service): Fate
    requires Named(s)
  {
    var name := NameOf(s);
    if name !in fps then New
    else if fps[name] == ext.serializeService(s) then Unchanged
    else Changed
  }

  /** The desired service as sent to the cluster: the serialization of the service
      as built, written into its annotations under the creation-string key. */
  function Outgoing(ext: Externals, s: Service): (r: Service)
    requires Named(s)
    ensures Named(r) && NameOf(r) == NameOf(s)
  {
    var meta := s.metadata.value;
    s.(metadata := Some(meta.(annotations := Some(WithFingerprint(meta.annotations, ext.serializeService(s))))))
  }

  datatype ServicePlan = ServicePlan(removed: seq<string>, created: seq<Service>)

  /** The `ForEach` over the desired services (lines 152-189): a changed service is
      added to both lists, a new one to the create list only. */
  function Changes(ext: Externals, fps: map<string, string>, desired: seq<Service>): ServicePlan
    requires AllNamed(desired)
    decreases |desired|
  {
    if |desired| == 0 then ServicePlan([], [])
    else
      var rest := Changes(ext, fps, desired[1..]);
      var s := desired[0];
      match FateOf(ext, fps, s)
      case Unchanged => rest
      case Changed => ServicePlan([NameOf(s)] + rest.removed, [Outgoing(ext, s)] + rest.created)
      case New => ServicePlan(rest.removed, [Outgoing(ext, s)] + rest.created)
  }

  /** The delete list is the observed services no desired service names, then the
      changed ones; the create list is every new or changed desired service. */
  function PlanServices(ext: Externals, fps: map<string, string>, observed: seq<Service>, desired: seq<Service>)
    : ServicePlan
    requires AllNamed(observed) && AllNamed(desired)
  {
    var c := Changes(ext, fps, desired);
    ServicePlan(RemovedNames(observed, desired) + c.removed, c.created)
  }

  function DeleteServices(names: seq<string>): (r: seq<Action>)
    ensures |r| == |names| && InStage(r, 0)
    ensures forall i | 0 <= i < |names| :: r[i] == DeleteService(names[i])
    ensures forall a :: a in r <==> a.DeleteService? && a.name in names
  {
    seq(|names|, i requires 0 <= i < |names| => DeleteService(names[i]))
  }

  function CreateServices(ss: seq<Service>): (r: seq<Action>)
    ensures |r| == |ss| && InStage(r, 1)
    ensures forall i | 0 <= i < |ss| :: r[i] == CreateService(ss[i])
    ensures forall a :: a in r <==> a.CreateService? && a.service in ss
  {
    seq(|ss|, i requires 0 <= i < |ss| => CreateService(ss[i]))
  }

  /** The first half of ManageServices: extract the observed fingerprints (which
      may throw), reject a desired service without a name (the name lookups of
      lines 148 and 157 throw), then plan. No call has been issued yet. */
  function ServicePlanFor(ext: Externals, items: seq<Option<Service>>, desired: seq<Service>): Result<ServicePlan>
  {
    match CurrentConfig(items, ext.serializeService)
    case Err(e) => Err(e)
    case Ok(fps) =>
      if !AllNamed(desired) then Err(NullReference)
      else Ok(PlanServices(ext, fps, Values(items), desired))
  }

  /** ManageServices: every delete, then every create. */
  function ManageServices(ext: Externals, items: seq<Option<Service>>, desired: seq<Service>): (r: Run)
    ensures r.failure.Some? ==> r.trace == []
    ensures forall a | a in r.trace :: a.DeleteService? || a.CreateService?
  {
    match ServicePlanFor(ext, items, desired)
    case Err(e) => Run([], Some(e))
    case Ok(plan) => Run(DeleteServices(plan.removed) + CreateServices(plan.created), None)
  }

  /** Some desired service carrying `n` has changed. */
  ghost predicate ChangedName(ext: Externals, fps: map<string, string>, desired: seq<Service>, n: string)
    requires AllNamed(desired)
  {
    exists i | 0 <= i < |desired| :: NameOf(desired[i]) == n && FateOf(ext, fps, desired[i]) == Changed
  }

  /** `x` is the outgoing form of some new or changed desired service. */
  ghost predicate SentService(ext: Externals, fps: map<string, string>, desired: seq<Service>, x: Service)
    requires AllNamed(desired)
  {
    exists i | 0 <= i < |desired| :: FateOf(ext, fps, desired[i]) != Unchanged && x == Outgoing(ext, desired[i])
  }

  lemma ChangedNameCons(ext: Externals, fps: map<string, string>, desired: seq<Service>, n: string)
    requires |desired| > 0 && AllNamed(desired)
    ensures ChangedName(ext, fps, desired, n) <==>
      (NameOf(desired[0]) == n && FateOf(ext, fps, desired[0]) == Changed) || ChangedName(ext, fps, desired[1..], n)
  {
    var tail := desired[1..];
    if ChangedName(ext, fps, desired, n) {
      var i :| 0 <= i < |desired| && NameOf(desired[i]) == n && FateOf(ext, fps, desired[i]) == Changed;
      if i > 0 { assert tail[i - 1] == desired[i]; }
    }
    if ChangedName(ext, fps, tail, n) {
      var i :| 0 <= i < |tail| && NameOf(tail[i]) == n && FateOf(ext, fps, tail[i]) == Changed;
      assert desired[i + 1] == tail[i];
    }
  }

  lemma SentServiceCons(ext: Externals, fps: map<string, string>, desired: seq<Service>, x: Service)
    requires |desired| > 0 && AllNamed(desired)
    ensures SentService(ext, fps, desired, x) <==>
      (FateOf(ext, fps, desired[0]) != Unchanged && x == Outgoing(ext, desired[0])) || SentService(ext, fps, desired[1..], x)
  {
    var tail := desired[1..];
    if SentService(ext, fps, desired, x) {
      var i :| 0 <= i < |desired| && FateOf(ext, fps, desired[i]) != Unchanged && x == Outgoing(ext, desired[i]);
      if i > 0 { assert tail[i - 1] == desired[i]; }
    }
    if SentService(ext, fps, tail, x) {
      var i :| 0 <= i < |tail| && FateOf(ext, fps, tail[i]) != Unchanged && x == Outgoing(ext, tail[i]);
      assert desired[i + 1] == tail[i];
    }
  }

  /** What the desired-side lists hold: a name is deleted for each changed desired
      service, and a service is created for each new or changed one. */
  lemma {:induction false} ChangesMembers(ext: Externals, fps: map<string, string>, desired: seq<Service>)
    requires AllNamed(desired)
    ensures var c := Changes(ext, fps, desired);
      && (forall n :: n in c.removed <==> ChangedName(ext, fps, desired, n))
      && (forall x :: x in c.created <==> SentService(ext, fps, desired, x))
    decreases |desired|
  {
    if |desired| > 0 {
      ChangesMembers(ext, fps, desired[1..]);
      forall n { ChangedNameCons(ext, fps, desired, n); }
      forall x { SentServiceCons(ext, fps, desired, x); }
    }
  }

  /** Every created service is the outgoing form of a desired service with its name. */
  lemma CreatedFromDesired(ext: Externals, fps: map<string, string>, desired: seq<Service>)
    requires AllNamed(desired)
    ensures var c := Changes(ext, fps, desired);
      && AllNamed(c.created)
      && forall j | 0 <= j < |c.created| :: exists i | 0 <= i < |desired| ::
           FateOf(ext, fps, desired[i]) != Unchanged && NameOf(c.created[j]) == NameOf(desired[i])
  {
    var c := Changes(ext, fps, desired);
    ChangesMembers(ext, fps, desired);
    forall j | 0 <= j < |c.created|
      ensures Named(c.created[j]) && exists i | 0 <= i < |desired| ::
           FateOf(ext, fps, desired[i]) != Unchanged && NameOf(c.created[j]) == NameOf(desired[i])
    {
      assert SentService(ext, fps, desired, c.created[j]);
      var i :| 0 <= i < |desired| && FateOf(ext, fps, desired[i]) != Unchanged && c.created[j] == Outgoing(ext, desired[i]);
    }
  }

  /** Where each name ends up. A changed service is both deleted and created; a new
      one is only created; an observed service no desired one names is only deleted;
      and, when desired names are distinct, an unchanged service is in neither list.
      Nothing else is deleted or created. */
  lemma ServiceFates(ext: Externals, fps: map<string, string>, observed: seq<Service>, desired: seq<Service>)
    requires AllNamed(observed) && AllNamed(desired) && fps.Keys == NameSet(observed)
    ensures var p := PlanServices(ext, fps, observed, desired);
      && AllNamed(p.created)
      && (forall n :: n in p.removed <==>
            (n in NameSet(observed) && n !in NameSet(desired)) || ChangedName(ext, fps, desired, n))
      && (forall x :: x in p.created <==> SentService(ext, fps, desired, x))
      && (forall i | 0 <= i < |desired| :: FateOf(ext, fps, desired[i]) == Changed ==>
            NameOf(desired[i]) in p.removed && NameOf(desired[i]) in NameSet(p.created))
      && (forall i | 0 <= i < |desired| :: FateOf(ext, fps, desired[i]) == New ==>
            NameOf(desired[i]) !in p.removed && NameOf(desired[i]) in NameSet(p.created))
      && (forall n | n in NameSet(observed) && n !in NameSet(desired) ::
            n in p.removed && n !in NameSet(p.created))
      && (DistinctNames(desired) ==> forall i | 0 <= i < |desired| :: FateOf(ext, fps, desired[i]) == Unchanged ==>
            NameOf(desired[i]) !in p.removed && NameOf(desired[i]) !in NameSet(p.created))
  {
    var c := Changes(ext, fps, desired);
    var p := PlanServices(ext, fps, observed, desired);
    ChangesMembers(ext, fps, desired);
    CreatedFromDesired(ext, fps, desired);
    forall i | 0 <= i < |desired| && FateOf(ext, fps, desired[i]) == Changed
      ensures NameOf(desired[i]) in p.removed && NameOf(desired[i]) in NameSet(p.created)
    {
      assert ChangedName(ext, fps, desired, NameOf(desired[i]));
      assert SentService(ext, fps, desired, Outgoing(ext, desired[i]));
      var j :| 0 <= j < |c.created| && c.created[j] == Outgoing(ext, desired[i]);
      assert NameOf(c.created[j]) == NameOf(desired[i]);
    }
    forall i | 0 <= i < |desired| && FateOf(ext, fps, desired[i]) == New
      ensures NameOf(desired[i]) !in p.removed && NameOf(desired[i]) in NameSet(p.created)
    {
      var n := NameOf(desired[i]);
      if ChangedName(ext, fps, desired, n) {
        var k :| 0 <= k < |desired| && NameOf(desired[k]) == n && FateOf(ext, fps, desired[k]) == Changed;
      }
      assert SentService(ext, fps, desired, Outgoing(ext, desired[i]));
      var j :| 0 <= j < |c.created| && c.created[j] == Outgoing(ext, desired[i]);
      assert NameOf(c.created[j]) == n;
    }
    forall n | n in NameSet(observed) && n !in NameSet(desired)
      ensures n in p.removed && n !in NameSet(p.created)
    {
    }
    if DistinctNames(desired) {
      UnchangedServiceNotPlanned(ext, fps, observed, desired);
    }
  }

  /** With distinct desired names, an unchanged service is neither deleted nor
      created. */
  lemma UnchangedServiceNotPlanned(ext: Externals, fps: map<string, string>, observed: seq<Service>,
                                   desired: seq<Service>)
    requires AllNamed(observed) && AllNamed(desired) && DistinctNames(desired)
    ensures var p := PlanServices(ext, fps, observed, desired);
      && AllNamed(p.created)
      && forall i | 0 <= i < |desired| :: FateOf(ext, fps, desired[i]) == Unchanged ==>
           NameOf(desired[i]) !in p.removed && NameOf(desired[i]) !in NameSet(p.created)
  {
    var c := Changes(ext, fps, desired);
    var p := PlanServices(ext, fps, observed, desired);
    ChangesMembers(ext, fps, desired);
    CreatedFromDesired(ext, fps, desired);
    forall i | 0 <= i < |desired| && FateOf(ext, fps, desired[i]) == Unchanged
      ensures NameOf(desired[i]) !in p.removed && NameOf(desired[i]) !in NameSet(p.created)
    {
      var n := NameOf(desired[i]);
      assert n in NameSet(desired);
      forall j | 0 <= j < |c.created| ensures NameOf(c.created[j]) != n
      {
        assert SentService(ext, fps, desired, c.created[j]);
        var k :| 0 <= k < |desired| && FateOf(ext, fps, desired[k]) != Unchanged
          && c.created[j] == Outgoing(ext, desired[k]);
        assert k != i;
      }
    }
  }


  /** ManageServices fails, issuing nothing, exactly when the plan cannot be made;
      otherwise it deletes exactly the planned names and creates exactly the planned
      services, with every delete issued before any create. */
  lemma ManageServicesTrace(ext: Externals, items: seq<Option<Service>>, desired: seq<Service>)
    ensures var r := ManageServices(ext, items, desired);
      var p := ServicePlanFor(ext, items, desired);
      && StageSorted(r.trace)
      && (p.Err? ==> r == Run([], Some(p.error)))
      && (p.Ok? ==>
            && r.failure.None?
            && (forall n :: DeleteService(n) in r.trace <==> n in p.value.removed)
            && (forall x :: CreateService(x) in r.trace <==> x in p.value.created)
            && |r.trace| == |p.value.removed| + |p.value.created|)
  {
    var p := ServicePlanFor(ext, items, desired);
    if p.Ok? {
      StageSortedAppend(DeleteServices(p.value.removed), CreateServices(p.value.created), 1);
    }
  }

  /** The services the cluster holds after a pass whose calls all succeeded: under
      each desired name, the observed service when it was unchanged and the service
      sent otherwise; the deleted, undesired names hold nothing. */
  function ServicesAfter(ext: Externals, fps: map<string, string>, observed: seq<Service>, desired: seq<Service>)
    : (after: seq<Service>)
    requires AllNamed(observed) && AllNamed(desired)
    ensures |after| == |desired| && AllNamed(after)
    ensures forall i | 0 <= i < |desired| :: NameOf(after[i]) == NameOf(desired[i])
  {
    seq(|desired|, i requires 0 <= i < |desired| =>
      var kept := FindByName(observed, NameOf(desired[i]));
      if FateOf(ext, fps, desired[i]) == Unchanged && kept.Some? then kept.value
      else Outgoing(ext, desired[i]))
  }

  /** With every desired service unchanged, the desired side plans nothing. */
  lemma {:induction false} AllUnchangedPlansNothing(ext: Externals, fps: map<string, string>, desired: seq<Service>)
    requires AllNamed(desired)
    requires forall i | 0 <= i < |desired| :: FateOf(ext, fps, desired[i]) == Unchanged
    ensures Changes(ext, fps, desired) == ServicePlan([], [])
    decreases |desired|
  {
    if |desired| > 0 {
      var tail := desired[1..];
      forall i | 0 <= i < |tail| ensures FateOf(ext, fps, tail[i]) == Unchanged
      {
        assert tail[i] == desired[i + 1];
      }
      AllUnchangedPlansNothing(ext, fps, tail);
    }
  }

  /** The cluster after a pass holds exactly the desired names, each once. */
  lemma AfterNames(ext: Externals, fps: map<string, string>, observed: seq<Service>, desired: seq<Service>)
    requires AllNamed(observed) && AllNamed(desired) && DistinctNames(desired)
    ensures var after := ServicesAfter(ext, fps, observed, desired);
      && DistinctNames(after)
      && NameSet(after) == NameSet(desired)
      && Values(Listed(after)) == after
  {
    var after := ServicesAfter(ext, fps, observed, desired);
    forall i, j | 0 <= i < j < |after| ensures NameOf(after[i]) != NameOf(after[j])
    {
      assert NameOf(desired[i]) != NameOf(desired[j]);
    }
    forall n | n in NameSet(desired) ensures n in NameSet(after)
    {
      var i :| 0 <= i < |desired| && NameOf(desired[i]) == n;
      assert NameOf(after[i]) == n;
    }
    forall n | n in NameSet(after) ensures n in NameSet(desired)
    {
      var i :| 0 <= i < |after| && NameOf(after[i]) == n;
      assert NameOf(desired[i]) == n;
    }
  }

  /** Read back from the cluster a pass left behind, every desired service is
      unchanged: the kept ones still carry their fingerprint, and the sent ones
      carry the serialization of the desired service they were made from. */
  lemma AfterIsUnchanged(ext: Externals, items: seq<Option<Service>>, desired: seq<Service>)
    requires CurrentConfig(items, ext.serializeService).Ok?
    requires AllNamed(desired) && DistinctNames(desired)
    ensures var fps := CurrentConfig(items, ext.serializeService).value;
      var after := ServicesAfter(ext, fps, Values(items), desired);
      var again := CurrentConfig(Listed(after), ext.serializeService);
      && again.Ok?
      && forall i | 0 <= i < |desired| :: FateOf(ext, again.value, desired[i]) == Unchanged
  {
    var ser := ext.serializeService;
    CurrentConfigOk(items, ser);
    var fps := CurrentConfig(items, ser).value;
    var observed := Values(items);
    var after := ServicesAfter(ext, fps, observed, desired);
    var listed := Listed(after);
    AfterNames(ext, fps, observed, desired);
    CurrentConfigOk(listed, ser);
    var again := CurrentConfig(listed, ser).value;
    forall i | 0 <= i < |desired| ensures FateOf(ext, again, desired[i]) == Unchanged
    {
      var n := NameOf(desired[i]);
      assert again[n] == Fingerprint(after[i], ser) by {
        assert NameOf(listed[i].value) == n;
      }
      var kept := FindByName(observed, n);
      if FateOf(ext, fps, desired[i]) == Unchanged && kept.Some? {
        var k :| 0 <= k < |observed| && NameOf(observed[k]) == n;
        FindDistinct(observed, k);
        assert NameOf(items[k].value) == n;
      } else {
        ReadsWrittenFingerprint(desired[i], ser(desired[i]), ser);
      }
    }
  }

  /** With distinct desired names, the created services have distinct names, all
      of them desired. */
  lemma {:induction false} ChangesDistinct(ext: Externals, fps: map<string, string>, desired: seq<Service>)
    requires AllNamed(desired) && DistinctNames(desired)
    ensures var c := Changes(ext, fps, desired);
      && AllNamed(c.created) && DistinctNames(c.created)
      && forall n | n in NameSet(c.created) :: n in NameSet(desired)
    decreases |desired|
  {
    if |desired| > 0 {
      var tail := desired[1..];
      DistinctTail(desired);
      ChangesDistinct(ext, fps, tail);
      NameSetCons(desired);
      var rest := Changes(ext, fps, tail).created;
      if FateOf(ext, fps, desired[0]) != Unchanged {
        var x := Outgoing(ext, desired[0]);
        DistinctCons(x, rest);
        NameSetCons([x] + rest);
        assert ([x] + rest)[1..] == rest;
      }
    }
  }

  /** The cluster after a successful ManageServices: the planned names are
      deleted, then the planned services are added. Deployments and accounts are
      untouched. */
  lemma ServicePassState(ext: Externals, c: State, items: seq<Option<Service>>, desired: seq<Service>)
    requires CurrentConfig(items, ext.serializeService).Ok?
    requires AllNamed(desired) && c.services == Values(items)
    ensures var p := ServicePlanFor(ext, items, desired);
      && p.Ok?
      && Apply(c, ManageServices(ext, items, desired).trace)
           == c.(services := Keep(c.services, p.value.removed) + p.value.created)
  {
    var p := ServicePlanFor(ext, items, desired).value;
    var del := DeleteServices(p.removed);
    var cr := CreateServices(p.created);
    ApplyAppend(c, del, cr);
    ApplyDeleteServices(c, del, p.removed);
    var c1 := c.(services := Keep(c.services, p.removed));
    ApplyCreateServices(c1, cr, p.created);
  }

  /** The services the deletes keep and the ones the creates add have distinct
      names, no name in both, every one of them desired. */
  lemma KeptAndCreated(ext: Externals, fps: map<string, string>, observed: seq<Service>, desired: seq<Service>)
    requires AllNamed(observed) && DistinctNames(observed) && fps.Keys == NameSet(observed)
    requires AllNamed(desired) && DistinctNames(desired)
    ensures var p := PlanServices(ext, fps, observed, desired);
      var kept := Keep(observed, p.removed);
      && AllNamed(kept) && DistinctNames(kept) && AllNamed(p.created) && DistinctNames(p.created)
      && NameSet(kept) !! NameSet(p.created)
      && NameSet(kept) <= NameSet(desired) && NameSet(p.created) <= NameSet(desired)
  {
    var p := PlanServices(ext, fps, observed, desired);
    var kept := Keep(observed, p.removed);
    ChangesMembers(ext, fps, desired);
    CreatedFromDesired(ext, fps, desired);
    ChangesDistinct(ext, fps, desired);
    KeepNames(observed, p.removed);
    forall n | n in NameSet(p.created) ensures n !in NameSet(kept)
    {
      var j :| 0 <= j < |p.created| && NameOf(p.created[j]) == n;
      var i :| 0 <= i < |desired| && FateOf(ext, fps, desired[i]) != Unchanged && NameOf(p.created[j]) == NameOf(desired[i]);
      if FateOf(ext, fps, desired[i]) == Changed {
        assert ChangedName(ext, fps, desired, n);
      }
    }
  }

  /** What the deletes keep and the creates add together hold, one per name,
      exactly the services `ServicesAfter` names. */
  lemma ServicesAfterMatches(ext: Externals, fps: map<string, string>, observed: seq<Service>, desired: seq<Service>)
    requires AllNamed(observed) && DistinctNames(observed) && fps.Keys == NameSet(observed)
    requires AllNamed(desired) && DistinctNames(desired)
    ensures var p := PlanServices(ext, fps, observed, desired);
      AllNamed(p.created) &&
      SameByName(Keep(observed, p.removed) + p.created, ServicesAfter(ext, fps, observed, desired))
  {
    var p := PlanServices(ext, fps, observed, desired);
    var kept := Keep(observed, p.removed);
    var after := ServicesAfter(ext, fps, observed, desired);
    KeptAndCreated(ext, fps, observed, desired);
    AfterNames(ext, fps, observed, desired);
    DistinctAppend(kept, p.created);
    NameSetAppend(kept, p.created);
    var st := kept + p.created;
    forall i | 0 <= i < |desired| ensures after[i] in st
    {
      ServiceEntryPresent(ext, fps, observed, desired, i);
    }
    forall n | n in NameSet(desired) ensures n in NameSet(st)
    {
      var i :| 0 <= i < |desired| && NameOf(desired[i]) == n;
      var k :| 0 <= k < |st| && st[k] == after[i];
      assert NameOf(st[k]) == n;
    }
  }

  /** The service `ServicesAfter` names for the desired service at `i` is kept by
      the deletes or added by the creates. */
  lemma ServiceEntryPresent(ext: Externals, fps: map<string, string>, observed: seq<Service>,
                            desired: seq<Service>, i: nat)
    requires AllNamed(observed) && DistinctNames(observed) && fps.Keys == NameSet(observed)
    requires AllNamed(desired) && DistinctNames(desired) && i < |desired|
    ensures var p := PlanServices(ext, fps, observed, desired);
      ServicesAfter(ext, fps, observed, desired)[i] in Keep(observed, p.removed) + p.created
  {
    var p := PlanServices(ext, fps, observed, desired);
    var d := desired[i];
    var n := NameOf(d);
    ChangesMembers(ext, fps, desired);
    KeepMembers(observed, p.removed);
    if FateOf(ext, fps, d) == Unchanged {
      assert n in NameSet(desired);
      assert !ChangedName(ext, fps, desired, n);
      var x := FindByName(observed, n).value;
      assert x in Keep(observed, p.removed) by {
        var k :| 0 <= k < |observed| && NameOf(observed[k]) == n;
        FindDistinct(observed, k);
      }
    } else {
      assert SentService(ext, fps, desired, Outgoing(ext, d));
    }
  }

  /** Effect of a successful service pass on the cluster, derived from its calls:
      the services are, one per name, exactly the desired ones; an unchanged
      service is the observed object, left in place; every other one is the
      desired service as sent, fingerprint included. Deployments and accounts are
      untouched. */
  lemma ServicesPassEffect(ext: Externals, c: State, items: seq<Option<Service>>, desired: seq<Service>)
    requires CurrentConfig(items, ext.serializeService).Ok?
    requires AllNamed(desired) && DistinctNames(desired) && c.services == Values(items)
    ensures CurrentConfig(items, ext.serializeService).value.Keys == NameSet(Values(items))
    ensures var fps := CurrentConfig(items, ext.serializeService).value;
      var r := ManageServices(ext, items, desired);
      var st := Apply(c, r.trace);
      && r.failure.None?
      && st.deployments == c.deployments && st.accounts == c.accounts
      && SameByName(st.services, ServicesAfter(ext, fps, Values(items), desired))
      && NameSet(st.services) == NameSet(desired)
      && forall i | 0 <= i < |desired| ::
           FindByName(st.services, NameOf(desired[i])) ==
             if FateOf(ext, fps, desired[i]) == Unchanged then FindByName(Values(items), NameOf(desired[i]))
             else Some(Outgoing(ext, desired[i]))
  {
    var ser := ext.serializeService;
    CurrentConfigOk(items, ser);
    var fps := CurrentConfig(items, ser).value;
    var observed := Values(items);
    ServicePassState(ext, c, items, desired);
    ServicesAfterMatches(ext, fps, observed, desired);
    var after := ServicesAfter(ext, fps, observed, desired);
    AfterNames(ext, fps, observed, desired);
    var st := Apply(c, ManageServices(ext, items, desired).trace).services;
    forall i | 0 <= i < |desired|
      ensures FindByName(st, NameOf(desired[i])) ==
             if FateOf(ext, fps, desired[i]) == Unchanged then FindByName(observed, NameOf(desired[i]))
             else Some(Outgoing(ext, desired[i]))
    {
      FindSame(st, after, NameOf(desired[i]));
      FindDistinct(after, i);
    }
  }

  /** A pass that finds every desired service unchanged and no undesired one
      issues no call. */
  lemma NothingToDo(ext: Externals, items: seq<Option<Service>>, desired: seq<Service>)
    requires CurrentConfig(items, ext.serializeService).Ok?
    requires AllNamed(desired) && NameSet(Values(items)) <= NameSet(desired)
    requires var fps := CurrentConfig(items, ext.serializeService).value;
      forall i | 0 <= i < |desired| :: FateOf(ext, fps, desired[i]) == Unchanged
    ensures ManageServices(ext, items, desired) == Run([], None)
  {
    AllUnchangedPlansNothing(ext, CurrentConfig(items, ext.serializeService).value, desired);
    RemovedNothing(Values(items), desired);
  }

  /** Listing a cluster that agrees by name with what a pass left behind, a
      second pass with the same desired services issues no call. */
  lemma SecondServicePass(ext: Externals, items: seq<Option<Service>>, desired: seq<Service>, st: seq<Service>)
    requires CurrentConfig(items, ext.serializeService).Ok?
    requires AllNamed(desired) && DistinctNames(desired)
    requires var fps := CurrentConfig(items, ext.serializeService).value;
      SameByName(st, ServicesAfter(ext, fps, Values(items), desired))
    ensures ManageServices(ext, Listed(st), desired) == Run([], None)
  {
    var ser := ext.serializeService;
    var fps := CurrentConfig(items, ser).value;
    var after := ServicesAfter(ext, fps, Values(items), desired);
    AfterIsUnchanged(ext, items, desired);
    AfterNames(ext, fps, Values(items), desired);
    SameConfig(st, after, ser);
    ListedValues(st);
    NothingToDo(ext, Listed(st), desired);
  }

  /** Idempotence: list the cluster a successful pass leaves behind, as computed
      from the calls that pass issued, and a second pass with the same desired
      services issues no call at all. */
  lemma ServicesIdempotent(ext: Externals, c: State, items: seq<Option<Service>>, desired: seq<Service>)
    requires CurrentConfig(items, ext.serializeService).Ok?
    requires AllNamed(desired) && DistinctNames(desired) && c.services == Values(items)
    ensures var st := Apply(c, ManageServices(ext, items, desired).trace);
      ManageServices(ext, Listed(st.services), desired) == Run([], None)
  {
    ServicesPassEffect(ext, c, items, desired);
    SecondServicePass(ext, items, desired, Apply(c, ManageServices(ext, items, desired).trace).services);
  }
}
