/** What the controller's calls do to the namespace. The cluster holds services,
    deployments and service-account names; each client call changes it by name,
    and a trace of calls changes it call by call. Every call is taken to succeed
    at once: a create for a name already held appends a second object rather than
    being refused, and a deployment delete removes the deployment immediately
    rather than once its pods are gone. */
module Cluster {
  import opened Results
  import opened Kube

  datatype State = State(services: seq<Service>, deployments: seq<Deployment>, accounts: seq<string>)

  /** The objects of `rs` that no name in `names` names, in order. */
  function Keep<S>(rs: seq<Resource<S>>, names: seq<string>): (r: seq<Resource<S>>)
    ensures |r| <= |rs|
    decreases |rs|
  {
    if |rs| == 0 then []
    else
      var rest := Keep(rs[1..], names);
      if Named(rs[0]) && NameOf(rs[0]) in names then rest else [rs[0]] + rest
  }

  /** The account names other than `name`, in order. */
  function Without(names: seq<string>, name: string): (r: seq<string>)
    ensures forall n :: n in r <==> n in names && n != name
    decreases |names|
  {
    if |names| == 0 then []
    else
      var rest := Without(names[1..], name);
      if names[0] == name then rest else [names[0]] + rest
  }

  /** Replacing a deployment by name: the object carrying `x`'s name becomes `x`. */
  function Replace(rs: seq<Deployment>, x: Deployment): (r: seq<Deployment>)
    ensures |r| == |rs|
    ensures forall i | 0 <= i < |rs| ::
      r[i] == if Named(rs[i]) && Named(x) && NameOf(rs[i]) == NameOf(x) then x else rs[i]
  {
    seq(|rs|, i requires 0 <= i < |rs| =>
      if Named(rs[i]) && Named(x) && NameOf(rs[i]) == NameOf(x) then x else rs[i])
  }

  /** One call: a delete removes the object of that name, a create adds the
      object, a replace swaps the object of that name for the new one. */
  function Step(c: State, a: Action): State
  {
    match a
    case DeleteService(n) => c.(services := Keep(c.services, [n]))
    case CreateService(x) => c.(services := c.services + [x])
    case DeleteDeployment(n) => c.(deployments := Keep(c.deployments, [n]))
    case DeleteServiceAccount(n) => c.(accounts := Without(c.accounts, n))
    case CreateServiceAccount(x) =>
      if x.metadata.name.Some? then c.(accounts := c.accounts + [x.metadata.name.value]) else c
    case CreateDeployment(x) => c.(deployments := c.deployments + [x])
    case ReplaceDeployment(x) => c.(deployments := Replace(c.deployments, x))
  }

  /** The cluster after the calls of `t`, issued in order. */
  function Apply(c: State, t: seq<Action>): State
    decreases |t|
  {
    if |t| == 0 then c else Apply(Step(c, t[0]), t[1..])
  }

  /** Issuing two traces one after the other. */
  lemma {:induction false} ApplyAppend(c: State, t: seq<Action>, u: seq<Action>)
    ensures Apply(c, t + u) == Apply(Apply(c, t), u)
    decreases |t|
  {
    if |t| == 0 {
      assert t + u == u;
    } else {
      assert (t + u)[0] == t[0];
      assert (t + u)[1..] == t[1..] + u;
      ApplyAppend(Step(c, t[0]), t[1..], u);
    }
  }

  /** What is kept is what was there and is not named in `names`. */
  lemma {:induction false} KeepMembers<S>(rs: seq<Resource<S>>, names: seq<string>)
    ensures forall x :: x in Keep(rs, names) <==> x in rs && !(Named(x) && NameOf(x) in names)
    decreases |rs|
  {
    if |rs| > 0 {
      KeepMembers(rs[1..], names);
      assert rs == [rs[0]] + rs[1..];
    }
  }

  /** Keeping from named objects keeps them named, keeps exactly the names not in
      `names`, and keeps the names distinct. */
  lemma {:induction false} KeepNames<S>(rs: seq<Resource<S>>, names: seq<string>)
    requires AllNamed(rs)
    ensures var k := Keep(rs, names);
      && AllNamed(k)
      && (forall n :: n in NameSet(k) <==> n in NameSet(rs) && n !in names)
      && (DistinctNames(rs) ==> DistinctNames(k))
    decreases |rs|
  {
    if |rs| > 0 {
      var tail := rs[1..];
      KeepNames(tail, names);
      NameSetCons(rs);
      var kt := Keep(tail, names);
      if !(NameOf(rs[0]) in names) {
        NameSetCons([rs[0]] + kt);
        assert ([rs[0]] + kt)[1..] == kt;
        if DistinctNames(rs) {
          assert NameOf(rs[0]) !in NameSet(tail) by {
            forall j | 0 <= j < |tail| ensures NameOf(tail[j]) != NameOf(rs[0])
            {
              assert tail[j] == rs[j + 1];
            }
          }
          DistinctCons(rs[0], kt);
        }
      }
    }
  }

  /** A named object ahead of a list with distinct names keeps the names distinct
      when its name is new. */
  lemma DistinctCons<S>(x: Resource<S>, rs: seq<Resource<S>>)
    requires Named(x) && AllNamed(rs) && DistinctNames(rs) && NameOf(x) !in NameSet(rs)
    ensures AllNamed([x] + rs) && DistinctNames([x] + rs)
  {
    var xs := [x] + rs;
    forall i, j | 0 <= i < j < |xs| ensures NameOf(xs[i]) != NameOf(xs[j])
    {
      assert xs[j] == rs[j - 1];
      if i > 0 {
        assert xs[i] == rs[i - 1];
      } else {
        assert NameOf(rs[j - 1]) in NameSet(rs);
      }
    }
  }

  /** Removing by one list of names, then another, removes by both. */
  lemma {:induction false} KeepKeep<S>(rs: seq<Resource<S>>, a: seq<string>, b: seq<string>)
    ensures Keep(Keep(rs, a), b) == Keep(rs, a + b)
    decreases |rs|
  {
    if |rs| > 0 {
      KeepKeep(rs[1..], a, b);
      var ka := Keep(rs[1..], a);
      if !(Named(rs[0]) && NameOf(rs[0]) in a) {
        assert ([rs[0]] + ka)[1..] == ka;
      }
    }
  }

  /** Deleting services by name, one call per name. */
  lemma {:induction false} ApplyDeleteServices(c: State, t: seq<Action>, names: seq<string>)
    requires |t| == |names| && forall i | 0 <= i < |t| :: t[i] == DeleteService(names[i])
    ensures Apply(c, t) == c.(services := Keep(c.services, names))
    decreases |t|
  {
    if |t| == 0 {
      KeepNothing(c.services);
    } else {
      var c1 := Step(c, t[0]);
      ApplyDeleteServices(c1, t[1..], names[1..]);
      KeepKeep(c.services, [names[0]], names[1..]);
      assert [names[0]] + names[1..] == names;
    }
  }

  /** Deleting deployments by name, one call per name. */
  lemma {:induction false} ApplyDeleteDeployments(c: State, t: seq<Action>, names: seq<string>)
    requires |t| == |names| && forall i | 0 <= i < |t| :: t[i] == DeleteDeployment(names[i])
    ensures Apply(c, t) == c.(deployments := Keep(c.deployments, names))
    decreases |t|
  {
    if |t| == 0 {
      KeepNothing(c.deployments);
    } else {
      var c1 := Step(c, t[0]);
      ApplyDeleteDeployments(c1, t[1..], names[1..]);
      KeepKeep(c.deployments, [names[0]], names[1..]);
      assert [names[0]] + names[1..] == names;
    }
  }

  /** Removing by no name keeps everything. */
  lemma {:induction false} KeepNothing<S>(rs: seq<Resource<S>>)
    ensures Keep(rs, []) == rs
    decreases |rs|
  {
    if |rs| > 0 {
      KeepNothing(rs[1..]);
      assert [rs[0]] + rs[1..] == rs;
    }
  }

  /** Creating services, one call per service, adds them in order. */
  lemma {:induction false} ApplyCreateServices(c: State, t: seq<Action>, xs: seq<Service>)
    requires |t| == |xs| && forall i | 0 <= i < |t| :: t[i] == CreateService(xs[i])
    ensures Apply(c, t) == c.(services := c.services + xs)
    decreases |t|
  {
    if |t| == 0 {
      assert c.services + xs == c.services;
    } else {
      ApplyCreateServices(Step(c, t[0]), t[1..], xs[1..]);
      assert c.services + [xs[0]] + xs[1..] == c.services + xs;
    }
  }

  /** Creating deployments, one call per deployment, adds them in order. */
  lemma {:induction false} ApplyCreateDeployments(c: State, t: seq<Action>, xs: seq<Deployment>)
    requires |t| == |xs| && forall i | 0 <= i < |t| :: t[i] == CreateDeployment(xs[i])
    ensures Apply(c, t) == c.(deployments := c.deployments + xs)
    decreases |t|
  {
    if |t| == 0 {
      assert c.deployments + xs == c.deployments;
    } else {
      ApplyCreateDeployments(Step(c, t[0]), t[1..], xs[1..]);
      assert c.deployments + [xs[0]] + xs[1..] == c.deployments + xs;
    }
  }

  /** Account calls leave services and deployments alone. */
  lemma {:induction false} ApplyAccountCalls(c: State, t: seq<Action>)
    requires forall a | a in t :: a.DeleteServiceAccount? || a.CreateServiceAccount?
    ensures Apply(c, t).services == c.services && Apply(c, t).deployments == c.deployments
    decreases |t|
  {
    if |t| > 0 {
      assert t[0] in t;
      assert forall a | a in t[1..] :: a in t;
      ApplyAccountCalls(Step(c, t[0]), t[1..]);
    }
  }

  /** Calls of stage 2 or later leave the services alone. */
  lemma {:induction false} ApplyKeepsServices(c: State, t: seq<Action>)
    requires forall a | a in t :: Stage(a) >= 2
    ensures Apply(c, t).services == c.services
    decreases |t|
  {
    if |t| > 0 {
      assert t[0] in t;
      assert forall a | a in t[1..] :: a in t;
      ApplyKeepsServices(Step(c, t[0]), t[1..]);
    }
  }

  /** Service calls leave the deployments and accounts alone. */
  lemma {:induction false} ApplyKeepsDeployments(c: State, t: seq<Action>)
    requires forall a | a in t :: a.DeleteService? || a.CreateService?
    ensures Apply(c, t).deployments == c.deployments && Apply(c, t).accounts == c.accounts
    decreases |t|
  {
    if |t| > 0 {
      assert t[0] in t;
      assert forall a | a in t[1..] :: a in t;
      ApplyKeepsDeployments(Step(c, t[0]), t[1..]);
    }
  }

  /** Replacing deployments with distinct names, one call each: every deployment
      keeps its place and its name; one whose name is replaced becomes the
      replacement, and every other one stays as it was. */
  lemma {:induction false} ApplyReplaces(c: State, t: seq<Action>, us: seq<Deployment>)
    requires |t| == |us| && forall i | 0 <= i < |t| :: t[i] == ReplaceDeployment(us[i])
    requires AllNamed(c.deployments) && AllNamed(us) && DistinctNames(us)
    ensures var r := Apply(c, t);
      var ds := c.deployments;
      && r.services == c.services
      && |r.deployments| == |ds|
      && (forall k | 0 <= k < |ds| :: Named(r.deployments[k]) && NameOf(r.deployments[k]) == NameOf(ds[k]))
      && (forall k | 0 <= k < |ds| && NameOf(ds[k]) !in NameSet(us) :: r.deployments[k] == ds[k])
      && (forall j, k | 0 <= j < |us| && 0 <= k < |ds| && NameOf(us[j]) == NameOf(ds[k]) ::
            r.deployments[k] == us[j])
    decreases |t|
  {
    if |t| > 0 {
      var c1 := Step(c, t[0]);
      var tail := us[1..];
      assert DistinctNames(tail) by {
        forall i, j | 0 <= i < j < |tail| ensures NameOf(tail[i]) != NameOf(tail[j])
        {
          assert tail[i] == us[i + 1] && tail[j] == us[j + 1];
        }
      }
      ApplyReplaces(c1, t[1..], tail);
      NameSetCons(us);
      var ds := c.deployments;
      var r := Apply(c, t).deployments;
      forall j, k | 0 <= j < |us| && 0 <= k < |ds| && NameOf(us[j]) == NameOf(ds[k])
        ensures r[k] == us[j]
      {
        if j > 0 {
          assert us[j] == tail[j - 1];
        }
      }
    }
  }
}
