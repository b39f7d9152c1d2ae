/** The creation fingerprint: how an observed object's stored fingerprint is read
    back, and how a whole observed list becomes a name-to-fingerprint dictionary
    (GetCurrentServiceConfig and GetCurrentDeploymentConfig). */
module Fingerprints {
  import opened Results
  import opened Kube
  import Constants

  /** The fingerprint stored in an object's annotations, if it carries one. */
  function Stored<S>(r: Resource<S>): Option<string>
  {
    if r.metadata.Some? && r.metadata.value.annotations.Some?
       && Constants.CreationString in r.metadata.value.annotations.value
    then Some(r.metadata.value.annotations.value[Constants.CreationString])
    else None
  }

  /** The value selector of the extraction: the stored fingerprint when present,
      otherwise the serialization of a copy with the status dropped. */
  function Fingerprint<S>(r: Resource<S>, serialize: Resource<S> -> string): string
  {
    match Stored(r)
    case Some(fp) => fp
    case None => serialize(r.(status := None))
  }

  /** GetCurrentServiceConfig / GetCurrentDeploymentConfig: `ToDictionary` over the
      observed items, left to right. A null item or an item without a name raises a
      null reference; a name seen before raises a duplicate key; whichever comes
      first decides the error. */
  function CurrentConfig<S>(items: seq<Option<Resource<S>>>, serialize: Resource<S> -> string)
    : (r: Result<map<string, string>>)
    ensures r.Ok? ==> Present(items)
    decreases |items|
  {
    if |items| == 0 then Ok(map[])
    else
      var n := |items| - 1;
      match CurrentConfig(items[..n], serialize)
      case Err(e) => Err(e)
      case Ok(m) =>
        var last := items[n];
        if last.None? || !Named(last.value) then Err(NullReference)
        else if NameOf(last.value) in m then Err(DuplicateKey(NameOf(last.value)))
        else Ok(m[NameOf(last.value) := Fingerprint(last.value, serialize)])
  }

  /** The extraction succeeds exactly when every item is present and named and no
      name repeats; it then maps each name to that item's fingerprint and nothing
      else. */
  lemma CurrentConfigOk<S>(items: seq<Option<Resource<S>>>, serialize: Resource<S> -> string)
    ensures var r := CurrentConfig(items, serialize);
      && (r.Ok? <==> Present(items) && DistinctNames(Values(items)))
      && (r.Ok? ==> r.value.Keys == NameSet(Values(items)))
      && (r.Ok? ==> forall i | 0 <= i < |items| ::
            r.value[NameOf(items[i].value)] == Fingerprint(items[i].value, serialize))
  {
    CurrentConfigSucceeds(items, serialize);
    if CurrentConfig(items, serialize).Ok? {
      CurrentConfigContents(items, serialize);
    }
  }

  /** The extraction succeeds exactly when every item is present and named and no
      name repeats. */
  lemma {:induction false} CurrentConfigSucceeds<S>(items: seq<Option<Resource<S>>>, serialize: Resource<S> -> string)
    ensures CurrentConfig(items, serialize).Ok? <==> Present(items) && DistinctNames(Values(items))
    decreases |items|
  {
    if |items| > 0 {
      var n := |items| - 1;
      var prefix := items[..n];
      CurrentConfigSucceeds(prefix, serialize);
      var rp := CurrentConfig(prefix, serialize);
      if !Present(items) {
        var k :| 0 <= k < |items| && !(items[k].Some? && Named(items[k].value));
        if rp.Ok? {
          assert forall j | 0 <= j < n :: items[j] == prefix[j];
          assert k == n;
        }
      } else {
        PrefixFacts(items);
        assert Present(prefix) by {
          forall k | 0 <= k < |prefix| ensures prefix[k].Some? && Named(prefix[k].value)
          {
            assert prefix[k] == items[k];
          }
        }
        if rp.Ok? {
          CurrentConfigContents(prefix, serialize);
        }
      }
    }
  }

  /** A successful extraction maps each listed name to that item's fingerprint and
      holds no other key. */
  lemma {:induction false} CurrentConfigContents<S>(items: seq<Option<Resource<S>>>, serialize: Resource<S> -> string)
    requires CurrentConfig(items, serialize).Ok?
    ensures var m := CurrentConfig(items, serialize).value;
      && m.Keys == NameSet(Values(items))
      && forall i | 0 <= i < |items| :: m[NameOf(items[i].value)] == Fingerprint(items[i].value, serialize)
    decreases |items|
  {
    if |items| > 0 {
      var n := |items| - 1;
      var rp := CurrentConfig(items[..n], serialize);
      assert rp.Ok?;
      CurrentConfigContents(items[..n], serialize);
      assert NameOf(items[n].value) !in rp.value;
      ContentsStep(items, serialize, rp.value);
    }
  }

  /** One step of the extraction: adding the last item's name and fingerprint to a
      dictionary that is correct for the prefix gives one correct for the list. */
  lemma ContentsStep<S>(items: seq<Option<Resource<S>>>, serialize: Resource<S> -> string, m: map<string, string>)
    requires |items| > 0 && Present(items)
    requires var n := |items| - 1;
      && m.Keys == NameSet(Values(items[..n]))
      && NameOf(items[n].value) !in m
      && forall i | 0 <= i < n :: m[NameOf(items[i].value)] == Fingerprint(items[i].value, serialize)
    ensures var n := |items| - 1;
      var r := m[NameOf(items[n].value) := Fingerprint(items[n].value, serialize)];
      && r.Keys == NameSet(Values(items))
      && forall i | 0 <= i < |items| :: r[NameOf(items[i].value)] == Fingerprint(items[i].value, serialize)
  {
    var n := |items| - 1;
    var prefix := items[..n];
    PrefixNames(items);
    forall i | 0 <= i < n
      ensures NameOf(items[i].value) in m
    {
      assert items[i] == prefix[i];
      assert NameOf(Values(prefix)[i]) in NameSet(Values(prefix));
    }
  }

  /** A null reference means some item was null or unnamed; any other error is a
      duplicate key naming a name two items carry. */
  lemma {:induction false} CurrentConfigErrors<S>(items: seq<Option<Resource<S>>>, serialize: Resource<S> -> string)
    ensures var r := CurrentConfig(items, serialize);
      && (r.Err? && r.error == NullReference ==> !Present(items))
      && (r.Err? && r.error != NullReference ==> r.error.DuplicateKey? && DuplicatedAt(items, r.error.key))
    decreases |items|
  {
    if |items| > 0 {
      var n := |items| - 1;
      var prefix := items[..n];
      var last := items[n];
      CurrentConfigErrors(prefix, serialize);
      var rp := CurrentConfig(prefix, serialize);
      if rp.Err? {
        ErrorsExtend(items);
      } else if last.Some? && Named(last.value) && NameOf(last.value) in rp.value {
        CurrentConfigOk(prefix, serialize);
        var i :| 0 <= i < |Values(prefix)| && NameOf(Values(prefix)[i]) == NameOf(last.value);
        assert items[i] == prefix[i];
        assert DuplicatedAt(items, NameOf(last.value));
      }
    }
  }

  /** What is wrong with a prefix stays wrong with the whole list. */
  lemma ErrorsExtend<S>(items: seq<Option<Resource<S>>>)
    requires |items| > 0
    ensures var prefix := items[..|items| - 1];
      && (!Present(prefix) ==> !Present(items))
      && forall key :: DuplicatedAt(prefix, key) ==> DuplicatedAt(items, key)
  {
    var prefix := items[..|items| - 1];
    if !Present(prefix) {
      var k :| 0 <= k < |prefix| && !(prefix[k].Some? && Named(prefix[k].value));
      assert items[k] == prefix[k];
    }
    forall key | DuplicatedAt(prefix, key) ensures DuplicatedAt(items, key)
    {
      var i, j :| 0 <= i < j < |prefix| &&
        prefix[i].Some? && Named(prefix[i].value) && NameOf(prefix[i].value) == key &&
        prefix[j].Some? && Named(prefix[j].value) && NameOf(prefix[j].value) == key;
      assert items[i] == prefix[i] && items[j] == prefix[j];
    }
  }

  /** Two present items, the later one at `j`, both carry the name `key`. */
  ghost predicate DuplicatedAt<S>(items: seq<Option<Resource<S>>>, key: string)
  {
    exists i, j | 0 <= i < j < |items| ::
      items[i].Some? && Named(items[i].value) && NameOf(items[i].value) == key &&
      items[j].Some? && Named(items[j].value) && NameOf(items[j].value) == key
  }

  /** The names of a present list are those of its prefix and of its last item. */
  lemma PrefixNames<S>(items: seq<Option<Resource<S>>>)
    requires |items| > 0 && Present(items)
    ensures var n := |items| - 1;
      && Values(items[..n]) == Values(items)[..n]
      && NameSet(Values(items)) == NameSet(Values(items[..n])) + {NameOf(items[n].value)}
  {
    var n := |items| - 1;
    var all := Values(items);
    var pre := Values(items[..n]);
    assert pre == all[..n];
    forall x | x in NameSet(all) ensures x in NameSet(pre) + {NameOf(items[n].value)}
    {
      var i :| 0 <= i < |all| && NameOf(all[i]) == x;
      if i < n {
        assert NameOf(pre[i]) == x;
      }
    }
    forall x | x in NameSet(pre) ensures x in NameSet(all)
    {
      var i :| 0 <= i < |pre| && NameOf(pre[i]) == x;
      assert NameOf(all[i]) == x;
    }
    assert NameOf(all[n]) == NameOf(items[n].value);
  }

  /** A present list has distinct names exactly when its prefix does and its last
      name is new. */
  lemma PrefixFacts<S>(items: seq<Option<Resource<S>>>)
    requires |items| > 0 && Present(items)
    ensures var n := |items| - 1;
      && Values(items[..n]) == Values(items)[..n]
      && NameSet(Values(items)) == NameSet(Values(items[..n])) + {NameOf(items[n].value)}
      && (DistinctNames(Values(items)) <==>
            DistinctNames(Values(items[..n])) && NameOf(items[n].value) !in NameSet(Values(items[..n])))
  {
    var n := |items| - 1;
    var all := Values(items);
    var pre := Values(items[..n]);
    PrefixNames(items);
    if DistinctNames(pre) && NameOf(items[n].value) !in NameSet(pre) {
      forall i, j | 0 <= i < j < |all| ensures NameOf(all[i]) != NameOf(all[j])
      {
        if j < n {
          assert NameOf(pre[i]) != NameOf(pre[j]);
        } else {
          assert NameOf(pre[i]) in NameSet(pre);
        }
      }
    }
    if DistinctNames(all) {
      forall i, j | 0 <= i < j < |pre| ensures NameOf(pre[i]) != NameOf(pre[j])
      {
        assert NameOf(all[i]) != NameOf(all[j]);
      }
      forall i | 0 <= i < |pre| ensures NameOf(pre[i]) != NameOf(items[n].value)
      {
        assert NameOf(all[i]) != NameOf(all[n]);
      }
    }
  }

  /** Listing two clusters that hold the same objects by name yields the same
      dictionary: the extraction does not depend on the listing order. */
  lemma SameConfig<S>(st: seq<Resource<S>>, after: seq<Resource<S>>, serialize: Resource<S> -> string)
    requires SameByName(st, after) && DistinctNames(after)
    ensures CurrentConfig(Listed(st), serialize).Ok?
    ensures CurrentConfig(Listed(st), serialize) == CurrentConfig(Listed(after), serialize)
  {
    var ls := Listed(st);
    var la := Listed(after);
    ListedValues(st);
    ListedValues(after);
    CurrentConfigSucceeds(ls, serialize);
    CurrentConfigSucceeds(la, serialize);
    CurrentConfigContents(ls, serialize);
    CurrentConfigContents(la, serialize);
    var ms := CurrentConfig(ls, serialize).value;
    var ma := CurrentConfig(la, serialize).value;
    forall n | n in ma.Keys ensures ms[n] == ma[n]
    {
      var i :| 0 <= i < |after| && NameOf(after[i]) == n;
      var k :| 0 <= k < |st| && st[k] == after[i];
      assert NameOf(la[i].value) == n && NameOf(ls[k].value) == n;
    }
    assert ms == ma;
  }

  /** Reading back a fingerprint just written: whatever else the object holds, the
      extraction yields the written value and never falls back to serializing. */
  lemma ReadsWrittenFingerprint<S>(r: Resource<S>, fp: string, serialize: Resource<S> -> string)
    requires Named(r)
    ensures var w := r.(metadata := Some(r.metadata.value.(annotations :=
              Some(WithFingerprint(r.metadata.value.annotations, fp)))));
      Stored(w) == Some(fp) && Fingerprint(w, serialize) == fp
  {
  }

  /** Without a stored fingerprint, the fallback ignores the observed status. */
  lemma FallbackIgnoresStatus<S>(r: Resource<S>, status: Option<string>, serialize: Resource<S> -> string)
    requires Stored(r).None?
    ensures Fingerprint(r.(status := status), serialize) == Fingerprint(r, serialize)
    ensures Fingerprint(r, serialize) == serialize(r.(status := None))
  {
  }
}
