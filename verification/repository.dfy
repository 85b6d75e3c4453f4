/** The generic keyed in-memory repository. The Java class keeps a mutable
    `HashMap<String, T>` and asks each concrete subclass for `getId`; here the
    state is an immutable `map<string, T>`, the id accessor is a parameter,
    and each operation returns the next state or the error it throws. */
module Repository {
  import opened Outcomes

  /** The repository invariant: every entry is stored under its own id. */
  ghost predicate Keyed<T>(repo: map<string, T>, getId: T -> string) {
    forall k :: k in repo ==> getId(repo[k]) == k
  }

  /** `add(item)`: refuses an id already present, otherwise inserts. */
  function Add<T>(repo: map<string, T>, getId: T -> string, item: T): (r: Result<map<string, T>>)
    ensures r.Err? <==> getId(item) in repo
    ensures r.Err? ==> r.error == DuplicateId(getId(item))
    ensures r.Ok? ==> r.value.Keys == repo.Keys + {getId(item)}
    ensures r.Ok? ==> r.value[getId(item)] == item
    ensures r.Ok? ==> forall k :: k in repo ==> r.value[k] == repo[k]
    ensures r.Ok? ==> |r.value| == |repo| + 1
    ensures r.Ok? && Keyed(repo, getId) ==> Keyed(r.value, getId)
  {
    var id := getId(item);
    if id in repo then Err(DuplicateId(id)) else Ok(repo[id := item])
  }

  /** `update(item)`: refuses an absent id, otherwise replaces its value. */
  function Update<T>(repo: map<string, T>, getId: T -> string, item: T): (r: Result<map<string, T>>)
    ensures r.Err? <==> getId(item) !in repo
    ensures r.Err? ==> r.error == NotFound(getId(item))
    ensures r.Ok? ==> r.value.Keys == repo.Keys
    ensures r.Ok? ==> r.value[getId(item)] == item
    ensures r.Ok? ==> forall k :: k in repo && k != getId(item) ==> r.value[k] == repo[k]
    ensures r.Ok? && Keyed(repo, getId) ==> Keyed(r.value, getId)
  {
    var id := getId(item);
    if id !in repo then Err(NotFound(id)) else Ok(repo[id := item])
  }

  /** `delete(id)`: refuses an absent id, otherwise removes that one key. */
  function Delete<T>(repo: map<string, T>, id: string): (r: Result<map<string, T>>)
    ensures r.Err? <==> id !in repo
    ensures r.Err? ==> r.error == NotFound(id)
    ensures r.Ok? ==> r.value.Keys == repo.Keys - {id}
    ensures r.Ok? ==> forall k :: k in r.value ==> r.value[k] == repo[k]
    ensures r.Ok? ==> |r.value| == |repo| - 1
  {
    if id !in repo then Err(NotFound(id)) else Ok(repo - {id})
  }

  /** Removing an entry keeps every remaining entry under its own id. */
  lemma DeleteKeepsKeyed<T>(repo: map<string, T>, getId: T -> string, id: string)
    requires Keyed(repo, getId) && Delete(repo, id).Ok?
    ensures Keyed(Delete(repo, id).value, getId)
  {
  }

  /** The keys among `ks` under which `repo` stores `v`. */
  ghost function KeysIn<T>(repo: map<string, T>, ks: set<string>, v: T): (r: set<string>) {
    set k | k in ks && k in repo && repo[k] == v
  }

  /** A snapshot of `repo` lists each value once per key that maps to it,
      in some order. */
  ghost predicate IsSnapshot<T(!new)>(repo: map<string, T>, s: seq<T>) {
    && |s| == |repo|
    && forall v :: multiset(s)[v] == |KeysIn(repo, repo.Keys, v)|
  }

  lemma KeysInExtend<T>(repo: map<string, T>, ks: set<string>, k: string, v: T)
    requires k in repo && k !in ks
    ensures |KeysIn(repo, ks + {k}, v)| == |KeysIn(repo, ks, v)| + (if repo[k] == v then 1 else 0)
  {
    if repo[k] == v {
      assert KeysIn(repo, ks + {k}, v) == KeysIn(repo, ks, v) + {k};
    } else {
      assert KeysIn(repo, ks + {k}, v) == KeysIn(repo, ks, v);
    }
  }

  /** `findAll()`: copies the values out, one per key, in an order the map
      chooses. */
  method FindAll<T(!new)>(repo: map<string, T>) returns (s: seq<T>)
    ensures IsSnapshot(repo, s)
    ensures forall v :: v in s <==> exists k :: k in repo && repo[k] == v
  {
    s := [];
    var rest := repo.Keys;
    while rest != {}
      invariant rest <= repo.Keys
      invariant |s| + |rest| == |repo|
      invariant forall v :: multiset(s)[v] == |KeysIn(repo, repo.Keys - rest, v)|
      decreases rest
    {
      var k :| k in rest;
      forall v
        ensures multiset(s + [repo[k]])[v] == |KeysIn(repo, repo.Keys - (rest - {k}), v)|
      {
        assert repo.Keys - (rest - {k}) == (repo.Keys - rest) + {k};
        KeysInExtend(repo, repo.Keys - rest, k, v);
      }
      s := s + [repo[k]];
      rest := rest - {k};
    }
    assert repo.Keys - rest == repo.Keys;
    SnapshotMembers(repo, s);
  }

  /** The elements of a snapshot are exactly the repository's values. */
  lemma SnapshotMembers<T(!new)>(repo: map<string, T>, s: seq<T>)
    requires IsSnapshot(repo, s)
    ensures forall v :: v in s <==> exists k :: k in repo && repo[k] == v
  {
    forall v
      ensures v in s <==> exists k :: k in repo && repo[k] == v
    {
      if exists k :: k in repo && repo[k] == v {
        var k :| k in repo && repo[k] == v;
        assert k in KeysIn(repo, repo.Keys, v);
      } else {
        assert KeysIn(repo, repo.Keys, v) == {};
      }
    }
  }

  /** In a keyed repository a value sits under at most one key: its id. */
  lemma KeyedAtMostOneKey<T>(repo: map<string, T>, getId: T -> string, v: T)
    requires Keyed(repo, getId)
    ensures |KeysIn(repo, repo.Keys, v)| <= 1
  {
    var ks := KeysIn(repo, repo.Keys, v);
    if getId(v) in ks {
      assert ks == {getId(v)};
    } else {
      assert ks == {};
    }
  }

  lemma RepeatedElementCount<T>(s: seq<T>, i: nat, j: nat)
    requires i < j < |s|
    ensures s[i] == s[j] ==> multiset(s)[s[i]] >= 2
  {
    assert s == s[..i] + [s[i]] + s[i + 1..];
    assert s[i + 1..][j - i - 1] == s[j];
  }

  /** In a keyed repository no value sits under two keys, so a snapshot
      lists every entity exactly once. */
  lemma KeyedSnapshotDistinct<T(!new)>(repo: map<string, T>, getId: T -> string, s: seq<T>)
    requires Keyed(repo, getId) && IsSnapshot(repo, s)
    ensures forall i, j :: 0 <= i < j < |s| ==> s[i] != s[j]
  {
    forall i, j | 0 <= i < j < |s|
      ensures s[i] != s[j]
    {
      KeyedAtMostOneKey(repo, getId, s[i]);
      RepeatedElementCount(s, i, j);
    }
  }

  /** Adding a new entity and then deleting its id restores the repository. */
  lemma AddThenDelete<T>(repo: map<string, T>, getId: T -> string, item: T)
    requires getId(item) !in repo
    ensures Add(repo, getId, item).Ok?
    ensures Delete(Add(repo, getId, item).value, getId(item)) == Ok(repo)
  {
    var id := getId(item);
    assert repo[id := item] - {id} == repo;
  }

  /** Deleting a stored entity and adding it back restores the repository. */
  lemma DeleteThenAdd<T>(repo: map<string, T>, getId: T -> string, id: string)
    requires Keyed(repo, getId) && id in repo
    ensures Delete(repo, id).Ok?
    ensures Add(Delete(repo, id).value, getId, repo[id]) == Ok(repo)
  {
    assert (repo - {id})[id := repo[id]] == repo;
  }

  /** Updating with the same entity twice is the same as updating once. */
  lemma UpdateIdempotent<T>(repo: map<string, T>, getId: T -> string, item: T)
    requires Update(repo, getId, item).Ok?
    ensures Update(Update(repo, getId, item).value, getId, item) == Update(repo, getId, item)
  {
    var id := getId(item);
    assert repo[id := item][id := item] == repo[id := item];
  }

  /** A call on the repository, one per public operation that changes it. */
  datatype Call<T> = AddCall(item: T) | UpdateCall(item: T) | DeleteCall(id: string)

  /** The id a call is about. */
  function CallId<T>(getId: T -> string, c: Call<T>): (r: string) {
    match c
    case AddCall(x) => getId(x)
    case UpdateCall(x) => getId(x)
    case DeleteCall(id) => id
  }

  /** One call on the mutable repository: on success the map moves to the new
      state; on failure the exception is raised before the map is touched. */
  function Step<T>(repo: map<string, T>, getId: T -> string, c: Call<T>): (r: (map<string, T>, Outcome))
    ensures r.1.Failed? ==> r.0 == repo
    ensures r.1.Failed? <==> (CallId(getId, c) in repo <==> c.AddCall?)
    ensures r.1.Failed? ==> r.1.error == (if c.AddCall? then DuplicateId(CallId(getId, c))
                                          else NotFound(CallId(getId, c)))
    ensures r.1.Done? && !c.DeleteCall? ==> CallId(getId, c) in r.0 && r.0[CallId(getId, c)] == c.item
    ensures r.1.Done? ==> r.0.Keys == (if c.AddCall? then repo.Keys + {CallId(getId, c)}
                                       else if c.DeleteCall? then repo.Keys - {CallId(getId, c)}
                                       else repo.Keys)
    ensures forall k :: k in repo && k in r.0 && k != CallId(getId, c) ==> r.0[k] == repo[k]
    ensures Keyed(repo, getId) ==> Keyed(r.0, getId)
  {
    var res := match c
      case AddCall(x) => Add(repo, getId, x)
      case UpdateCall(x) => Update(repo, getId, x)
      case DeleteCall(id) => Delete(repo, id);
    match res
    case Ok(m) => (m, Done)
    case Err(e) => (repo, Failed(e))
  }

  /** A sequence of calls made one after the other, with the outcome of each. */
  function Run<T>(repo: map<string, T>, getId: T -> string, calls: seq<Call<T>>): (r: (map<string, T>, seq<Outcome>))
    ensures |r.1| == |calls|
    ensures Keyed(repo, getId) ==> Keyed(r.0, getId)
    ensures (forall i :: 0 <= i < |r.1| ==> r.1[i].Failed?) ==> r.0 == repo
    decreases |calls|
  {
    if |calls| == 0 then (repo, [])
    else
      var (m, o) := Step(repo, getId, calls[0]);
      var (m', os) := Run(m, getId, calls[1..]);
      assert ([o] + os)[0] == o;
      assert forall i :: 0 <= i < |os| ==> os[i] == ([o] + os)[i + 1];
      (m', [o] + os)
  }

  /** The key set after a run never holds an id that neither was there before
      nor was named by one of the calls. */
  lemma {:induction false} RunKeys<T>(repo: map<string, T>, getId: T -> string, calls: seq<Call<T>>)
    ensures forall k :: k in Run(repo, getId, calls).0 ==>
              k in repo || exists i :: 0 <= i < |calls| && CallId(getId, calls[i]) == k
    decreases |calls|
  {
    if |calls| > 0 {
      var m := Step(repo, getId, calls[0]).0;
      RunKeys(m, getId, calls[1..]);
      forall k | k in Run(repo, getId, calls).0
        ensures k in repo || exists i :: 0 <= i < |calls| && CallId(getId, calls[i]) == k
      {
        if k !in repo && k != CallId(getId, calls[0]) {
          assert k !in m;
          var i :| 0 <= i < |calls[1..]| && CallId(getId, calls[1..][i]) == k;
          assert CallId(getId, calls[i + 1]) == k;
        }
      }
    }
  }

  /** Adding a second entity with the same id fails and keeps the first. */
  lemma AddTwiceKeepsFirst<T>(repo: map<string, T>, getId: T -> string, first: T, second: T)
    requires getId(first) !in repo && getId(second) == getId(first)
    ensures Run(repo, getId, [AddCall(first), AddCall(second)]).1 == [Done, Failed(DuplicateId(getId(first)))]
    ensures Run(repo, getId, [AddCall(first), AddCall(second)]).0 == repo[getId(first) := first]
  {
  }
}
