// Versioned filter configurations: which configuration a (name, version)
// pair selects, and when versions may be added or retired
// (experimental.h:355-484, SstQueryFilterConfigsManager).
module FilterConfigs {

  type FilteringVersion = x: int | 0 <= x <= 0xFFFF_FFFF

  datatype VersionData<C> = VersionData(version: FilteringVersion, named: map<string, C>)

  // Empty stands for the shared "empty / not found" configuration.
  datatype Resolution<C> = Empty | Found(configs: C)

  datatype Outcome<T> = Ok(value: T) | InvalidArgument

  // Numbering starts at 1 or, once the oldest are retired, later; no gaps.
  ghost predicate Contiguous<C>(data: seq<VersionData<C>>) {
    && (data != [] ==> data[0].version >= 1)
    && forall i | 0 <= i < |data| :: data[i].version == data[0].version + i
  }

  datatype Manager<C> = Manager(data: seq<VersionData<C>>)

  // The data as given: lists of named configurations. To be a mapping from
  // name and version, no version may give a name twice.
  datatype Listed<C> = Listed(version: FilteringVersion, named: seq<(string, C)>)

  ghost predicate DistinctNames<C>(named: seq<(string, C)>) {
    forall i, j | 0 <= i < j < |named| :: named[i].0 != named[j].0
  }

  ghost predicate HasName<C>(named: seq<(string, C)>, name: string) {
    exists i :: 0 <= i < |named| && named[i].0 == name
  }

  ghost predicate IsMapOf<C>(m: map<string, C>, named: seq<(string, C)>) {
    && (forall i | 0 <= i < |named| :: named[i].0 in m && m[named[i].0] == named[i].1)
    && forall n | n in m :: HasName(named, n)
  }

  ghost predicate Represents<C>(data: seq<VersionData<C>>, listed: seq<Listed<C>>) {
    && |data| == |listed|
    && forall i | 0 <= i < |data| :: data[i].version == listed[i].version && IsMapOf(data[i].named, listed[i].named)
  }

  ghost predicate Acceptable<C>(listed: seq<Listed<C>>) {
    && (listed != [] ==> listed[0].version >= 1)
    && (forall i | 0 <= i < |listed| :: listed[i].version == listed[0].version + i)
    && forall i | 0 <= i < |listed| :: DistinctNames(listed[i].named)
  }

  lemma OneMoreName<C>(m: map<string, C>, named: seq<(string, C)>, x: (string, C))
    requires DistinctNames(named) && IsMapOf(m, named)
    ensures DistinctNames(named + [x]) <==> x.0 !in m
    ensures x.0 !in m ==> IsMapOf(m[x.0 := x.1], named + [x])
  {
    var more := named + [x];
    assert more[|named|] == x && forall i | 0 <= i < |named| :: more[i] == named[i];
    if x.0 in m {
      assert HasName(named, x.0);
      var i :| 0 <= i < |named| && named[i].0 == x.0;
      assert more[i].0 == more[|named|].0;
    } else {
      forall n: string | n in m[x.0 := x.1] ensures HasName(more, n) {
        if n == x.0 {
          assert more[|named|].0 == n;
        } else {
          assert HasName(named, n);
          var i :| 0 <= i < |named| && named[i].0 == n;
          assert more[i].0 == n;
        }
      }
    }
  }

  lemma RepeatedEarly<C>(named: seq<(string, C)>, i: nat)
    requires i <= |named| && !DistinctNames(named[..i])
    ensures !DistinctNames(named)
  {
    var j, k :| 0 <= j < k < i && named[..i][j].0 == named[..i][k].0;
    assert named[j].0 == named[k].0;
  }

  method ToMap<C>(named: seq<(string, C)>) returns (r: Outcome<map<string, C>>)
    ensures r.Ok? <==> DistinctNames(named)
    ensures r.Ok? ==> IsMapOf(r.value, named)
  {
    var m: map<string, C> := map[];
    var i: nat := 0;
    while i < |named|
      invariant 0 <= i <= |named| && DistinctNames(named[..i]) && IsMapOf(m, named[..i])
    {
      OneMoreName(m, named[..i], named[i]);
      assert named[..i] + [named[i]] == named[..i + 1];
      if named[i].0 in m {
        RepeatedEarly(named, i + 1);
        return InvalidArgument;
      }
      m := m[named[i].0 := named[i].1];
      i := i + 1;
    }
    assert named[..i] == named;
    return Ok(m);
  }

  method MakeShared<C>(listed: seq<Listed<C>>) returns (r: Outcome<Manager<C>>)
    ensures r.Ok? <==> Acceptable(listed)
    ensures r.Ok? ==> Represents(r.value.data, listed) && Contiguous(r.value.data)
  {
    var data: seq<VersionData<C>> := [];
    var i := 0;
    while i < |listed|
      invariant 0 <= i <= |listed|
      invariant Acceptable(listed[..i]) && Represents(data, listed[..i])
    {
      var wanted := if i == 0 then listed[0].version else listed[i - 1].version + 1;
      if listed[i].version != wanted || listed[i].version == 0 {
        assert i > 0 ==> listed[..i][i - 1].version == listed[0].version + (i - 1);
        return InvalidArgument;
      }
      var named := ToMap(listed[i].named);
      if named.InvalidArgument? {
        return InvalidArgument;
      }
      assert i > 0 ==> listed[..i][i - 1].version == listed[..i][0].version + (i - 1);
      data := data + [VersionData(wanted, named.value)];
      i := i + 1;
      assert listed[..i] == listed[..i - 1] + [listed[i - 1]];
    }
    assert listed[..i] == listed;
    return Ok(Manager(data));
  }

  predicate Supported<C>(data: seq<VersionData<C>>, ver: FilteringVersion) {
    ver == 0 || (data != [] && data[0].version <= ver <= data[|data| - 1].version)
  }

  // Version 0 and the versions given, and no others.
  lemma SupportedExactly<C>(data: seq<VersionData<C>>, ver: FilteringVersion)
    requires Contiguous(data)
    ensures Supported(data, ver) <==> ver == 0 || exists i :: 0 <= i < |data| && data[i].version == ver
  {
    if data != [] {
      assert data[|data| - 1].version == data[0].version + (|data| - 1);
      if data[0].version <= ver <= data[|data| - 1].version { assert data[ver - data[0].version].version == ver; }
    }
  }

  // How many of the versions are at or below a supported `ver`.
  function CountUpTo<C>(data: seq<VersionData<C>>, ver: FilteringVersion): (n: nat)
    requires Contiguous(data) && Supported(data, ver)
    ensures n <= |data|
  {
    if ver == 0 then 0 else
      assert data[|data| - 1].version == data[0].version + (|data| - 1);
      ver - data[0].version + 1
  }

  // The newest entry for the name among the first n versions.
  function Newest<C>(data: seq<VersionData<C>>, name: string, n: nat): Resolution<C>
    requires n <= |data|
  {
    if n == 0 then Empty
    else if name in data[n - 1].named then Found(data[n - 1].named[name])
    else Newest(data, name, n - 1)
  }

  function Resolve<C>(data: seq<VersionData<C>>, name: string, ver: FilteringVersion): Resolution<C>
    requires Contiguous(data) && Supported(data, ver)
  {
    Newest(data, name, CountUpTo(data, ver))
  }

  // ----- the factory -----

  class Factory<C> {
    const manager: Manager<C>
    const configsName: string
    var filteringVersion: FilteringVersion

    ghost predicate Valid()
      reads this
    {
      Contiguous(manager.data) && Supported(manager.data, filteringVersion)
    }

    constructor (manager: Manager<C>, configsName: string, ver: FilteringVersion)
      requires Contiguous(manager.data) && Supported(manager.data, ver)
      ensures Valid()
      ensures this.manager == manager && this.configsName == configsName && filteringVersion == ver
    {
      this.manager := manager;
      this.configsName := configsName;
      filteringVersion := ver;
    }

    method SetFilteringVersion(ver: FilteringVersion) returns (ok: bool)
      requires Valid()
      modifies this
      ensures Valid()
      ensures ok <==> ver == 0 || exists i :: 0 <= i < |manager.data| && manager.data[i].version == ver
      ensures filteringVersion == if ok then ver else old(filteringVersion)
    {
      SupportedExactly(manager.data, ver);
      ok := Supported(manager.data, ver);
      if ok {
        filteringVersion := ver;
      }
    }

    method GetConfigs() returns (r: Resolution<C>)
      requires Valid()
      ensures r == Resolve(manager.data, configsName, filteringVersion)
      ensures filteringVersion == 0 ==> r == Empty
    {
      var n: nat := CountUpTo(manager.data, filteringVersion);
      while n > 0
        invariant n <= |manager.data|
        invariant Newest(manager.data, configsName, n) == Resolve(manager.data, configsName, filteringVersion)
      {
        if configsName in manager.data[n - 1].named {
          return Found(manager.data[n - 1].named[configsName]);
        }
        n := n - 1;
      }
      return Empty;
    }
  }

  method MakeSharedFactory<C>(manager: Manager<C>, configsName: string, ver: FilteringVersion)
    returns (factory: Factory?<C>)
    requires Contiguous(manager.data)
    ensures factory != null <==> ver == 0 || exists i :: 0 <= i < |manager.data| && manager.data[i].version == ver
    ensures factory != null ==> fresh(factory) && factory.Valid()
    ensures factory != null ==>
              factory.manager == manager && factory.configsName == configsName && factory.filteringVersion == ver
  {
    SupportedExactly(manager.data, ver);
    if Supported(manager.data, ver) {
      factory := new Factory(manager, configsName, ver);
    } else {
      factory := null;
    }
  }

  // ----- what a resolution means -----

  // Version index j is in effect for the name at `ver`.
  ghost predicate InEffect<C>(data: seq<VersionData<C>>, name: string, ver: FilteringVersion, j: nat) {
    && j < |data| && data[j].version <= ver && name in data[j].named
    && forall k | j < k < |data| && data[k].version <= ver :: name !in data[k].named
  }

  lemma {:induction false} NewestIsLast<C>(data: seq<VersionData<C>>, name: string, n: nat)
    requires n <= |data|
    ensures match Newest(data, name, n)
            case Empty => forall k | 0 <= k < n :: name !in data[k].named
            case Found(c) => exists j :: 0 <= j < n && name in data[j].named && data[j].named[name] == c
                                         && forall k | j < k < n :: name !in data[k].named
  {
    if n > 0 && name !in data[n - 1].named {
      NewestIsLast(data, name, n - 1);
    }
  }

  lemma ResolvesToNewest<C>(data: seq<VersionData<C>>, name: string, ver: FilteringVersion)
    requires Contiguous(data) && Supported(data, ver)
    ensures Resolve(data, name, ver) == Empty <==>
              forall k | 0 <= k < |data| && data[k].version <= ver :: name !in data[k].named
    ensures forall c :: Resolve(data, name, ver) == Found(c) <==>
              exists j: nat :: InEffect(data, name, ver, j) && data[j].named[name] == c
  {
    var n := CountUpTo(data, ver);
    assert forall k | 0 <= k < |data| :: data[k].version <= ver <==> k < n;
    NewestIsLast(data, name, n);
    if Resolve(data, name, ver).Found? {
      var c := Resolve(data, name, ver).configs;
      var j: nat :| j < n && name in data[j].named && data[j].named[name] == c
                    && forall k | j < k < n :: name !in data[k].named;
      assert InEffect(data, name, ver, j);
      assert forall i: nat | InEffect(data, name, ver, i) :: i == j;
    }
  }

  // ----- adding a version -----

  lemma {:induction false} NewestOfPrefix<C>(data: seq<VersionData<C>>, more: seq<VersionData<C>>, name: string, n: nat)
    requires n <= |data|
    ensures Newest(data + more, name, n) == Newest(data, name, n)
  {
    if n > 0 {
      NewestOfPrefix(data, more, name, n - 1);
    }
  }

  // New versions change no earlier resolution, whatever they define.
  lemma AppendKeepsResolutions<C>(data: seq<VersionData<C>>, more: seq<VersionData<C>>, name: string,
      ver: FilteringVersion)
    requires Contiguous(data) && Contiguous(data + more) && Supported(data, ver)
    ensures Supported(data + more, ver)
    ensures Resolve(data + more, name, ver) == Resolve(data, name, ver)
  {
    if ver != 0 {
      assert (data + more)[0] == data[0];
      var n, m := |data| - 1, |data + more| - 1;
      assert (data + more)[m].version == data[0].version + m;
      assert data[n].version == data[0].version + n;
    }
    NewestOfPrefix(data, more, name, CountUpTo(data, ver));
  }

  // ----- retiring the oldest version -----

  // `data` starts with versions a and b; `retired` drops a and has b2 in
  // place of b.
  lemma {:induction false} NewestAfterRetiring<C>(a: VersionData<C>, b: VersionData<C>, b2: VersionData<C>,
      rest: seq<VersionData<C>>, name: string, n: nat)
    requires b2.named == a.named + b.named && 1 <= n <= |rest| + 1
    ensures Newest([b2] + rest, name, n) == Newest([a, b] + rest, name, n + 1)
  {
    var d, r := [a, b] + rest, [b2] + rest;
    assert d[n] == if n == 1 then b else rest[n - 2];
    assert r[n - 1] == if n == 1 then b2 else rest[n - 2];
    if n > 1 {
      NewestAfterRetiring(a, b, b2, rest, name, n - 1);
    } else {
      assert d[0] == a;
      assert Newest(r, name, 0) == Empty && Newest(d, name, 0) == Empty;
      assert Newest(d, name, 1) == if name in a.named then Found(a.named[name]) else Empty;
    }
  }

  ghost predicate SameResolutions<C(!new)>(before: seq<VersionData<C>>, after: seq<VersionData<C>>)
    requires Contiguous(before) && Contiguous(after)
  {
    forall name: string, ver: FilteringVersion :: SameAt(before, after, name, ver)
  }

  ghost predicate SameAt<C>(before: seq<VersionData<C>>, after: seq<VersionData<C>>, name: string,
      ver: FilteringVersion)
    requires Contiguous(before) && Contiguous(after)
  {
    Supported(after, ver) ==> Supported(before, ver) && Resolve(after, name, ver) == Resolve(before, name, ver)
  }

  lemma CarryingForwardSuffices<C(!new)>(a: VersionData<C>, b: VersionData<C>, b2: VersionData<C>,
      rest: seq<VersionData<C>>)
    requires Contiguous([a, b] + rest) && b2.version == b.version && b2.named == a.named + b.named
    ensures Contiguous([b2] + rest) && SameResolutions([a, b] + rest, [b2] + rest)
  {
    var d, r := [a, b] + rest, [b2] + rest;
    RetiredContiguous(a, b, b2, rest);
    forall name: string, ver: FilteringVersion ensures SameAt(d, r, name, ver) {
      if Supported(r, ver) && ver != 0 { NewestAfterRetiring(a, b, b2, rest, name, CountUpTo(r, ver)); }
    }
  }

  lemma RetiredContiguous<C>(a: VersionData<C>, b: VersionData<C>, b2: VersionData<C>, rest: seq<VersionData<C>>)
    requires Contiguous([a, b] + rest) && b2.version == b.version
    ensures Contiguous([b2] + rest)
    ensures forall ver: FilteringVersion :: Supported([b2] + rest, ver) ==> Supported([a, b] + rest, ver)
    ensures Supported([b2] + rest, b.version) && CountUpTo([b2] + rest, b.version) == 1
        && CountUpTo([a, b] + rest, b.version) == 2
  {
    var d, r := [a, b] + rest, [b2] + rest;
    assert d[0] == a && d[1] == b && r[0] == b2;
    assert forall i | 1 <= i < |r| :: r[i] == d[i + 1];
  }

  lemma FirstRemaining<C>(a: VersionData<C>, b: VersionData<C>, b2: VersionData<C>, rest: seq<VersionData<C>>,
      name: string)
    ensures Newest([a, b] + rest, name, 2) ==
              if name in (a.named + b.named) then Found((a.named + b.named)[name]) else Empty
    ensures Newest([b2] + rest, name, 1) == if name in b2.named then Found(b2.named[name]) else Empty
  {
    var d, r := [a, b] + rest, [b2] + rest;
    assert d[0] == a && d[1] == b && r[0] == b2;
    assert Newest(d, name, 0) == Empty && Newest(r, name, 0) == Empty;
    assert Newest(d, name, 1) == if name in a.named then Found(a.named[name]) else Empty;
  }

  // Retiring the oldest version keeps every remaining resolution exactly
  // when the next version carries forward the names it does not redefine,
  // and nothing else changes in it.
  lemma RetireKeepsResolutionsExactly<C(!new)>(a: VersionData<C>, b: VersionData<C>, b2: VersionData<C>,
      rest: seq<VersionData<C>>)
    requires Contiguous([a, b] + rest) && b2.version == b.version
    ensures Contiguous([b2] + rest)
    ensures SameResolutions([a, b] + rest, [b2] + rest) <==> b2.named == a.named + b.named
  {
    RetiredContiguous(a, b, b2, rest);
    if b2.named == a.named + b.named {
      CarryingForwardSuffices(a, b, b2, rest);
    }
    if SameResolutions([a, b] + rest, [b2] + rest) {
      forall name: string
        ensures (name in b2.named <==> name in (a.named + b.named))
        ensures name in b2.named ==> b2.named[name] == (a.named + b.named)[name]
      {
        FirstRemaining(a, b, b2, rest, name);
        assert SameAt([a, b] + rest, [b2] + rest, name, b.version);
      }
      assert b2.named == a.named + b.named;
    }
  }

  lemma SameResolutionsTransitive<C(!new)>(a: seq<VersionData<C>>, b: seq<VersionData<C>>, c: seq<VersionData<C>>)
    requires Contiguous(a) && Contiguous(b) && Contiguous(c)
    requires SameResolutions(a, b) && SameResolutions(b, c)
    ensures SameResolutions(a, c)
  {
    forall name: string, ver: FilteringVersion ensures SameAt(a, c, name, ver) {
      assert SameAt(a, b, name, ver) && SameAt(b, c, name, ver);
    }
  }

  // Retiring one version after another, each time carrying forward.
  function Retire<C>(data: seq<VersionData<C>>, n: nat): seq<VersionData<C>>
    requires n < |data|
    decreases n
  {
    if n == 0 then data
    else Retire([data[1].(named := data[0].named + data[1].named)] + data[2..], n - 1)
  }

  lemma {:induction false} RetireManyKeepsResolutions<C(!new)>(data: seq<VersionData<C>>, n: nat)
    requires Contiguous(data) && n < |data|
    ensures Contiguous(Retire(data, n)) && SameResolutions(data, Retire(data, n))
    ensures |Retire(data, n)| == |data| - n
    ensures Retire(data, n)[0].version == data[n].version
    decreases n
  {
    if n > 0 {
      var b2 := data[1].(named := data[0].named + data[1].named);
      assert data == [data[0], data[1]] + data[2..];
      CarryingForwardSuffices(data[0], data[1], b2, data[2..]);
      var next := [b2] + data[2..];
      RetireManyKeepsResolutions(next, n - 1);
      assert next[n - 1].version == data[n].version;
      var r := Retire(next, n - 1);
      assert Retire(data, n) == r;
      SameResolutionsTransitive(data, next, r);
    } else {
      assert Retire(data, n) == data;
    }
  }
}
