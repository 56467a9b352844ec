/**
 * The Secret Manager service as the client sees it: a store of version tables, one per
 * secret resource name, with the four calls the library makes. Each call is recorded in
 * a log, so that the order of the calls a workflow issues can be stated.
 *
 * Assumptions about the service (the library delegates these and does not define them):
 * the alias "latest" resolves to the newest ENABLED version and is accepted only by
 * access; access to a version that is not ENABLED fails; destroying a version that is
 * already DESTROYED fails; a listing may come back in any order.
 */
module SecretManager {
  import opened Wrappers
  import opened Errors
  import opened ResourceNames
  import opened Selection
  import opened VersionTable

  /** A request received by the service. */
  datatype Call =
    | AccessCall(name: string)
    | AddCall(parent: string, payload: seq<byte>)
    | ListCall(parent: string)
    | DestroyCall(name: string)

  /** What an access returns: the canonical name of the version served, and its payload. */
  datatype AccessResponse = AccessResponse(name: string, payload: seq<byte>)

  /** Version tables by secret resource name (`projects/{p}/secrets/{s}`). */
  type Store = map<string, Table>

  predicate ValidStore(m: Store)
  {
    forall parent | parent in m :: Ordered(m[parent])
  }

  /** The position of the version whose id is `id`. */
  function VersionIndex(t: Table, id: string): (r: Option<nat>)
    ensures r.Some? ==> r.value < |t| && OrdinalId(t[r.value].ordinal) == id
    ensures r.None? ==> forall i | 0 <= i < |t| :: OrdinalId(t[i].ordinal) != id
  {
    if t == [] then None
    else if OrdinalId(t[0].ordinal) == id then Some(0)
    else match VersionIndex(t[1..], id)
      case None => None
      case Some(i) => Some(i + 1)
  }

  /** In an ordered table, the id of ordinal k names position k - 1, and only ordinals 1..|t| are found. */
  lemma VersionIndexOfOrdinal(t: Table, k: nat)
    requires Ordered(t)
    ensures VersionIndex(t, OrdinalId(k)) == if 1 <= k <= |t| then Some(k - 1) else None
  {
    forall i | 0 <= i < |t| && i + 1 != k ensures OrdinalId(t[i].ordinal) != OrdinalId(k) {
      if OrdinalId(t[i].ordinal) == OrdinalId(k) {
        OrdinalIdInjective(t[i].ordinal, k);
      }
    }
    if 1 <= k <= |t| {
      assert t[k - 1].ordinal == k;
    }
  }

  /** The position of the newest ENABLED version. */
  function NewestEnabledIndex(t: Table): (r: Option<nat>)
    ensures r.Some? ==> r.value < |t| && t[r.value].state == Enabled
    ensures r.Some? ==> forall j | r.value < j < |t| :: t[j].state != Enabled
    ensures r.None? ==> forall j | 0 <= j < |t| :: t[j].state != Enabled
  {
    if t == [] then None
    else if t[|t| - 1].state == Enabled then Some(|t| - 1)
    else NewestEnabledIndex(t[..|t| - 1])
  }

  /** In an ordered table the newest ENABLED version is the head of EnabledNewestFirst. */
  lemma NewestEnabledIsHead(t: Table)
    requires Ordered(t)
    ensures NewestEnabledIndex(t).None? <==> EnabledNewestFirst(t) == []
    ensures NewestEnabledIndex(t).Some? ==> NewestEnabledIndex(t).value + 1 == EnabledNewestFirst(t)[0]
  {
    EnabledNewestFirstBounds(t);
    EnabledNewestFirstMember(t);
    var d := EnabledNewestFirst(t);
    if NewestEnabledIndex(t).Some? {
      var i := NewestEnabledIndex(t).value;
      assert t[i].ordinal in d;
      var j :| 0 <= j < |d| && d[j] == i + 1;
      assert t[d[0] - 1].ordinal == d[0];
    }
  }

  /** The version a request names: "latest" or a version id. */
  function Resolve(t: Table, version: string): Option<nat>
  {
    if version == "latest" then NewestEnabledIndex(t) else VersionIndex(t, version)
  }

  /** The service's answer to `access_secret_version(name)`. */
  function AccessResult(m: Store, name: string): Result<AccessResponse, Error>
  {
    match ParseVersionName(name)
    case None => Err(InvalidArgument)
    case Some((parent, version)) =>
      if parent !in m then Err(NotFound)
      else match Resolve(m[parent], version)
        case None => Err(NotFound)
        case Some(i) =>
          var v := m[parent][i];
          if v.state != Enabled then Err(FailedPrecondition)
          else Ok(AccessResponse(VersionName(parent, OrdinalId(v.ordinal)), v.payload))
  }

  /** The service's answer to `destroy_secret_version(name)`: the new store, or why it refused. */
  function DestroyResult(m: Store, name: string): Result<Store, Error>
  {
    match ParseVersionName(name)
    case None => Err(InvalidArgument)
    case Some((parent, version)) =>
      if parent !in m then Err(NotFound)
      else match VersionIndex(m[parent], version)
        case None => Err(NotFound)
        case Some(i) =>
          var t := m[parent];
          if t[i].state == Destroyed then Err(FailedPrecondition)
          else Ok(m[parent := DestroyedAt(t, t[i].ordinal)])
  }

  /** Destroying keeps every table ordered. */
  lemma DestroyKeepsValid(m: Store, name: string)
    requires ValidStore(m)
    ensures DestroyResult(m, name).Ok? ==> ValidStore(DestroyResult(m, name).value)
  {
  }

  /**
   * Destroying version k of a secret succeeds exactly when version k exists and is not
   * yet DESTROYED, and then changes only that version of that secret.
   */
  lemma DestroyVersionK(m: Store, parent: string, k: nat)
    requires ValidStore(m) && parent in m
    ensures DestroyResult(m, VersionName(parent, OrdinalId(k))).Ok? <==>
      1 <= k <= |m[parent]| && m[parent][k - 1].state != Destroyed
    ensures DestroyResult(m, VersionName(parent, OrdinalId(k))).Ok? ==>
      DestroyResult(m, VersionName(parent, OrdinalId(k))).value == m[parent := DestroyedAt(m[parent], k)]
  {
    OrdinalIdShape(k);
    VersionNameRoundTrip(parent, OrdinalId(k));
    VersionIndexOfOrdinal(m[parent], k);
  }

  /** Access through "latest" serves the newest ENABLED version, and fails with NOT_FOUND when none is ENABLED. */
  lemma AccessLatest(m: Store, parent: string)
    requires ValidStore(m) && parent in m
    ensures EnabledNewestFirst(m[parent]) == [] ==> AccessResult(m, VersionName(parent, "latest")) == Err(NotFound)
    ensures EnabledNewestFirst(m[parent]) != [] ==>
      var k := EnabledNewestFirst(m[parent])[0];
      1 <= k <= |m[parent]| &&
      AccessResult(m, VersionName(parent, "latest")) ==
        Ok(AccessResponse(VersionName(parent, OrdinalId(k)), m[parent][k - 1].payload))
  {
    VersionNameRoundTrip(parent, "latest");
    NewestEnabledIsHead(m[parent]);
    EnabledNewestFirstBounds(m[parent]);
    var d := EnabledNewestFirst(m[parent]);
    if d != [] {
      assert m[parent][d[0] - 1].ordinal == d[0];
    }
  }

  /** After an add, and after a whole rotation, "latest" serves the payload just added. */
  lemma LatestAfterSave(m: Store, parent: string, payload: seq<byte>)
    requires ValidStore(m) && parent in m
    ensures AccessResult(m[parent := Appended(m[parent], payload)], VersionName(parent, "latest")) ==
      Ok(AccessResponse(VersionName(parent, OrdinalId(|m[parent]| + 1)), payload))
    ensures AccessResult(m[parent := Rotated(m[parent], payload)], VersionName(parent, "latest")) ==
      Ok(AccessResponse(VersionName(parent, OrdinalId(|m[parent]| + 1)), payload))
  {
    var t := m[parent];
    AppendedEnabled(t, payload);
    AccessLatest(m[parent := Appended(t, payload)], parent);
    RotatedEnabled(t, payload);
    RotationFrame(t, payload);
    AccessLatest(m[parent := Rotated(t, payload)], parent);
  }

  /** The remote service, holding the version tables and the log of calls it received. */
  class Backend {
    var secrets: Store
    var log: seq<Call>

    ghost predicate Valid()
      reads this
    {
      ValidStore(secrets)
    }

    constructor(initial: Store)
      requires ValidStore(initial)
      ensures secrets == initial && log == []
      ensures Valid()
    {
      secrets := initial;
      log := [];
    }

    /** `access_secret_version`: the store is unchanged. */
    method AccessSecretVersion(name: string) returns (r: Result<AccessResponse, Error>)
      modifies this
      ensures r == AccessResult(old(secrets), name)
      ensures secrets == old(secrets)
      ensures log == old(log) + [AccessCall(name)]
    {
      log := log + [AccessCall(name)];
      r := AccessResult(secrets, name);
    }

    /** `add_secret_version`: a new ENABLED version with the next ordinal; NOT_FOUND for an unknown secret. */
    method AddSecretVersion(parent: string, payload: seq<byte>) returns (r: Result<string, Error>)
      requires Valid()
      modifies this
      ensures parent !in old(secrets) ==> r == Err(NotFound) && secrets == old(secrets)
      ensures parent in old(secrets) ==>
        r == Ok(VersionName(parent, OrdinalId(|old(secrets)[parent]| + 1))) &&
        secrets == old(secrets)[parent := Appended(old(secrets)[parent], payload)]
      ensures log == old(log) + [AddCall(parent, payload)]
      ensures Valid()
    {
      log := log + [AddCall(parent, payload)];
      if parent !in secrets {
        r := Err(NotFound);
      } else {
        var t := secrets[parent];
        secrets := secrets[parent := Appended(t, payload)];
        r := Ok(VersionName(parent, OrdinalId(|t| + 1)));
      }
    }

    /** `list_secret_versions`: every version once, in an order the caller may not rely on. */
    method ListSecretVersions(parent: string) returns (r: Result<seq<Listed>, Error>)
      modifies this
      ensures parent !in old(secrets) ==> r == Err(NotFound)
      ensures parent in old(secrets) ==> r.Ok? && multiset(r.value) == multiset(Listing(parent, old(secrets)[parent]))
      ensures secrets == old(secrets)
      ensures log == old(log) + [ListCall(parent)]
    {
      log := log + [ListCall(parent)];
      if parent !in secrets {
        r := Err(NotFound);
      } else {
        r := Ok(Listing(parent, secrets[parent]));
      }
    }

    /** `destroy_secret_version`: on success the store is the one DestroyResult gives; on failure it is unchanged. */
    method DestroySecretVersion(name: string) returns (r: Outcome<Error>)
      requires Valid()
      modifies this
      ensures DestroyResult(old(secrets), name).Ok? ==> r == Pass && secrets == DestroyResult(old(secrets), name).value
      ensures DestroyResult(old(secrets), name).Err? ==> r == Fail(DestroyResult(old(secrets), name).error) && secrets == old(secrets)
      ensures log == old(log) + [DestroyCall(name)]
      ensures Valid()
    {
      log := log + [DestroyCall(name)];
      DestroyKeepsValid(secrets, name);
      match DestroyResult(secrets, name)
      case Err(e) =>
        r := Fail(e);
      case Ok(m) =>
        secrets := m;
        r := Pass;
    }
  }
}
