/**
 * The public helpers of the secrets library: read a secret, save a new version, destroy
 * a version (resolving "latest" first), and the rotate-and-retire workflow with its debug
 * twin. Each resolves the project id, builds resource names, and issues its calls to the
 * Secret Manager in the library's order. A raised exception is an Err or Fail result.
 */
module Secrets {
  import opened Wrappers
  import opened Errors
  import opened ResourceNames
  import opened Selection
  import opened VersionTable
  import opened SecretManager

  /**
   * The project-id default shared by every helper: the argument when given, otherwise the
   * value the metadata lookup returned; ValueError when both are missing.
   */
  function ResolveProjectId(projectId: Option<string>, metadata: Option<string>): (r: Result<string, Error>)
    ensures r.Err? <==> projectId.None? && metadata.None?
    ensures r.Err? ==> r.error == MissingProjectId
    ensures projectId.Some? ==> r == Ok(projectId.value)
    ensures projectId.None? && metadata.Some? ==> r == Ok(metadata.value)
  {
    match projectId
    case Some(p) => Ok(p)
    case None =>
      match metadata
      case Some(p) => Ok(p)
      case None => Err(MissingProjectId)
  }

  /** What `access_secret` makes of the service's answer: the payload, or None for any failure. */
  function PayloadOrNone(answer: Result<AccessResponse, Error>): Option<seq<byte>>
  {
    match answer
    case Ok(response) => Some(response.payload)
    case Err(_) => None
  }

  /**
   * `access_secret`: a missing project id raises, since that check sits before the `try`;
   * every failure of the service inside the `try` becomes None. The store never changes.
   */
  method AccessSecret(b: Backend, secretId: string, projectId: Option<string>, versionId: string, metadata: Option<string>)
    returns (r: Result<Option<seq<byte>>, Error>)
    modifies b
    ensures b.secrets == old(b.secrets)
    ensures ResolveProjectId(projectId, metadata).Err? ==> r == Err(MissingProjectId) && b.log == old(b.log)
    ensures ResolveProjectId(projectId, metadata).Ok? ==>
      var name := VersionName(ParentName(ResolveProjectId(projectId, metadata).value, secretId), versionId);
      r == Ok(PayloadOrNone(AccessResult(old(b.secrets), name))) && b.log == old(b.log) + [AccessCall(name)]
  {
    var project := ResolveProjectId(projectId, metadata);
    if project.Err? {
      return Err(project.error);
    }
    var name := VersionName(ParentName(project.value, secretId), versionId);
    var answer := b.AccessSecretVersion(name);
    r := Ok(PayloadOrNone(answer));
  }

  /** `save_secret`: one add; its failure propagates. */
  method SaveSecret(b: Backend, secretId: string, data: seq<byte>, projectId: Option<string>, metadata: Option<string>)
    returns (r: Outcome<Error>)
    requires b.Valid()
    modifies b
    ensures b.Valid()
    ensures ResolveProjectId(projectId, metadata).Err? ==>
      r == Fail(MissingProjectId) && b.secrets == old(b.secrets) && b.log == old(b.log)
    ensures ResolveProjectId(projectId, metadata).Ok? ==>
      var parent := ParentName(ResolveProjectId(projectId, metadata).value, secretId);
      b.log == old(b.log) + [AddCall(parent, data)] &&
      (parent !in old(b.secrets) ==> r == Fail(NotFound) && b.secrets == old(b.secrets)) &&
      (parent in old(b.secrets) ==>
        r == Pass && b.secrets == old(b.secrets)[parent := Appended(old(b.secrets)[parent], data)])
  {
    var project := ResolveProjectId(projectId, metadata);
    if project.Err? {
      return Fail(project.error);
    }
    var parent := ParentName(project.value, secretId);
    var added := b.AddSecretVersion(parent, data);
    if added.Err? {
      return Fail(added.error);
    }
    r := Pass;
  }

  /** `save_secret_debug`: an add, then a listing of the secret (which the library prints). */
  method SaveSecretDebug(b: Backend, secretId: string, data: seq<byte>, projectId: Option<string>, metadata: Option<string>)
    returns (r: Result<seq<Listed>, Error>)
    requires b.Valid()
    modifies b
    ensures b.Valid()
    ensures ResolveProjectId(projectId, metadata).Err? ==>
      r == Err(MissingProjectId) && b.secrets == old(b.secrets) && b.log == old(b.log)
    ensures ResolveProjectId(projectId, metadata).Ok? ==>
      var parent := ParentName(ResolveProjectId(projectId, metadata).value, secretId);
      (parent !in old(b.secrets) ==>
        r == Err(NotFound) && b.secrets == old(b.secrets) && b.log == old(b.log) + [AddCall(parent, data)]) &&
      (parent in old(b.secrets) ==>
        b.secrets == old(b.secrets)[parent := Appended(old(b.secrets)[parent], data)] &&
        b.log == old(b.log) + [AddCall(parent, data), ListCall(parent)] &&
        r.Ok? && multiset(r.value) == multiset(Listing(parent, b.secrets[parent])))
  {
    var project := ResolveProjectId(projectId, metadata);
    if project.Err? {
      return Err(project.error);
    }
    var parent := ParentName(project.value, secretId);
    var added := b.AddSecretVersion(parent, data);
    if added.Err? {
      return Err(added.error);
    }
    r := b.ListSecretVersions(parent);
  }

  /**
   * The outcome of destroying `name` and the store it leaves: a refused destroy
   * propagates and changes nothing; otherwise the version is destroyed.
   */
  function DestroyEffect(m: Store, name: string): (Outcome<Error>, Store)
  {
    match DestroyResult(m, name)
    case Err(e) => (Fail(e), m)
    case Ok(destroyed) => (Pass, destroyed)
  }

  /**
   * `delete_secret_version`: for "latest", first an access whose failure propagates and
   * whose answer's last name segment becomes the id; then the destroy of that version,
   * whose failure propagates too. A missing project id raises before any call.
   */
  method DeleteSecretVersion(b: Backend, secretId: string, versionId: string, projectId: Option<string>, metadata: Option<string>)
    returns (r: Outcome<Error>)
    requires b.Valid()
    modifies b
    ensures b.Valid()
    ensures ResolveProjectId(projectId, metadata).Err? ==>
      r == Fail(MissingProjectId) && b.secrets == old(b.secrets) && b.log == old(b.log)
    ensures ResolveProjectId(projectId, metadata).Ok? && versionId != "latest" ==>
      var name := VersionName(ParentName(ResolveProjectId(projectId, metadata).value, secretId), versionId);
      b.log == old(b.log) + [DestroyCall(name)] && (r, b.secrets) == DestroyEffect(old(b.secrets), name)
    ensures ResolveProjectId(projectId, metadata).Ok? && versionId == "latest" ==>
      var parent := ParentName(ResolveProjectId(projectId, metadata).value, secretId);
      var latest := VersionName(parent, "latest");
      var answer := AccessResult(old(b.secrets), latest);
      (answer.Err? ==> r == Fail(answer.error) && b.secrets == old(b.secrets) && b.log == old(b.log) + [AccessCall(latest)]) &&
      (answer.Ok? ==>
        var name := VersionName(parent, LastSegment(answer.value.name));
        b.log == old(b.log) + [AccessCall(latest)] + [DestroyCall(name)] &&
        (r, b.secrets) == DestroyEffect(old(b.secrets), name))
  {
    var project := ResolveProjectId(projectId, metadata);
    if project.Err? {
      return Fail(project.error);
    }
    var parent := ParentName(project.value, secretId);
    var id := versionId;
    if id == "latest" {
      var latest := b.AccessSecretVersion(VersionName(parent, "latest"));
      if latest.Err? {
        return Fail(latest.error);
      }
      id := LastSegment(latest.value.name);
    }
    r := b.DestroySecretVersion(VersionName(parent, id));
  }

  /**
   * Deleting "latest" destroys the newest ENABLED version, which leaves the list of
   * ENABLED versions without its head; with no ENABLED version the access fails with
   * NOT_FOUND and nothing is destroyed.
   */
  lemma DeleteLatestDestroysNewest(m: Store, parent: string)
    requires ValidStore(m) && parent in m
    ensures EnabledNewestFirst(m[parent]) == [] ==> AccessResult(m, VersionName(parent, "latest")) == Err(NotFound)
    ensures EnabledNewestFirst(m[parent]) != [] ==>
      var k := EnabledNewestFirst(m[parent])[0];
      var answer := AccessResult(m, VersionName(parent, "latest"));
      answer.Ok? && LastSegment(answer.value.name) == OrdinalId(k) &&
      DestroyEffect(m, VersionName(parent, OrdinalId(k))) == (Pass, m[parent := DestroyedAt(m[parent], k)]) &&
      EnabledNewestFirst(DestroyedAt(m[parent], k)) == EnabledNewestFirst(m[parent])[1..]
  {
    var t := m[parent];
    AccessLatest(m, parent);
    var d := EnabledNewestFirst(t);
    if d != [] {
      var k := d[0];
      OrdinalIdShape(k);
      LastSegmentOfVersionName(parent, OrdinalId(k));
      EnabledNewestFirstMember(t);
      assert t[k - 1].ordinal == k;
      DestroyVersionK(m, parent, k);
      DestroyNewest(t);
    }
  }

  /** The destroy the cleanup issues, if any: that of the retirement target. */
  function RetireCalls(parent: string, t: Table, data: seq<byte>): seq<Call>
  {
    match RetirementTarget(Appended(t, data))
    case None => []
    case Some(k) => [DestroyCall(VersionName(parent, OrdinalId(k)))]
  }

  /** Deleting the selected version by its id succeeds and yields the rotated table. */
  lemma RetireSucceeds(a: Store, parent: string, t: Table, data: seq<byte>)
    requires ValidStore(a) && parent in a && a[parent] == Appended(t, data) && Ordered(t)
    requires RetirementTarget(Appended(t, data)).Some?
    ensures
      var k := RetirementTarget(Appended(t, data)).value;
      OrdinalId(k) != "latest" &&
      RetireCalls(parent, t, data) == [DestroyCall(VersionName(parent, OrdinalId(k)))] &&
      DestroyEffect(a, VersionName(parent, OrdinalId(k))) == (Pass, a[parent := Rotated(t, data)])
  {
    var k := RetirementTarget(Appended(t, data)).value;
    AppendedRetires(t, data);
    OrdinalIdShape(k);
    assert Appended(t, data)[k - 1] == t[k - 1];
    DestroyVersionK(a, parent, k);
  }

  /**
   * The cleanup half of both workflows: list the secret, select the retirement target,
   * and destroy it through `delete_secret_version`. Called right after the add, it always
   * succeeds, leaves the secret as Rotated says, and returns the listing it took and
   * whether a version was destroyed.
   */
  method Cleanup(b: Backend, secretId: string, project: string, ghost t: Table, ghost data: seq<byte>)
    returns (r: Outcome<Error>, versions: seq<Listed>, retired: bool)
    requires b.Valid() && Ordered(t)
    requires ParentName(project, secretId) in b.secrets
    requires b.secrets[ParentName(project, secretId)] == Appended(t, data)
    modifies b
    ensures b.Valid()
    ensures r == Pass
    ensures retired <==> RetirementTarget(Appended(t, data)).Some?
    ensures multiset(versions) == multiset(Listing(ParentName(project, secretId), Appended(t, data)))
    ensures b.secrets == old(b.secrets)[ParentName(project, secretId) := Rotated(t, data)]
    ensures b.log == old(b.log) + [ListCall(ParentName(project, secretId))] + RetireCalls(ParentName(project, secretId), t, data)
  {
    var parent := ParentName(project, secretId);
    var listed := b.ListSecretVersions(parent);
    versions, retired := [], false;
    match listed
    case Err(e) =>
      assert false;
      r := Fail(e);
    case Ok(snapshot) =>
      versions := snapshot;
      SelectOnListing(parent, Appended(t, data), snapshot);
      match SelectTarget(snapshot)
      case Err(e) =>
        assert false;
        r := Fail(e);
      case Ok(None) =>
        r := Pass;
      case Ok(Some(previous)) =>
        RetireSucceeds(b.secrets, parent, t, data);
        r := DeleteSecretVersion(b, secretId, previous, Some(project), None);
        retired := true;
  }

  /**
   * `save_and_cleanup_secret`: add, list, select, destroy at most one version. A missing
   * project id raises before any call; a failed add raises with no further call; otherwise
   * the secret ends up as Rotated says, after exactly the add, the listing and the
   * destroy of the retirement target, in that order.
   */
  method SaveAndCleanupSecret(b: Backend, secretId: string, data: seq<byte>, projectId: Option<string>, metadata: Option<string>)
    returns (r: Outcome<Error>)
    requires b.Valid()
    modifies b
    ensures b.Valid()
    ensures ResolveProjectId(projectId, metadata).Err? ==>
      r == Fail(MissingProjectId) && b.secrets == old(b.secrets) && b.log == old(b.log)
    ensures ResolveProjectId(projectId, metadata).Ok? ==>
      var parent := ParentName(ResolveProjectId(projectId, metadata).value, secretId);
      (parent !in old(b.secrets) ==>
        r == Fail(NotFound) && b.secrets == old(b.secrets) && b.log == old(b.log) + [AddCall(parent, data)]) &&
      (parent in old(b.secrets) ==>
        r == Pass &&
        b.secrets == old(b.secrets)[parent := Rotated(old(b.secrets)[parent], data)] &&
        b.log == old(b.log) + [AddCall(parent, data)] + [ListCall(parent)] + RetireCalls(parent, old(b.secrets)[parent], data))
  {
    var project := ResolveProjectId(projectId, metadata);
    if project.Err? {
      return Fail(project.error);
    }
    var saved := SaveSecret(b, secretId, data, Some(project.value), None);
    if saved.Fail? {
      return saved;
    }
    var parent := ParentName(project.value, secretId);
    var versions, retired;
    r, versions, retired := Cleanup(b, secretId, project.value, old(b.secrets)[parent], data);
  }

  /**
   * `save_and_cleanup_secret_debug`: the same rotation, also returning the listing taken
   * before the cleanup and, when a version was destroyed, the listing taken after it.
   */
  method SaveAndCleanupSecretDebug(b: Backend, secretId: string, data: seq<byte>, projectId: Option<string>, metadata: Option<string>)
    returns (r: Outcome<Error>, before: Option<seq<Listed>>, after: Option<seq<Listed>>)
    requires b.Valid()
    modifies b
    ensures b.Valid()
    ensures ResolveProjectId(projectId, metadata).Err? ==>
      r == Fail(MissingProjectId) && b.secrets == old(b.secrets) && b.log == old(b.log)
    ensures ResolveProjectId(projectId, metadata).Ok? ==>
      var parent := ParentName(ResolveProjectId(projectId, metadata).value, secretId);
      (parent !in old(b.secrets) ==>
        r == Fail(NotFound) && b.secrets == old(b.secrets) && b.log == old(b.log) + [AddCall(parent, data)]) &&
      (parent in old(b.secrets) ==>
        var t := old(b.secrets)[parent];
        var retired := RetirementTarget(Appended(t, data)).Some?;
        r == Pass &&
        b.secrets == old(b.secrets)[parent := Rotated(t, data)] &&
        b.log == old(b.log) + [AddCall(parent, data)] + [ListCall(parent)] + RetireCalls(parent, t, data) +
          (if retired then [ListCall(parent)] else []) &&
        before.Some? && multiset(before.value) == multiset(Listing(parent, Appended(t, data))) &&
        (after.Some? <==> retired) &&
        (after.Some? ==> multiset(after.value) == multiset(Listing(parent, Rotated(t, data)))))
  {
    before, after := None, None;
    var project := ResolveProjectId(projectId, metadata);
    if project.Err? {
      return Fail(project.error), before, after;
    }
    var saved := SaveSecret(b, secretId, data, Some(project.value), None);
    if saved.Fail? {
      return saved, before, after;
    }
    var parent := ParentName(project.value, secretId);
    var versions, retired;
    r, versions, retired := Cleanup(b, secretId, project.value, old(b.secrets)[parent], data);
    before := Some(versions);
    ghost var t := old(b.secrets)[parent];
    ghost var cleaned := old(b.log) + [AddCall(parent, data)] + [ListCall(parent)] + RetireCalls(parent, t, data);
    assert b.log == cleaned;
    if retired {
      assert parent in b.secrets && b.secrets[parent] == Rotated(t, data);
      var listedAfter := b.ListSecretVersions(parent);
      match listedAfter
      case Err(e) =>
        assert false;
        r := Fail(e);
      case Ok(versionsAfter) =>
        after := Some(versionsAfter);
      assert b.log == cleaned + [ListCall(parent)];
    } else {
      assert b.log == cleaned + [];
    }
  }
}
