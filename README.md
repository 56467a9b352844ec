# Secret rotation helpers for Google Secret Manager

This project models the secrets module of a small Google Cloud helper library. The
module reads a secret, saves a new version of it, destroys a version (resolving the
alias `latest` first), and rotates a secret. A rotation adds a new version, lists all
versions, sorts the ENABLED ones by their numeric id from newest to oldest, and destroys
the second one. That leaves the new version as the only one of the last two that is
still ENABLED.

The Secret Manager service is modelled as a class `SecretManager.Backend`. It holds one
version table per secret resource name (`projects/{p}/secrets/{s}`) and logs every
call it receives, so the order of calls in a workflow is part of each method's
contract. The library's helpers are methods of module `Secrets` that take the backend as a parameter. A Python exception becomes an
`Err`/`Fail` result. The project-id lookup in the instance metadata is an
`Option<string>` parameter.

Modules, one file each:

- `Wrappers` (wrappers.dfy): `Option`, `Result`, `Outcome`.
- `Errors` (errors.dfy): the failures the helpers can report.
- `ResourceNames` (names.dfy): resource-name formatting, `name.split('/')[-1]`, `int()` on an id, and decimal version ids.
- `Selection` (selection.dfy): the ENABLED filter, the stable descending sort and the index-1 pick.
- `VersionTable` (versions.dfy): a secret's versions and the pure specification of one rotation (`Rotated`). It also holds the bridge lemma that connects a listing in any order to that specification.
- `SecretManager` (backend.dfy): the service as the client sees it.
- `Secrets` (secrets.dfy): the public helpers.

The service's own behaviour is not in the library. The model assumes the following:

- version k has the id `"k"`;
- a new version is ENABLED and gets the next ordinal;
- `latest` resolves to the newest ENABLED version, and only access accepts it;
- access to a version that is not ENABLED fails;
- destroying an already DESTROYED version fails;
- a listing may come back in any order.

## Model

| member | source | states |
|---|---|---|
| ResourceNames.LastSegmentOfVersionName | google_api_lib/secrets.py:82 | `split('/')[-1]` of `{parent}/versions/{id}` gives back `id` whenever the id holds no '/' |
| ResourceNames.ParentName | google_api_lib/secrets.py:32 | definition: the parent name `projects/{project}/secrets/{secret}` (also built at line 104) |
| ResourceNames.VersionName | google_api_lib/secrets.py:15 | definition: the version name `{parent}/versions/{version}` (also built at lines 80 and 85) |
| ResourceNames.LastSegment | google_api_lib/secrets.py:82 | `split('/')[-1]`: a suffix of the name with no '/', preceded by a '/' unless it is the whole name (also at lines 110 and 115) |
| ResourceNames.ParseInt | google_api_lib/secrets.py:110 | definition: `int()` on ASCII input, an optional sign then decimal digits; None where the model refuses |
| ResourceNames.SegmentStart | google_api_lib/secrets.py:110 | the cut point of `split('/')[-1]`: just after the last '/', with no '/' after it, or 0 when there is none |
| ResourceNames.ParseVersionName | google_api_lib/secrets.py:15 | a name the service accepts is exactly `VersionName(parent, id)` for an id without '/' |
| ResourceNames.VersionNameRoundTrip | google_api_lib/secrets.py:80-85 | the name built from a parent and an id is read back as that parent and that id |
| ResourceNames.DecimalValueDefined | google_api_lib/secrets.py:110 | a string has a decimal value exactly when every character is a digit |
| ResourceNames.ParseIntAccepts | google_api_lib/secrets.py:110 | the model of `int()` succeeds exactly on an optional sign followed by one or more ASCII digits, so not on `latest` or an empty string |
| ResourceNames.OrdinalId | google_api_lib/secrets.py:110 | a service-assigned id is non-empty, all digits, and has no leading zero |
| ResourceNames.OrdinalIdRoundTrip | google_api_lib/secrets.py:110 | `int()` of the id of ordinal n is n |
| ResourceNames.OrdinalIdShape | google_api_lib/secrets.py:79 | a service-assigned id is never `latest` and holds no '/' |
| ResourceNames.OrdinalIdInjective | google_api_lib/secrets.py:85 | distinct ordinals have distinct ids |
| Selection.EnabledOnly | google_api_lib/secrets.py:109 | definition: the generator keeping the ENABLED entries in listing order |
| Selection.KeyOf | google_api_lib/secrets.py:110 | definition: the sort key `int(v.name.split('/')[-1])`, None where it raises |
| Selection.EnabledOnlyCount | google_api_lib/secrets.py:109 | the filter keeps every ENABLED entry as often as it is listed and drops every other entry |
| Selection.EnabledOnlyMember | google_api_lib/secrets.py:109 | an entry survives the filter if and only if it is listed and ENABLED |
| Selection.EnabledOnlyConcat | google_api_lib/secrets.py:109 | the filter distributes over concatenation |
| Selection.KeyAll | google_api_lib/secrets.py:110 | decorating with the key fails if and only if the key fails on some entry; otherwise entry i gets its own key |
| Selection.KeyAllCount | google_api_lib/secrets.py:110 | each decorated entry occurs as often as its entry, when its key is the right one |
| Selection.Insert | google_api_lib/secrets.py:108-112 | inserting into a descending sequence keeps it descending and adds exactly one entry |
| Selection.SortDesc | google_api_lib/secrets.py:108-112 | `sorted(..., reverse=True)` yields a descending permutation of its input |
| Selection.SortedUnique | google_api_lib/secrets.py:108-112 | with distinct keys, any descending arrangement of the same entries is the same sequence, so the result does not depend on listing order |
| Selection.SortSameEntries | google_api_lib/secrets.py:105-112 | two listings with the same entries sort to the same sequence when the keys are distinct |
| Selection.SelectByFails | google_api_lib/secrets.py:108-112 | the selection raises if and only if `int()` fails on the id of an ENABLED entry; ids of other entries are never parsed |
| Selection.SelectByNone | google_api_lib/secrets.py:114-120 | nothing is selected if and only if fewer than two entries are ENABLED |
| Selection.SortedHoldsEnabled | google_api_lib/secrets.py:108-112 | every ENABLED entry reaches `versions_sorted` with its key |
| Selection.SortedIsEnabled | google_api_lib/secrets.py:108-115 | every entry of `versions_sorted`, index 1 among them, is a listed ENABLED entry carrying its own key |
| Selection.FirstTwoPositions | google_api_lib/secrets.py:108-115 | `versions_sorted[0]` and `versions_sorted[1]` come from two distinct positions of the listing, even when it repeats an entry |
| Selection.OnlyFirstAboveSecond | google_api_lib/secrets.py:108-115 | at most one ENABLED listing position has a key above that of `versions_sorted[1]`, even when the listing repeats an entry |
| Selection.SelectBy | google_api_lib/secrets.py:108-115 | definition: filter, key, sort descending and take the last name segment of index 1; its properties are the lemmas below |
| Selection.SelectTarget | google_api_lib/secrets.py:108-115 | definition: SelectBy with the source's key KeyOf |
| Selection.SelectByIsSecondHighest | google_api_lib/secrets.py:108-115 | the chosen id is that of an ENABLED listing position whose key is matched or exceeded by another ENABLED position and exceeded by at most one ENABLED position: the second-highest key, counting ties; a non-ENABLED entry is never chosen |
| Selection.SelectTargetParses | google_api_lib/secrets.py:110-118 | the chosen id parses as an integer and so is never `latest`; `delete_secret_version` then skips its access |
| VersionTable.Listing | google_api_lib/secrets.py:105 | a listing holds one entry per version, with its full name and state |
| VersionTable.EnabledNewestFirstBounds | google_api_lib/secrets.py:109-111 | the ENABLED ordinals, newest first, strictly decrease and lie in 1..\|t\| |
| VersionTable.EnabledNewestFirstMember | google_api_lib/secrets.py:109 | an ordinal is in that list if and only if its version is ENABLED |
| VersionTable.Appended | google_api_lib/secrets.py:36-38 | adding a version keeps ordinals equal to positions |
| VersionTable.DestroyedAt | google_api_lib/secrets.py:86 | a destroy marks version k DESTROYED and changes nothing else |
| VersionTable.AppendedEnabled | google_api_lib/secrets.py:100 | after an add, the new version is the newest ENABLED one and the others keep their order |
| VersionTable.NewestIsMaximal | google_api_lib/secrets.py:108-112 | the head of the ENABLED list is an ENABLED version with the largest ordinal |
| VersionTable.AppendedRetires | google_api_lib/secrets.py:100-118 | after the add, the version to retire is the previously newest ENABLED one, never the added version; there is none exactly when no version was ENABLED |
| VersionTable.DestroyNewest | google_api_lib/secrets.py:118 | destroying the newest ENABLED version removes exactly the head of the ENABLED list |
| VersionTable.RotatedEnabled | google_api_lib/secrets.py:92-124 | after a rotation the ENABLED versions are the new one followed by the old ones minus the previously newest |
| VersionTable.RotationFrame | google_api_lib/secrets.py:92-124 | a rotation keeps the new version ENABLED and makes only the retired version DESTROYED; with nothing to retire, the table is just the add |
| VersionTable.RotatedAllEnabled | google_api_lib/secrets.py:92-124 | over repeated rotations the newest version is ENABLED and the ENABLED count becomes max(before, 1) |
| VersionTable.FreshRotations | google_api_lib/secrets.py:92-124 | starting with no ENABLED version, any number of rotations leaves exactly the newest one ENABLED |
| VersionTable.ListingEnabled | google_api_lib/secrets.py:105-109 | the ENABLED entries of a listing are those of the ENABLED ordinals |
| VersionTable.EnabledSnapshot | google_api_lib/secrets.py:105-109 | the same holds for a listing in any order |
| VersionTable.KeyOfEntry | google_api_lib/secrets.py:110 | the sort key of the entry of version k is k |
| VersionTable.KeyedEnabled | google_api_lib/secrets.py:110 | keying the ENABLED entries never fails, and their keys are the ordinals, strictly decreasing |
| VersionTable.SelectOnListing | google_api_lib/secrets.py:105-115 | on a listing in any order, the selection never fails and picks exactly the id of the retirement target |
| VersionTable.ExampleTarget | google_api_lib/secrets.py:108-115 | with versions 5, 7, 9 ENABLED and 10 just added, version 9 is selected |
| SecretManager.AccessResult | google_api_lib/secrets.py:17 | definition: the service's answer to an access, InvalidArgument, NotFound or FailedPrecondition, else the canonical name and payload (also called at line 81) |
| SecretManager.DestroyResult | google_api_lib/secrets.py:86 | definition: the service's answer to a destroy, InvalidArgument, NotFound or FailedPrecondition, else the store with that version DESTROYED |
| SecretManager.VersionIndex | google_api_lib/secrets.py:85-86 | a found position holds the requested id; when nothing is found, no version has that id |
| SecretManager.VersionIndexOfOrdinal | google_api_lib/secrets.py:85-86 | in a table the id of ordinal k is found at position k-1 exactly when 1 <= k <= \|t\| |
| SecretManager.NewestEnabledIndex | google_api_lib/secrets.py:80-81 | `latest` names an ENABLED version with no ENABLED version after it, or none when no version is ENABLED |
| SecretManager.NewestEnabledIsHead | google_api_lib/secrets.py:80-81 | `latest` is the head of the ENABLED list |
| SecretManager.DestroyVersionK | google_api_lib/secrets.py:85-86 | destroying version k succeeds if and only if it exists and is not DESTROYED, and then changes only that version |
| SecretManager.AccessLatest | google_api_lib/secrets.py:80-82 | access through `latest` serves the newest ENABLED version, and fails with NOT_FOUND when none exists |
| SecretManager.LatestAfterSave | google_api_lib/secrets.py:6-20 | after a save, and after a rotation, reading `latest` gives the payload just saved |
| SecretManager.Backend.constructor | google_api_lib/secrets.py:14 | a new client sees the given store and has received no call |
| SecretManager.Backend.AccessSecretVersion | google_api_lib/secrets.py:17 | access answers as AccessResult, changes nothing and logs the call |
| SecretManager.Backend.AddSecretVersion | google_api_lib/secrets.py:36-38 | an add appends an ENABLED version with the next ordinal and returns its name; NOT_FOUND for an unknown secret |
| SecretManager.Backend.ListSecretVersions | google_api_lib/secrets.py:105 | a listing holds every version exactly once, in some order |
| SecretManager.Backend.DestroySecretVersion | google_api_lib/secrets.py:86 | a destroy changes the store as DestroyResult says, or not at all when it is refused |
| Secrets.ResolveProjectId | google_api_lib/secrets.py:8-11 | the argument wins, then the metadata value; ValueError if and only if both are missing |
| Secrets.PayloadOrNone | google_api_lib/secrets.py:17-23 | definition: the payload of a successful access, None for any failure |
| Secrets.AccessSecret | google_api_lib/secrets.py:6-23 | a missing project raises before any call; otherwise one access of `{parent}/versions/{version_id}`, with every service failure turned into None |
| Secrets.SaveSecret | google_api_lib/secrets.py:25-42 | a missing project raises before any call; otherwise exactly one add, whose failure propagates |
| Secrets.SaveSecretDebug | google_api_lib/secrets.py:44-67 | the add, then a listing of the new table; a failed add is followed by no call |
| Secrets.DeleteSecretVersion | google_api_lib/secrets.py:69-90 | for an explicit id, one destroy; for `latest`, an access whose failure propagates, then the destroy of the id taken from the answer's last name segment |
| Secrets.DeleteLatestDestroysNewest | google_api_lib/secrets.py:79-86 | deleting `latest` destroys the newest ENABLED version and removes exactly the head of the ENABLED list |
| Secrets.RetireSucceeds | google_api_lib/secrets.py:114-118 | the destroy of the selected id succeeds and yields the rotated table |
| Secrets.Cleanup | google_api_lib/secrets.py:103-120 | right after the add, the listing and selection never fail; at most one destroy follows, and the secret ends as `Rotated` |
| Secrets.SaveAndCleanupSecret | google_api_lib/secrets.py:92-124 | a missing project raises before any call; a failed add raises with no further call; otherwise add, then list, then at most one destroy, in that order, leaving the table `Rotated` |
| Secrets.SaveAndCleanupSecretDebug | google_api_lib/secrets.py:126-166 | the same rotation; it returns the listing from before the cleanup and, only when a version was destroyed, a second listing of the rotated table |

## Left out

- google_api_lib/auth.py, drive.py and the package set-up are not part of this model. The project-id lookup (`get_project_metadata`) is an `Option<string>` parameter.
- Printing is left out. The debug helpers return the listings they would print instead.
- UTF-8 encoding and decoding are left out. Payloads are byte sequences on both sides, so a payload that is not valid UTF-8 does not make `access_secret` return None.
- Credentials, transport and transient errors (permission denied, deadline, unavailable) are left out. So are the client object itself, paging of listings, and concurrent writers to the same secret.
- ResourceNames.ParseInt: does not accept the surrounding whitespace, the `_` digit separators or the non-ASCII Unicode decimal digits (such as `'٣'` or full-width `'１２'`) that Python's `int()` also accepts. Ids the service assigns are plain ASCII digits.
- Secrets.SaveAndCleanupSecret: does not model an `int()` failure after the add. With service-assigned ids this case cannot happen (VersionTable.SelectOnListing). Failure on a non-integer id is proved only for the selection itself (Selection.SelectByFails).
- Secrets.Cleanup: a failed listing or destroy after a successful add is not modelled as a raise. Under the service assumptions above neither can happen, and the model proves those branches unreachable.
- A rotation leaves max(previous ENABLED count, 1) versions ENABLED, not always two. The model follows the code (VersionTable.RotatedAllEnabled).
- The service's refusal of an empty payload is left out. The library does not check for it.
