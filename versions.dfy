/**
 * The version table of one secret, as the Secret Manager keeps it, and the pure
 * specification of one rotation over it: add a version, then retire the version
 * the selection picks from a listing of the table.
 *
 * Assumptions about the service, which the source relies on but does not define:
 * version k (counting from 1) has the id "k", ordinals are handed out in order,
 * a new version starts ENABLED, and no version is ever removed from the table.
 */
module VersionTable {
  import opened Wrappers
  import opened ResourceNames
  import opened Selection

  newtype byte = x: int | 0 <= x < 256

  /** One version: its ordinal, its state and its opaque payload. */
  datatype Version = Version(ordinal: nat, state: State, payload: seq<byte>)

  /** All versions of one secret, oldest first. */
  type Table = seq<Version>

  /** The ordinals are 1, 2, 3, ... in table order. */
  predicate Ordered(t: Table)
  {
    forall i | 0 <= i < |t| :: t[i].ordinal == i + 1
  }

  /** How the service lists one version: its full resource name and its state. */
  function Entry(parent: string, v: Version): Listed
  {
    Listed(VersionName(parent, OrdinalId(v.ordinal)), v.state)
  }

  /** The listing of a table, in table order (the service may return any order). */
  function Listing(parent: string, t: Table): (r: seq<Listed>)
    ensures |r| == |t|
    ensures forall i | 0 <= i < |t| :: r[i] == Entry(parent, t[i])
  {
    seq(|t|, i requires 0 <= i < |t| => Entry(parent, t[i]))
  }

  /** The ordinals of the ENABLED versions, newest first. */
  function EnabledNewestFirst(t: Table): seq<nat>
  {
    if t == [] then []
    else
      var last := t[|t| - 1];
      (if last.state == Enabled then [last.ordinal] else []) + EnabledNewestFirst(t[..|t| - 1])
  }

  predicate Decreasing(d: seq<nat>)
  {
    forall i, j | 0 <= i < j < |d| :: d[i] > d[j]
  }

  /** The ordered table without its newest version is ordered. */
  lemma OrderedInit(t: Table)
    requires Ordered(t) && t != []
    ensures Ordered(t[..|t| - 1])
  {
    var init := t[..|t| - 1];
    forall i | 0 <= i < |init| ensures init[i].ordinal == i + 1 {
      assert init[i] == t[i];
    }
  }

  /** In an ordered table the list is strictly decreasing and holds only ordinals of the table. */
  lemma {:induction false} EnabledNewestFirstBounds(t: Table)
    requires Ordered(t)
    ensures Decreasing(EnabledNewestFirst(t))
    ensures forall i | 0 <= i < |EnabledNewestFirst(t)| :: 1 <= EnabledNewestFirst(t)[i] <= |t|
  {
    if t != [] {
      OrderedInit(t);
      EnabledNewestFirstBounds(t[..|t| - 1]);
    }
  }

  /** No ordinal in the list exceeds the table's length. */
  lemma EnabledNewestFirstAtMost(t: Table, k: nat)
    requires Ordered(t) && k in EnabledNewestFirst(t)
    ensures 1 <= k <= |t|
  {
    EnabledNewestFirstBounds(t);
    var j :| 0 <= j < |EnabledNewestFirst(t)| && EnabledNewestFirst(t)[j] == k;
  }

  /** In an ordered table, a version's ordinal is in the list exactly when the version is ENABLED. */
  lemma {:induction false} EnabledNewestFirstMember(t: Table)
    requires Ordered(t)
    ensures forall i | 0 <= i < |t| :: t[i].ordinal in EnabledNewestFirst(t) <==> t[i].state == Enabled
  {
    if t != [] {
      var init := t[..|t| - 1];
      var last := t[|t| - 1];
      var head := if last.state == Enabled then [last.ordinal] else [];
      assert EnabledNewestFirst(t) == head + EnabledNewestFirst(init);
      OrderedInit(t);
      EnabledNewestFirstMember(init);
      forall i | 0 <= i < |t| ensures t[i].ordinal in EnabledNewestFirst(t) <==> t[i].state == Enabled {
        if i < |init| {
          assert init[i] == t[i];
          assert t[i].ordinal !in head;
        } else if t[i].ordinal in EnabledNewestFirst(init) {
          EnabledNewestFirstAtMost(init, t[i].ordinal);
        }
      }
    }
  }

  /** The version the rotation retires: the second-newest ENABLED one, if there are two. */
  function RetirementTarget(t: Table): Option<nat>
  {
    var d := EnabledNewestFirst(t);
    if |d| > 1 then Some(d[1]) else None
  }

  /** The table after the service adds a version holding `payload`. */
  function Appended(t: Table, payload: seq<byte>): (r: Table)
    ensures Ordered(t) ==> Ordered(r)
  {
    t + [Version(|t| + 1, Enabled, payload)]
  }

  /** The table after the service destroys the version with ordinal k; nothing else changes. */
  function DestroyedAt(t: Table, k: nat): (r: Table)
    ensures |r| == |t|
    ensures forall i | 0 <= i < |t| :: r[i] == if t[i].ordinal == k then t[i].(state := Destroyed) else t[i]
    ensures Ordered(t) ==> Ordered(r)
  {
    seq(|t|, i requires 0 <= i < |t| => if t[i].ordinal == k then t[i].(state := Destroyed) else t[i])
  }

  /** The cleanup step: retire the target, or leave the table alone when there is none. */
  function Cleaned(t: Table): Table
  {
    match RetirementTarget(t)
    case None => t
    case Some(k) => DestroyedAt(t, k)
  }

  /** One full rotation: add, then clean up. */
  function Rotated(t: Table, payload: seq<byte>): Table
  {
    Cleaned(Appended(t, payload))
  }

  /** Rotations one after another, one per payload. */
  function RotatedAll(t: Table, payloads: seq<seq<byte>>): Table
    decreases |payloads|
  {
    if payloads == [] then t else RotatedAll(Rotated(t, payloads[0]), payloads[1..])
  }

  /** The added version is the newest ENABLED one; the others keep their order. */
  lemma AppendedEnabled(t: Table, payload: seq<byte>)
    ensures EnabledNewestFirst(Appended(t, payload)) == [|t| + 1] + EnabledNewestFirst(t)
  {
    assert Appended(t, payload)[..|t|] == t;
  }

  /**
   * After an add, the target is the version that was the newest ENABLED one before the
   * add, never the added version; there is none exactly when no version was ENABLED.
   */
  lemma AppendedRetires(t: Table, payload: seq<byte>)
    requires Ordered(t)
    ensures RetirementTarget(Appended(t, payload)).None? <==> EnabledNewestFirst(t) == []
    ensures RetirementTarget(Appended(t, payload)).Some? ==>
      RetirementTarget(Appended(t, payload)).value == EnabledNewestFirst(t)[0]
    ensures forall k | RetirementTarget(Appended(t, payload)) == Some(k) ::
      k != |t| + 1 && 1 <= k <= |t| && t[k - 1].state == Enabled &&
      forall i | 0 <= i < |t| && t[i].state == Enabled :: t[i].ordinal <= k
  {
    AppendedEnabled(t, payload);
    if EnabledNewestFirst(t) != [] {
      NewestIsMaximal(t);
    }
  }

  /** The head of the ENABLED list is an ENABLED version with the largest ordinal among them. */
  lemma NewestIsMaximal(t: Table)
    requires Ordered(t) && EnabledNewestFirst(t) != []
    ensures 1 <= EnabledNewestFirst(t)[0] <= |t| && t[EnabledNewestFirst(t)[0] - 1].state == Enabled
    ensures forall i | 0 <= i < |t| && t[i].state == Enabled :: t[i].ordinal <= EnabledNewestFirst(t)[0]
  {
    var d := EnabledNewestFirst(t);
    EnabledNewestFirstBounds(t);
    EnabledNewestFirstMember(t);
    var k := d[0];
    assert t[k - 1].ordinal == k;
    forall i | 0 <= i < |t| && t[i].state == Enabled ensures t[i].ordinal <= k {
      var j :| 0 <= j < |d| && d[j] == t[i].ordinal;
    }
  }

  /** Destroying the newest ENABLED version drops it from the front of the list and changes nothing else in it. */
  lemma {:induction false} DestroyNewest(t: Table)
    requires Ordered(t) && EnabledNewestFirst(t) != []
    ensures EnabledNewestFirst(DestroyedAt(t, EnabledNewestFirst(t)[0])) == EnabledNewestFirst(t)[1..]
  {
    var k := EnabledNewestFirst(t)[0];
    var init := t[..|t| - 1];
    var last := t[|t| - 1];
    var r := DestroyedAt(t, k);
    OrderedInit(t);
    EnabledNewestFirstBounds(init);
    assert r[..|r| - 1] == DestroyedAt(init, k);
    if last.state == Enabled {
      assert k == |t|;
      assert forall i | 0 <= i < |init| :: init[i].ordinal != k;
      assert DestroyedAt(init, k) == init;
    } else {
      DestroyNewest(init);
    }
  }

  /** A rotation leaves the added version as the newest ENABLED one and retires the one that was newest before it. */
  lemma RotatedEnabled(t: Table, payload: seq<byte>)
    requires Ordered(t)
    ensures Ordered(Rotated(t, payload)) && |Rotated(t, payload)| == |t| + 1
    ensures EnabledNewestFirst(Rotated(t, payload)) ==
      [|t| + 1] + if EnabledNewestFirst(t) == [] then [] else EnabledNewestFirst(t)[1..]
  {
    var a := Appended(t, payload);
    AppendedEnabled(t, payload);
    if EnabledNewestFirst(t) != [] {
      var k := EnabledNewestFirst(t)[0];
      var r := DestroyedAt(a, k);
      EnabledNewestFirstBounds(t);
      assert r == DestroyedAt(t, k) + [a[|t|]];
      assert r[..|t|] == DestroyedAt(t, k);
      DestroyNewest(t);
    }
  }

  /**
   * What a rotation changes: the added version is last and stays ENABLED; each older
   * version is unchanged except the retirement target, which becomes DESTROYED; with
   * fewer than two ENABLED versions after the add the table is exactly the added one.
   */
  lemma RotationFrame(t: Table, payload: seq<byte>)
    requires Ordered(t)
    ensures |Rotated(t, payload)| == |t| + 1
    ensures Rotated(t, payload)[|t|] == Version(|t| + 1, Enabled, payload)
    ensures forall i | 0 <= i < |t| ::
      Rotated(t, payload)[i] ==
        if RetirementTarget(Appended(t, payload)) == Some(i + 1) then t[i].(state := Destroyed) else t[i]
    ensures RetirementTarget(Appended(t, payload)).None? ==> Rotated(t, payload) == Appended(t, payload)
  {
    AppendedRetires(t, payload);
  }

  /** Repeated rotations: the newest version is the only one guaranteed ENABLED, and the count of ENABLED versions never grows past max(before, 1). */
  lemma {:induction false} RotatedAllEnabled(t: Table, payloads: seq<seq<byte>>)
    requires Ordered(t) && payloads != []
    ensures Ordered(RotatedAll(t, payloads)) && |RotatedAll(t, payloads)| == |t| + |payloads|
    ensures EnabledNewestFirst(RotatedAll(t, payloads)) != []
    ensures EnabledNewestFirst(RotatedAll(t, payloads))[0] == |t| + |payloads|
    ensures |EnabledNewestFirst(RotatedAll(t, payloads))| ==
      if |EnabledNewestFirst(t)| > 1 then |EnabledNewestFirst(t)| else 1
    decreases |payloads|
  {
    var t1 := Rotated(t, payloads[0]);
    RotatedEnabled(t, payloads[0]);
    if |payloads| > 1 {
      RotatedAllEnabled(t1, payloads[1..]);
    }
  }

  /**
   * From a secret with no ENABLED version (a fresh secret, for one), any number of
   * rotations leaves exactly one ENABLED version: the newest.
   */
  lemma FreshRotations(t: Table, payloads: seq<seq<byte>>)
    requires Ordered(t) && EnabledNewestFirst(t) == [] && payloads != []
    ensures EnabledNewestFirst(RotatedAll(t, payloads)) == [|t| + |payloads|]
  {
    RotatedAllEnabled(t, payloads);
    var d := EnabledNewestFirst(RotatedAll(t, payloads));
    assert d == [d[0]];
  }

  /** The listing entries of the ENABLED ordinals d, in the order of d. */
  function EnabledEntries(parent: string, d: seq<nat>): (r: seq<Listed>)
    ensures |r| == |d|
    ensures forall i | 0 <= i < |d| :: r[i] == Listed(VersionName(parent, OrdinalId(d[i])), Enabled)
  {
    seq(|d|, i requires 0 <= i < |d| => Listed(VersionName(parent, OrdinalId(d[i])), Enabled))
  }

  /** The listing of a table is the listing without the newest version, then that version's entry. */
  lemma ListingSnoc(parent: string, t: Table)
    requires t != []
    ensures Listing(parent, t) == Listing(parent, t[..|t| - 1]) + [Entry(parent, t[|t| - 1])]
  {
    var init := t[..|t| - 1];
    assert forall i | 0 <= i < |init| :: init[i] == t[i];
  }

  /** The entries of a concatenation of ordinal lists are the concatenated entries. */
  lemma EnabledEntriesConcat(parent: string, d: seq<nat>, e: seq<nat>)
    ensures EnabledEntries(parent, d + e) == EnabledEntries(parent, d) + EnabledEntries(parent, e)
  {
    var de := d + e;
    assert forall i | |d| <= i < |de| :: de[i] == e[i - |d|];
  }

  /** The ENABLED entries of a listing are those of the ENABLED ordinals, as a multiset. */
  lemma {:induction false} ListingEnabled(parent: string, t: Table)
    ensures multiset(EnabledOnly(Listing(parent, t))) == multiset(EnabledEntries(parent, EnabledNewestFirst(t)))
  {
    if t != [] {
      var init := t[..|t| - 1];
      var last := t[|t| - 1];
      var e := Entry(parent, last);
      var newest := if last.state == Enabled then [last.ordinal] else [];
      ListingSnoc(parent, t);
      EnabledOnlyConcat(Listing(parent, init), [e]);
      assert EnabledOnly([e]) == if last.state == Enabled then [e] else [] by {
        assert [e][1..] == [];
      }
      ListingEnabled(parent, init);
      EnabledEntriesConcat(parent, newest, EnabledNewestFirst(init));
      assert EnabledEntries(parent, newest) == EnabledOnly([e]);
    }
  }

  /** Whatever order a listing comes in, its ENABLED entries are those of the ENABLED ordinals. */
  lemma EnabledSnapshot(parent: string, t: Table, snapshot: seq<Listed>)
    requires multiset(snapshot) == multiset(Listing(parent, t))
    ensures multiset(EnabledOnly(snapshot)) == multiset(EnabledEntries(parent, EnabledNewestFirst(t)))
  {
    var listed := Listing(parent, t);
    ListingEnabled(parent, t);
    forall x ensures multiset(EnabledOnly(snapshot))[x] == multiset(EnabledOnly(listed))[x] {
      EnabledOnlyCount(snapshot, x);
      EnabledOnlyCount(listed, x);
    }
  }

  /** The key of the entry of ordinal k is k: the last name segment is the id, and the id parses back. */
  lemma KeyOfEntry(parent: string, k: nat)
    ensures KeyOf(Listed(VersionName(parent, OrdinalId(k)), Enabled)) == Some(k)
  {
    OrdinalIdShape(k);
    LastSegmentOfVersionName(parent, OrdinalId(k));
    OrdinalIdRoundTrip(k);
  }

  /** Keying the ENABLED entries never fails, and their keys are the ordinals, strictly decreasing. */
  lemma KeyedEnabled(parent: string, d: seq<nat>) returns (keyed: seq<KeyedEntry>)
    requires Decreasing(d)
    ensures KeyAll(EnabledEntries(parent, d), KeyOf) == Some(keyed)
    ensures StrictlyDesc(keyed)
    ensures |keyed| == |d|
    ensures forall i | 0 <= i < |d| :: keyed[i] == KeyedEntry(d[i], EnabledEntries(parent, d)[i])
  {
    var entries := EnabledEntries(parent, d);
    forall i | 0 <= i < |d| ensures KeyOf(entries[i]) == Some(d[i]) {
      KeyOfEntry(parent, d[i]);
    }
    keyed := KeyAll(entries, KeyOf).value;
  }

  /**
   * The selection of `save_and_cleanup_secret`, applied to a listing of an ordered table
   * in ANY order, picks exactly the id of RetirementTarget, and never fails: every id
   * the service hands out parses as an integer.
   */
  lemma SelectOnListing(parent: string, t: Table, snapshot: seq<Listed>)
    requires Ordered(t)
    requires multiset(snapshot) == multiset(Listing(parent, t))
    ensures SelectTarget(snapshot) ==
      match RetirementTarget(t)
      case None => Ok(None)
      case Some(k) => Ok(Some(OrdinalId(k)))
  {
    var d := EnabledNewestFirst(t);
    EnabledNewestFirstBounds(t);
    var entries := EnabledEntries(parent, d);
    EnabledSnapshot(parent, t, snapshot);
    var expected := KeyedEnabled(parent, d);
    SortSameEntries(EnabledOnly(snapshot), entries, KeyOf, expected);
    if |d| > 1 {
      OrdinalIdShape(d[1]);
      LastSegmentOfVersionName(parent, OrdinalId(d[1]));
    }
  }

  /** Nine versions of which 5, 7 and 9 are ENABLED; the others are DESTROYED or DISABLED. */
  function ExampleTable(): (t: Table)
    ensures Ordered(t)
  {
    [Version(1, Destroyed, []), Version(2, Destroyed, []), Version(3, Disabled, []),
     Version(4, Destroyed, []), Version(5, Enabled, []), Version(6, Disabled, []),
     Version(7, Enabled, []), Version(8, Destroyed, []), Version(9, Enabled, [])]
  }

  /**
   * With ENABLED ordinals {5, 7, 9} and a new version 10, the listing in any order
   * selects "9": the second-highest, not 5 or 7.
   */
  lemma ExampleTarget(snapshot: seq<Listed>)
    requires multiset(snapshot) == multiset(Listing("projects/p/secrets/s", Appended(ExampleTable(), [42])))
    ensures SelectTarget(snapshot) == Ok(Some("9"))
  {
    var t := ExampleTable();
    assert EnabledNewestFirst(t)[0] == 9;
    AppendedRetires(t, [42]);
    SelectOnListing("projects/p/secrets/s", Appended(t, [42]), snapshot);
  }
}
