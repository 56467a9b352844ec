/**
 * Choosing the version to retire from a listing: keep the ENABLED entries, sort them
 * by the key `int(name.split('/')[-1])` in descending order (Python's stable `sorted`
 * with `reverse=True`), and pick the entry at index 1 when there are at least two.
 * The filter, the sort and the pick are stated for any key function, as `sorted`
 * takes one; SelectTarget applies them with the key the source uses.
 */
module Selection {
  import opened Wrappers
  import opened Errors
  import opened ResourceNames

  /** The lifecycle state the service reports for a version. */
  datatype State = StateUnspecified | Enabled | Disabled | Destroyed

  /** One item of a version listing: the version's resource name and state, without payload. */
  datatype Listed = Listed(name: string, state: State)

  /** The generator `(v for v in versions if v.state.name == "ENABLED")`, in listing order. */
  function EnabledOnly(vs: seq<Listed>): seq<Listed>
  {
    if vs == [] then []
    else (if vs[0].state == Enabled then [vs[0]] else []) + EnabledOnly(vs[1..])
  }

  /** Filtering keeps every ENABLED entry as often as it occurs and drops every other one. */
  lemma {:induction false} EnabledOnlyCount(vs: seq<Listed>, x: Listed)
    ensures multiset(EnabledOnly(vs))[x] == if x.state == Enabled then multiset(vs)[x] else 0
  {
    if vs != [] {
      EnabledOnlyCount(vs[1..], x);
      assert vs == [vs[0]] + vs[1..];
    }
  }

  /** An entry survives the filter exactly when it is listed and ENABLED. */
  lemma EnabledOnlyMember(vs: seq<Listed>, x: Listed)
    ensures x in EnabledOnly(vs) <==> x in vs && x.state == Enabled
  {
    EnabledOnlyCount(vs, x);
    assert x in EnabledOnly(vs) <==> x in multiset(EnabledOnly(vs));
    assert x in vs <==> x in multiset(vs);
  }

  /** Filtering a concatenation filters each part. */
  lemma {:induction false} EnabledOnlyConcat(a: seq<Listed>, b: seq<Listed>)
    ensures EnabledOnly(a + b) == EnabledOnly(a) + EnabledOnly(b)
  {
    if a == [] {
      assert a + b == b;
    } else {
      var ab := a + b;
      var head := if a[0].state == Enabled then [a[0]] else [];
      assert ab[0] == a[0];
      assert ab[1..] == a[1..] + b;
      EnabledOnlyConcat(a[1..], b);
      assert EnabledOnly(ab) == head + (EnabledOnly(a[1..]) + EnabledOnly(b));
      assert EnabledOnly(a) == head + EnabledOnly(a[1..]);
    }
  }

  /** The sort key `int(v.name.split('/')[-1])`; None where `int()` raises. */
  function KeyOf(v: Listed): Option<int>
  {
    ParseInt(LastSegment(v.name))
  }

  /** An entry decorated with its sort key, as `sorted` computes each key once. */
  datatype KeyedEntry = KeyedEntry(key: int, entry: Listed)

  /** The keys of all entries, in order; None when the key function fails on any of them. */
  function KeyAll(vs: seq<Listed>, key: Listed -> Option<int>): (r: Option<seq<KeyedEntry>>)
    ensures r.None? <==> exists i | 0 <= i < |vs| :: key(vs[i]).None?
    ensures r.Some? ==> |r.value| == |vs|
    ensures r.Some? ==> forall i | 0 <= i < |vs| :: r.value[i] == KeyedEntry(key(vs[i]).value, vs[i])
  {
    if vs == [] then Some([])
    else match (key(vs[0]), KeyAll(vs[1..], key))
      case (Some(k), Some(rest)) => Some([KeyedEntry(k, vs[0])] + rest)
      case (None, _) => None
      case (_, None) => None
  }

  /** Each decorated entry occurs exactly as often as its entry, when its key is the right one. */
  lemma {:induction false} KeyAllCount(vs: seq<Listed>, key: Listed -> Option<int>, ks: seq<KeyedEntry>, x: KeyedEntry)
    requires KeyAll(vs, key) == Some(ks)
    ensures multiset(ks)[x] == if key(x.entry) == Some(x.key) then multiset(vs)[x.entry] else 0
  {
    if vs != [] {
      assert KeyAll(vs[1..], key) == Some(ks[1..]);
      KeyAllCount(vs[1..], key, ks[1..], x);
      assert ks[0] == KeyedEntry(key(vs[0]).value, vs[0]);
      assert multiset(vs) == multiset{vs[0]} + multiset(vs[1..]) by {
        assert vs == [vs[0]] + vs[1..];
      }
      assert multiset(ks) == multiset{ks[0]} + multiset(ks[1..]) by {
        assert ks == [ks[0]] + ks[1..];
      }
    }
  }

  predicate SortedDesc(ks: seq<KeyedEntry>)
  {
    forall i, j | 0 <= i < j < |ks| :: ks[i].key >= ks[j].key
  }

  /** An entry whose key is at least the head's can go in front of a descending sequence. */
  lemma ConsSorted(k: KeyedEntry, rest: seq<KeyedEntry>)
    requires SortedDesc(rest) && (rest != [] ==> k.key >= rest[0].key)
    ensures SortedDesc([k] + rest)
  {
    var r := [k] + rest;
    forall i, j | 0 <= i < j < |r| ensures r[i].key >= r[j].key {
      assert r[j] == rest[j - 1];
      if i > 0 {
        assert r[i] == rest[i - 1];
      }
    }
  }

  /** Puts x in front of the first entry whose key is not larger, so equal keys keep their order. */
  function Insert(x: KeyedEntry, ks: seq<KeyedEntry>): (r: seq<KeyedEntry>)
    requires SortedDesc(ks)
    ensures SortedDesc(r)
    ensures multiset(r) == multiset(ks) + multiset{x}
    ensures r[0] == x || (ks != [] && r[0] == ks[0])
    decreases |ks|
  {
    if ks == [] || x.key >= ks[0].key then
      ConsSorted(x, ks);
      [x] + ks
    else
      OrderedTail(ks);
      var rest := Insert(x, ks[1..]);
      ConsSorted(ks[0], rest);
      assert ks == [ks[0]] + ks[1..];
      [ks[0]] + rest
  }

  /** `sorted(..., reverse=True)` on decorated entries: a stable insertion sort, largest key first. */
  function SortDesc(ks: seq<KeyedEntry>): (r: seq<KeyedEntry>)
    ensures SortedDesc(r)
    ensures multiset(r) == multiset(ks)
    decreases |ks|
  {
    if ks == [] then []
    else
      assert ks == [ks[0]] + ks[1..];
      Insert(ks[0], SortDesc(ks[1..]))
  }

  /** Keys strictly decrease along the sequence: no two entries share a key. */
  predicate StrictlyDesc(ks: seq<KeyedEntry>)
  {
    forall i, j | 0 <= i < j < |ks| :: ks[i].key > ks[j].key
  }

  /** Dropping the first entry keeps both orders. */
  lemma OrderedTail(ks: seq<KeyedEntry>)
    requires ks != []
    ensures SortedDesc(ks) ==> SortedDesc(ks[1..])
    ensures StrictlyDesc(ks) ==> StrictlyDesc(ks[1..])
  {
    forall p, q | 0 <= p < q < |ks| - 1
      ensures ks[1..][p] == ks[p + 1] && ks[1..][q] == ks[q + 1]
    {
    }
  }

  /** Two arrangements of the same non-empty entries, the first descending and the second with distinct keys decreasing, start with the same entry. */
  lemma SameHead(a: seq<KeyedEntry>, b: seq<KeyedEntry>)
    requires SortedDesc(a) && StrictlyDesc(b)
    requires a != [] && multiset(a) == multiset(b)
    ensures b != [] && a[0] == b[0]
  {
    assert a[0] in multiset(b);
    var i :| 0 <= i < |b| && b[i] == a[0];
    assert b[0] in multiset(a);
    var j :| 0 <= j < |a| && a[j] == b[0];
    assert a[0].key >= b[0].key;
  }

  /**
   * With distinct keys the descending order is unique: any descending arrangement of
   * the same entries is that sequence. This is why the sort's tie rule never matters
   * once the keys are distinct.
   */
  lemma {:induction false} SortedUnique(a: seq<KeyedEntry>, b: seq<KeyedEntry>)
    requires SortedDesc(a) && StrictlyDesc(b)
    requires multiset(a) == multiset(b)
    ensures a == b
    decreases |a|
  {
    assert |a| == |multiset(a)| == |multiset(b)| == |b|;
    if a != [] {
      SameHead(a, b);
      OrderedTail(a);
      OrderedTail(b);
      SameTail(a, b);
      SortedUnique(a[1..], b[1..]);
      assert a == [a[0]] + a[1..];
      assert b == [b[0]] + b[1..];
    }
  }

  /** Removing the same first entry from two arrangements of the same entries leaves arrangements of the same entries. */
  lemma SameTail(a: seq<KeyedEntry>, b: seq<KeyedEntry>)
    requires a != [] && b != [] && a[0] == b[0]
    requires multiset(a) == multiset(b)
    ensures multiset(a[1..]) == multiset(b[1..])
  {
    assert a == [a[0]] + a[1..];
    assert b == [b[0]] + b[1..];
    assert multiset(a[1..]) == multiset(a) - multiset{a[0]};
    assert multiset(b[1..]) == multiset(b) - multiset{b[0]};
  }

  /** Keying succeeds on a listing when it succeeds on another listing with the same entries. */
  lemma KeyAllSameSuccess(vs: seq<Listed>, ws: seq<Listed>, key: Listed -> Option<int>)
    requires multiset(vs) == multiset(ws) && KeyAll(ws, key).Some?
    ensures KeyAll(vs, key).Some?
  {
    forall i | 0 <= i < |vs| ensures key(vs[i]).Some? {
      assert vs[i] in multiset(ws);
      var j :| 0 <= j < |ws| && ws[j] == vs[i];
    }
  }

  /** Keying two listings with the same entries gives the same keyed entries. */
  lemma KeyAllSameEntries(vs: seq<Listed>, ws: seq<Listed>, key: Listed -> Option<int>)
    requires multiset(vs) == multiset(ws) && KeyAll(vs, key).Some? && KeyAll(ws, key).Some?
    ensures multiset(KeyAll(vs, key).value) == multiset(KeyAll(ws, key).value)
  {
    var kv := KeyAll(vs, key).value;
    var kw := KeyAll(ws, key).value;
    forall x ensures multiset(kv)[x] == multiset(kw)[x] {
      KeyAllCount(vs, key, kv, x);
      KeyAllCount(ws, key, kw, x);
    }
  }

  /**
   * Two listings with the same entries, where the second keys without failure into
   * `expected` with distinct keys: the first keys without failure too, and sorting its
   * keyed entries gives exactly `expected`, whatever order the first listing is in.
   */
  lemma SortSameEntries(vs: seq<Listed>, ws: seq<Listed>, key: Listed -> Option<int>, expected: seq<KeyedEntry>)
    requires multiset(vs) == multiset(ws)
    requires KeyAll(ws, key) == Some(expected) && StrictlyDesc(expected)
    ensures KeyAll(vs, key).Some?
    ensures SortDesc(KeyAll(vs, key).value) == expected
  {
    KeyAllSameSuccess(vs, ws, key);
    KeyAllSameEntries(vs, ws, key);
    SortedUnique(SortDesc(KeyAll(vs, key).value), expected);
  }

  /** An entry whose key is above that of index 1 of a descending sequence is the entry at index 0. */
  lemma AboveSecondIsFirst(sorted: seq<KeyedEntry>, x: KeyedEntry)
    requires SortedDesc(sorted) && |sorted| > 1
    requires x in sorted && x.key > sorted[1].key
    ensures x == sorted[0]
  {
  }

  /**
   * Filter, sort by `key` in descending order and pick index 1: Err when the key fails
   * on an ENABLED entry, Ok(None) when fewer than two entries are ENABLED, otherwise
   * the last name segment of the chosen entry.
   */
  function SelectBy(vs: seq<Listed>, key: Listed -> Option<int>): Result<Option<string>, Error>
  {
    match KeyAll(EnabledOnly(vs), key)
    case None => Err(InvalidIntLiteral)
    case Some(keyed) =>
      var sorted := SortDesc(keyed);
      if |sorted| > 1 then Ok(Some(LastSegment(sorted[1].entry.name))) else Ok(None)
  }

  /** The selection in `save_and_cleanup_secret`, with the key `int(v.name.split('/')[-1])`. */
  function SelectTarget(vs: seq<Listed>): Result<Option<string>, Error>
  {
    SelectBy(vs, KeyOf)
  }

  /** The selection fails exactly when the key fails on some ENABLED entry; other entries are never keyed. */
  lemma SelectByFails(vs: seq<Listed>, key: Listed -> Option<int>)
    ensures SelectBy(vs, key).Err? <==> exists i | 0 <= i < |vs| :: vs[i].state == Enabled && key(vs[i]).None?
    ensures SelectBy(vs, key).Err? ==> SelectBy(vs, key).error == InvalidIntLiteral
  {
    var enabled := EnabledOnly(vs);
    if KeyAll(enabled, key).None? {
      var j :| 0 <= j < |enabled| && key(enabled[j]).None?;
      EnabledOnlyMember(vs, enabled[j]);
    } else {
      forall i | 0 <= i < |vs| && vs[i].state == Enabled ensures key(vs[i]).Some? {
        EnabledOnlyMember(vs, vs[i]);
      }
    }
  }

  /** Nothing is chosen exactly when fewer than two entries are ENABLED. */
  lemma SelectByNone(vs: seq<Listed>, key: Listed -> Option<int>)
    requires SelectBy(vs, key).Ok?
    ensures SelectBy(vs, key).value.None? <==> |EnabledOnly(vs)| < 2
  {
    var keyed := KeyAll(EnabledOnly(vs), key).value;
    assert |SortDesc(keyed)| == |multiset(keyed)|;
  }

  /** When no key fails, every ENABLED entry reaches the sorted sequence, decorated with its key. */
  lemma SortedHoldsEnabled(vs: seq<Listed>, key: Listed -> Option<int>, v: Listed)
    requires KeyAll(EnabledOnly(vs), key).Some?
    requires v in vs && v.state == Enabled
    ensures key(v).Some?
    ensures KeyedEntry(key(v).value, v) in SortDesc(KeyAll(EnabledOnly(vs), key).value)
  {
    var enabled := EnabledOnly(vs);
    var keyed := KeyAll(enabled, key).value;
    EnabledOnlyMember(vs, v);
    var j :| 0 <= j < |enabled| && enabled[j] == v;
    assert keyed[j] in multiset(SortDesc(keyed));
  }

  /** The ENABLED entries, keyed and sorted, as `versions_sorted` holds them. */
  function SortedEnabled(vs: seq<Listed>, key: Listed -> Option<int>): seq<KeyedEntry>
    requires KeyAll(EnabledOnly(vs), key).Some?
  {
    SortDesc(KeyAll(EnabledOnly(vs), key).value)
  }

  /** Every entry of the sorted sequence is a listed ENABLED entry, decorated with its own key. */
  lemma SortedIsEnabled(vs: seq<Listed>, key: Listed -> Option<int>, p: nat)
    requires KeyAll(EnabledOnly(vs), key).Some? && p < |SortedEnabled(vs, key)|
    ensures SortedEnabled(vs, key)[p].entry in vs
    ensures SortedEnabled(vs, key)[p].entry.state == Enabled
    ensures key(SortedEnabled(vs, key)[p].entry) == Some(SortedEnabled(vs, key)[p].key)
  {
    var enabled := EnabledOnly(vs);
    var keyed := KeyAll(enabled, key).value;
    var entry := SortedEnabled(vs, key)[p];
    assert entry in multiset(keyed);
    var m :| 0 <= m < |keyed| && keyed[m] == entry;
    EnabledOnlyMember(vs, enabled[m]);
  }

  /** An element that occurs at least twice sits at two distinct positions. */
  lemma TwoPositions(s: seq<Listed>, x: Listed)
    requires multiset(s)[x] >= 2
    ensures exists i, j | 0 <= i < j < |s| :: s[i] == x && s[j] == x
  {
    assert x in multiset(s);
    var i :| 0 <= i < |s| && s[i] == x;
    assert s == s[..i] + [x] + s[i + 1..];
    assert multiset(s) == multiset(s[..i]) + multiset{x} + multiset(s[i + 1..]);
    if x in s[..i] {
      var j :| 0 <= j < i && s[..i][j] == x;
      assert s[j] == x;
    } else {
      assert x in multiset(s[i + 1..]);
      var j :| 0 <= j < |s| - i - 1 && s[i + 1..][j] == x;
      assert s[i + 1 + j] == x;
    }
  }

  /** A sequence whose first two entries are equal holds that entry at least twice. */
  lemma HeadTwice(s: seq<KeyedEntry>)
    requires |s| > 1 && s[0] == s[1]
    ensures multiset(s)[s[0]] >= 2
  {
    assert s == [s[0], s[1]] + s[2..];
  }

  /** A keyed entry that the sorted sequence holds twice is listed twice. */
  lemma RepeatedInSorted(vs: seq<Listed>, key: Listed -> Option<int>, x: KeyedEntry)
    requires KeyAll(EnabledOnly(vs), key).Some?
    requires multiset(SortedEnabled(vs, key))[x] >= 2
    ensures multiset(vs)[x.entry] >= 2
  {
    var enabled := EnabledOnly(vs);
    var keyed := KeyAll(enabled, key).value;
    KeyAllCount(enabled, key, keyed, x);
    EnabledOnlyCount(vs, x.entry);
  }

  /**
   * The first two entries of the sorted sequence come from two distinct positions of
   * the listing, even when the listing repeats an entry.
   */
  lemma FirstTwoPositions(vs: seq<Listed>, key: Listed -> Option<int>)
    requires KeyAll(EnabledOnly(vs), key).Some? && |SortedEnabled(vs, key)| > 1
    ensures exists i, j | 0 <= i < |vs| && 0 <= j < |vs| && i != j ::
      vs[i] == SortedEnabled(vs, key)[1].entry && vs[j] == SortedEnabled(vs, key)[0].entry
  {
    var sorted := SortedEnabled(vs, key);
    var first, second := sorted[0].entry, sorted[1].entry;
    SortedIsEnabled(vs, key, 0);
    SortedIsEnabled(vs, key, 1);
    if first == second {
      SameFirstTwo(vs, key);
    }
    var i, j :| 0 <= i < |vs| && 0 <= j < |vs| && vs[i] == second && vs[j] == first && i != j;
  }

  /** When the first two sorted entries are the same entry, it is listed at two positions. */
  lemma SameFirstTwo(vs: seq<Listed>, key: Listed -> Option<int>)
    requires KeyAll(EnabledOnly(vs), key).Some? && |SortedEnabled(vs, key)| > 1
    requires SortedEnabled(vs, key)[0].entry == SortedEnabled(vs, key)[1].entry
    ensures exists i, j | 0 <= i < j < |vs| ::
      vs[i] == SortedEnabled(vs, key)[0].entry && vs[j] == SortedEnabled(vs, key)[0].entry
  {
    var sorted := SortedEnabled(vs, key);
    var first := sorted[0];
    SortedIsEnabled(vs, key, 0);
    SortedIsEnabled(vs, key, 1);
    assert sorted[1] == first;
    HeadTwice(sorted);
    RepeatedInSorted(vs, key, first);
    TwoPositions(vs, first.entry);
  }

  /** At most one ENABLED listing position has a key above `bound`, and every ENABLED entry has a key. */
  ghost predicate AtMostOneAbove(vs: seq<Listed>, key: Listed -> Option<int>, bound: int)
  {
    forall j, k | 0 <= j < |vs| && 0 <= k < |vs| && vs[j].state == Enabled && vs[k].state == Enabled ::
      key(vs[j]).Some? && key(vs[k]).Some? &&
      (key(vs[j]).value > bound && key(vs[k]).value > bound ==> j == k)
  }

  /**
   * Only one ENABLED listing position can have a key above that of index 1 of the
   * sorted sequence: the position of the first entry, which is listed once when its key
   * is strictly larger.
   */
  lemma OnlyFirstAboveSecond(vs: seq<Listed>, key: Listed -> Option<int>)
    requires KeyAll(EnabledOnly(vs), key).Some? && |SortedEnabled(vs, key)| > 1
    ensures AtMostOneAbove(vs, key, SortedEnabled(vs, key)[1].key)
  {
    var sorted := SortedEnabled(vs, key);
    var limit := sorted[1].key;
    forall j, k | 0 <= j < |vs| && 0 <= k < |vs| && vs[j].state == Enabled && vs[k].state == Enabled
      ensures key(vs[j]).Some? && key(vs[k]).Some? &&
        (key(vs[j]).value > limit && key(vs[k]).value > limit ==> j == k)
    {
      SortedHoldsEnabled(vs, key, vs[j]);
      SortedHoldsEnabled(vs, key, vs[k]);
      if key(vs[j]).value > limit && key(vs[k]).value > limit && j != k {
        AboveSecondIsFirst(sorted, KeyedEntry(key(vs[j]).value, vs[j]));
        AboveSecondIsFirst(sorted, KeyedEntry(key(vs[k]).value, vs[k]));
        var (lo, hi) := if j < k then (j, k) else (k, j);
        TwoPositionsCount(vs, lo, hi);
        TwiceListedTwiceSorted(vs, key, sorted[0]);
        HeadOnce(sorted);
        assert false;
      }
    }
  }

  /** An element at two distinct positions occurs at least twice. */
  lemma TwoPositionsCount(s: seq<Listed>, i: nat, j: nat)
    requires i < j < |s| && s[i] == s[j]
    ensures multiset(s)[s[i]] >= 2
  {
    assert s == s[..j] + [s[j]] + s[j + 1..];
    assert s[..j][i] == s[i];
  }

  /** An ENABLED entry listed twice, with its key, is held twice by the sorted sequence. */
  lemma TwiceListedTwiceSorted(vs: seq<Listed>, key: Listed -> Option<int>, x: KeyedEntry)
    requires KeyAll(EnabledOnly(vs), key).Some?
    requires x.entry.state == Enabled && key(x.entry) == Some(x.key)
    requires multiset(vs)[x.entry] >= 2
    ensures multiset(SortedEnabled(vs, key))[x] >= 2
  {
    var enabled := EnabledOnly(vs);
    var keyed := KeyAll(enabled, key).value;
    EnabledOnlyCount(vs, x.entry);
    KeyAllCount(enabled, key, keyed, x);
  }

  /** When the first key of a descending sequence is strictly the largest, the first entry occurs once. */
  lemma HeadOnce(ks: seq<KeyedEntry>)
    requires SortedDesc(ks) && |ks| > 1 && ks[0].key > ks[1].key
    ensures multiset(ks)[ks[0]] == 1
  {
    assert ks == [ks[0]] + ks[1..];
    forall p | 0 <= p < |ks| - 1 ensures ks[1..][p] != ks[0] {
      assert ks[1..][p] == ks[p + 1];
    }
    assert ks[0] !in ks[1..];
  }

  /**
   * The chosen entry is ENABLED, its key is defined, another ENABLED position of the
   * listing has a key at least as large, and at most one ENABLED position has a larger
   * key: it holds the second-highest key, counting ties. Entries in other states are
   * never chosen, whatever their ids.
   */
  lemma SelectByIsSecondHighest(vs: seq<Listed>, key: Listed -> Option<int>, id: string)
    requires SelectBy(vs, key) == Ok(Some(id))
    ensures exists i, j | 0 <= i < |vs| && 0 <= j < |vs| && i != j ::
      vs[i].state == Enabled && LastSegment(vs[i].name) == id && key(vs[i]).Some? &&
      AtMostOneAbove(vs, key, key(vs[i]).value) &&
      vs[j].state == Enabled && key(vs[j]).Some? && key(vs[j]).value >= key(vs[i]).value
  {
    ChosenIsSecond(vs, key, id);
    var sorted := SortedEnabled(vs, key);
    var first, second := sorted[0], sorted[1];
    SortedIsEnabled(vs, key, 0);
    SortedIsEnabled(vs, key, 1);
    OnlyFirstAboveSecond(vs, key);
    FirstTwoPositions(vs, key);
    var i, j :| 0 <= i < |vs| && 0 <= j < |vs| && i != j && vs[i] == second.entry && vs[j] == first.entry;
    assert first.key >= second.key;
  }

  /** A selected id is the last name segment of index 1 of the sorted ENABLED entries. */
  lemma ChosenIsSecond(vs: seq<Listed>, key: Listed -> Option<int>, id: string)
    requires SelectBy(vs, key) == Ok(Some(id))
    ensures KeyAll(EnabledOnly(vs), key).Some? && |SortedEnabled(vs, key)| > 1
    ensures LastSegment(SortedEnabled(vs, key)[1].entry.name) == id
  {
  }

  /** With the source's key the chosen id parses as an integer, so it is never the alias "latest". */
  lemma SelectTargetParses(vs: seq<Listed>, id: string)
    requires SelectTarget(vs) == Ok(Some(id))
    ensures ParseInt(id).Some? && id != "latest"
  {
    SelectByIsSecondHighest(vs, KeyOf, id);
    ParseIntAccepts("latest");
  }
}
