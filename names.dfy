/**
 * Secret Manager resource names (`projects/{p}/secrets/{s}/versions/{v}`), Python's
 * `name.split('/')[-1]`, Python's `int()` on a version id, and the decimal ids the
 * service gives to version ordinals.
 */
module ResourceNames {
  import opened Wrappers

  const VersionsInfix: string := "/versions/"

  /** `projects/{project}/secrets/{secret}`: the parent of every version of one secret. */
  function ParentName(project: string, secret: string): string
  {
    "projects/" + project + "/secrets/" + secret
  }

  /** `{parent}/versions/{version}`. */
  function VersionName(parent: string, version: string): string
  {
    parent + VersionsInfix + version
  }

  /** Where the last segment of `s` starts: just after its last '/', or 0 when it has none. */
  function SegmentStart(s: string): (k: nat)
    ensures k <= |s|
    ensures k > 0 ==> s[k - 1] == '/'
    ensures forall i | k <= i < |s| :: s[i] != '/'
    decreases |s|
  {
    if s == [] then 0
    else if s[|s| - 1] == '/' then |s|
    else SegmentStart(s[..|s| - 1])
  }

  /** `s.split('/')[-1]`: the part of `s` after its last '/', or all of `s` when it has none. */
  function LastSegment(s: string): (r: string)
    ensures '/' !in r
    ensures |r| <= |s| && r == s[|s| - |r|..]
    ensures |r| < |s| ==> s[|s| - |r| - 1] == '/'
  {
    s[SegmentStart(s)..]
  }

  /** Taking the last segment of a version name gives back the version id. */
  lemma LastSegmentOfVersionName(parent: string, version: string)
    requires '/' !in version
    ensures LastSegment(VersionName(parent, version)) == version
  {
    var name := VersionName(parent, version);
    var start := |name| - |version|;
    var k := SegmentStart(name);
    assert name[start - 1] == '/';
    assert name[start..] == version;
    assert k == start;
  }

  /**
   * How the service reads a version name: the version id is the last segment and it
   * must follow `/versions/`; what precedes that is the parent.
   */
  function ParseVersionName(name: string): (r: Option<(string, string)>)
    ensures r.Some? ==> '/' !in r.value.1 && VersionName(r.value.0, r.value.1) == name
  {
    var version := LastSegment(name);
    var cut := |name| - |version|;
    if cut >= |VersionsInfix| && name[cut - |VersionsInfix|..cut] == VersionsInfix then
      assert name == name[..cut - |VersionsInfix|] + name[cut - |VersionsInfix|..cut] + name[cut..];
      Some((name[..cut - |VersionsInfix|], version))
    else
      None
  }

  /** A version name built from a parent and an id without '/' is read back as that parent and id. */
  lemma VersionNameRoundTrip(parent: string, version: string)
    requires '/' !in version
    ensures ParseVersionName(VersionName(parent, version)) == Some((parent, version))
  {
    var name := VersionName(parent, version);
    LastSegmentOfVersionName(parent, version);
    var cut := |name| - |version|;
    assert name[cut - |VersionsInfix|..cut] == VersionsInfix;
    assert name[..cut - |VersionsInfix|] == parent;
  }

  predicate IsDigit(c: char)
  {
    '0' <= c <= '9'
  }

  /** The value of a string of decimal digits, most significant first; None if any character is not a digit. */
  function DecimalValue(s: string): Option<nat>
    decreases |s|
  {
    if s == [] then Some(0)
    else if !IsDigit(s[|s| - 1]) then None
    else match DecimalValue(s[..|s| - 1])
      case None => None
      case Some(high) => Some(high * 10 + (s[|s| - 1] as int - '0' as int))
  }

  /**
   * Python's `int(s)` on a version id, restricted to ASCII: an optional sign and one or
   * more ASCII digits (leading zeros allowed); None otherwise, which covers every string
   * on which `int()` raises.
   */
  function ParseInt(s: string): Option<int>
  {
    if s == [] then None
    else if s[0] == '-' || s[0] == '+' then
      if |s| == 1 then None
      else match DecimalValue(s[1..])
        case None => None
        case Some(v) => Some(if s[0] == '-' then -(v as int) else v)
    else match DecimalValue(s)
      case None => None
      case Some(v) => Some(v)
  }

  /** A string has a decimal value exactly when all its characters are digits. */
  lemma {:induction false} DecimalValueDefined(s: string)
    ensures DecimalValue(s).Some? <==> forall i | 0 <= i < |s| :: IsDigit(s[i])
    decreases |s|
  {
    if s != [] {
      var init := s[..|s| - 1];
      DecimalValueDefined(init);
      assert forall i | 0 <= i < |init| :: init[i] == s[i];
    }
  }

  /**
   * The model of `int()` accepts exactly an optional sign followed by one or more ASCII
   * digits; anything else, such as "latest" or an empty string, is refused.
   */
  lemma ParseIntAccepts(s: string)
    ensures ParseInt(s).Some? <==>
      |s| > 0 && (IsDigit(s[0]) || (|s| > 1 && (s[0] == '-' || s[0] == '+'))) &&
      forall i | 1 <= i < |s| :: IsDigit(s[i])
  {
    if s != [] {
      DecimalValueDefined(s);
      DecimalValueDefined(s[1..]);
      assert forall i | 1 <= i < |s| :: s[1..][i - 1] == s[i];
    }
  }

  /** The id the service gives the version with ordinal n: n in decimal, no leading zeros. */
  function OrdinalId(n: nat): (r: string)
    ensures |r| > 0 && forall i | 0 <= i < |r| :: IsDigit(r[i])
    ensures |r| > 1 || n > 0 ==> r[0] != '0'
    decreases n
  {
    if n < 10 then [('0' as int + n) as char]
    else OrdinalId(n / 10) + [('0' as int + n % 10) as char]
  }

  /** `int()` reads a service-assigned id back as its ordinal. */
  lemma {:induction false} OrdinalIdRoundTrip(n: nat)
    ensures ParseInt(OrdinalId(n)) == Some(n)
    decreases n
  {
    if n >= 10 {
      OrdinalIdRoundTrip(n / 10);
      var s := OrdinalId(n);
      var high := OrdinalId(n / 10);
      assert s[..|s| - 1] == high;
      assert DecimalValue(high) == Some(n / 10) by {
        assert !(high[0] == '-' || high[0] == '+') by { assert IsDigit(high[0]); }
      }
      assert !(s[0] == '-' || s[0] == '+') by { assert IsDigit(s[0]); }
      assert s[|s| - 1] as int - '0' as int == n % 10;
      assert DecimalValue(s) == Some(n / 10 * 10 + n % 10);
      assert ParseInt(s) == Some(n);
    } else {
      var s := OrdinalId(n);
      assert s[..0] == [];
      assert DecimalValue(s) == Some(n);
    }
  }

  /** A service-assigned id is never the alias "latest" and never contains '/'. */
  lemma OrdinalIdShape(n: nat)
    ensures '/' !in OrdinalId(n)
    ensures OrdinalId(n) != "latest"
  {
    var s := OrdinalId(n);
    assert IsDigit(s[0]);
    forall i | 0 <= i < |s| ensures s[i] != '/' {
      assert IsDigit(s[i]);
    }
  }

  /** Distinct ordinals have distinct ids. */
  lemma OrdinalIdInjective(a: nat, b: nat)
    requires OrdinalId(a) == OrdinalId(b)
    ensures a == b
  {
    OrdinalIdRoundTrip(a);
    OrdinalIdRoundTrip(b);
  }
}
