/** The product version of an inspected instance (a `System.Version`). */
module Versions {
  import opened Text

  /** A version is its numeric components, most significant first. Equality
      is structural, so 8.0 and 8.0.0 are different versions, exactly as for
      `System.Version`. */
  type Version = seq<nat>

  /** The decimal rendering of each component. */
  function ComponentStrings(v: Version): (parts: seq<string>)
    ensures |parts| == |v|
    ensures forall i :: 0 <= i < |v| ==> parts[i] == NatToString(v[i])
  {
    seq(|v|, i requires 0 <= i < |v| => NatToString(v[i]))
  }

  /** `Version.ToString()`: the components in decimal, separated by dots. The
      text is empty only for a version without components, and otherwise
      opens with the most significant component. */
  function FormatVersion(v: Version): (s: string)
    ensures s == "" <==> |v| == 0
    ensures |v| > 0 ==> NatToString(v[0]) <= s
  {
    Join(ComponentStrings(v), '.')
  }

  /** The rendering identifies the version: two versions that print the
      same are the same version. */
  lemma FormatVersionInjective(a: Version, b: Version)
    requires FormatVersion(a) == FormatVersion(b)
    ensures a == b
  {
    if |a| == 0 || |b| == 0 {
      return;
    }
    var pa, pb := ComponentStrings(a), ComponentStrings(b);
    forall i | 0 <= i < |pa|
      ensures Free(pa[i], '.')
    {
      assert AllDigits(NatToString(a[i]));
    }
    forall i | 0 <= i < |pb|
      ensures Free(pb[i], '.')
    {
      assert AllDigits(NatToString(b[i]));
    }
    JoinInjective(pa, pb, '.');
    forall i | 0 <= i < |a|
      ensures a[i] == b[i]
    {
      NatToStringInjective(a[i], b[i]);
    }
  }

  lemma FormatVersionExample()
    ensures FormatVersion([8, 0]) == "8.0"
    ensures FormatVersion([12, 0, 29]) == "12.0.29"
  {
    assert NatToString(12) == "12";
    assert NatToString(29) == "29";
    assert ComponentStrings([12, 0, 29]) == ["12", "0", "29"];
    assert ComponentStrings([8, 0]) == ["8", "0"];
  }
}
