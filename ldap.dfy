/** The distinguished-name canonicaliser of the directory module: given a
    distinguished name such as `uid=alice,ou=people,dc=example,dc=com`, it
    returns the value of the leading relative distinguished name (`alice`). */
module Ldap {
  import opened JsString

  /** The outcome of canonicalising a distinguished name: the leaf value, or
      the `invalid dn` error. */
  datatype Canonical = Ok(value: string) | InvalidDn

  /** Split on `,`, keep the first piece, split that on `=`, reject when there
      are fewer than two pieces, otherwise return the second piece. */
  function CanonicalizeDn(dn: string): (r: Canonical)
    ensures r.Ok? ==> '=' !in r.value
  {
    var firstPart := Split(Split(dn, ',')[0], '=');
    if |firstPart| < 2 then InvalidDn else Ok(firstPart[1])
  }

  // ---------------------------------------------------------------------------
  // Reference definitions, stated by position rather than by splitting.

  /** The leading relative distinguished name: everything before the first `,`. */
  function LeadingRdn(dn: string): (rdn: string)
    ensures ',' !in rdn
    ensures rdn <= dn
    ensures rdn == dn || dn[|rdn|] == ','
  {
    dn[..IndexOf(dn, ',')]
  }

  /** The text between the first and the second `=` of `rdn`, or from the first
      `=` to the end when there is no second one. */
  function RdnValue(rdn: string): string
    requires '=' in rdn
  {
    var rest := rdn[IndexOf(rdn, '=') + 1..];
    rest[..IndexOf(rest, '=')]
  }

  // ---------------------------------------------------------------------------
  // Properties.

  /** The outcome in terms of the reference definitions: `InvalidDn` exactly when
      the leading component has no `=`, and otherwise the text that follows its
      first `=` up to the next `=` or the end of the component. */
  lemma CanonicalizeDnIsRdnValue(dn: string)
    ensures CanonicalizeDn(dn) ==
      if '=' in LeadingRdn(dn) then Ok(RdnValue(LeadingRdn(dn))) else InvalidDn
  {
    var rdn := LeadingRdn(dn);
    SplitHead(dn, ',');
    if '=' in rdn {
      var rest := rdn[IndexOf(rdn, '=') + 1..];
      SplitTail(rdn, '=');
      SplitHead(rest, '=');
    } else {
      SplitNoSeparator(rdn, '=');
    }
  }

  /** A name fails with `invalid dn` if and only if its leading component
      contains no `=`; in particular the empty name fails. */
  lemma InvalidIffNoEquals(dn: string)
    ensures CanonicalizeDn(dn) == InvalidDn <==> '=' !in LeadingRdn(dn)
    ensures CanonicalizeDn(dn).Ok? <==> '=' in LeadingRdn(dn)
  {
    CanonicalizeDnIsRdnValue(dn);
  }

  /** Only the text before the first `,` matters. */
  lemma LeadingRdnDecides(a: string, b: string)
    requires LeadingRdn(a) == LeadingRdn(b)
    ensures CanonicalizeDn(a) == CanonicalizeDn(b)
  {
    CanonicalizeDnIsRdnValue(a);
    CanonicalizeDnIsRdnValue(b);
  }

  /** Appending further components after a `,` never changes the outcome. */
  lemma AppendComponents(rdn: string, tail: string)
    requires ',' !in rdn
    ensures CanonicalizeDn(rdn + [','] + tail) == CanonicalizeDn(rdn)
  {
    var dn := rdn + [','] + tail;
    assert dn[|rdn|] == ',';
    assert dn[..|rdn|] == rdn;
    IndexOfIs(dn, ',', |rdn|);
    assert rdn[..|rdn|] == rdn;
    LeadingRdnDecides(dn, rdn);
  }

  /** The first `=` of a leading component is the first `=` of the whole name. */
  lemma FirstEqualsInLeadingRdn(dn: string)
    requires '=' in LeadingRdn(dn)
    ensures IndexOf(dn, '=') == IndexOf(LeadingRdn(dn), '=')
  {
    var rdn := LeadingRdn(dn);
    var e := IndexOf(rdn, '=');
    assert dn[..e] == rdn[..e];
    IndexOfIs(dn, '=', e);
  }

  /** `RdnValue` picks the block after the first `=` of the leading component,
      up to the next `,` or `=` or the end of the name. */
  lemma RdnValueIsSubstring(dn: string, e: nat, v: string)
    requires '=' in LeadingRdn(dn)
    requires e == IndexOf(LeadingRdn(dn), '=') && v == RdnValue(LeadingRdn(dn))
    ensures e + 1 + |v| <= |dn| && dn[e + 1..e + 1 + |v|] == v
    ensures e + 1 + |v| == |dn| || dn[e + 1 + |v|] == ',' || dn[e + 1 + |v|] == '='
  {
    var rdn := LeadingRdn(dn);
    var rest := rdn[e + 1..];
    assert rest == dn[e + 1..|rdn|];
    var m := IndexOf(rest, '=');
    assert dn[e + 1..e + 1 + m] == v;
    if m < |rest| {
      assert dn[e + 1 + m] == rest[m];
    }
  }

  /** A successful value is the contiguous block of the name that starts right
      after its first `=` and stops at the next `,` or `=` or at the end; so it
      is at most one character shorter than the name. */
  lemma ValueIsSubstring(dn: string)
    requires CanonicalizeDn(dn).Ok?
    ensures IndexOf(dn, '=') < |dn| && dn[IndexOf(dn, '=')] == '='
    ensures var v, e := CanonicalizeDn(dn).value, IndexOf(dn, '=');
      e + 1 + |v| <= |dn| && dn[e + 1..e + 1 + |v|] == v
    ensures var v, e := CanonicalizeDn(dn).value, IndexOf(dn, '=');
      e + 1 + |v| == |dn| || dn[e + 1 + |v|] == ',' || dn[e + 1 + |v|] == '='
    ensures |CanonicalizeDn(dn).value| <= |dn| - 1
  {
    CanonicalizeDnIsRdnValue(dn);
    FirstEqualsInLeadingRdn(dn);
    RdnValueIsSubstring(dn, IndexOf(dn, '='), CanonicalizeDn(dn).value);
  }

  /** A successful value contains neither `,` nor `=`. */
  lemma ValueHasNoSeparators(dn: string)
    requires CanonicalizeDn(dn).Ok?
    ensures ',' !in CanonicalizeDn(dn).value
    ensures '=' !in CanonicalizeDn(dn).value
  {
    CanonicalizeDnIsRdnValue(dn);
    var rdn := LeadingRdn(dn);
    var v := CanonicalizeDn(dn).value;
    var e := IndexOf(rdn, '=');
    forall k | 0 <= k < |v| ensures v[k] != ',' {
      assert v[k] == rdn[e + 1 + k];
    }
  }

  /** Conversely, a name that starts with `attr=v`, where neither `attr` nor `v`
      holds `,` or `=`, and continues with a `,`, a `=` or nothing, yields `v`. */
  lemma ValueOfRdn(attr: string, v: string, more: string)
    requires ',' !in attr && '=' !in attr && ',' !in v && '=' !in v
    requires more == [] || more[0] == ',' || more[0] == '='
    ensures CanonicalizeDn(attr + ['='] + v + more) == Ok(v)
  {
    var dn := attr + ['='] + v + more;
    var p := |attr| + 1 + |v|;
    assert dn[..p] == attr + ['='] + v;
    var k := IndexOf(dn, ',');
    if k < p {
      assert dn[..p][k] == ',';
    }
    if more != [] && more[0] == ',' {
      assert dn[p] == ',';
      IndexOfIs(dn, ',', p);
    }
    var rdn := LeadingRdn(dn);
    assert rdn[..|attr|] == attr && rdn[|attr|] == '=';
    IndexOfIs(rdn, '=', |attr|);
    var rest := rdn[|attr| + 1..];
    assert rest[..|v|] == v;
    if p < k {
      assert rest[|v|] == dn[p] == '=';
      assert rest[..|v|] == v;
      IndexOfIs(rest, '=', |v|);
    } else {
      assert rest == v;
    }
    CanonicalizeDnIsRdnValue(dn);
  }

  /** A name whose leading component `rdn` has no `=` is rejected. */
  lemma NoEqualsRejected(rdn: string, more: string)
    requires ',' !in rdn && '=' !in rdn
    requires more == [] || more[0] == ','
    ensures CanonicalizeDn(rdn + more) == InvalidDn
  {
    var dn := rdn + more;
    assert dn[..|rdn|] == rdn;
    if more != [] {
      assert dn[|rdn|] == ',';
      IndexOfIs(dn, ',', |rdn|);
    }
    InvalidIffNoEquals(dn);
  }

  // ---------------------------------------------------------------------------
  // Worked cases.

  /** The documented example: the leaf value of a user's name. */
  lemma ExampleUserDn()
    ensures CanonicalizeDn("uid=alice,ou=people,dc=example,dc=com") == Ok("alice")
  {
    assert "uid=alice,ou=people,dc=example,dc=com" == "uid" + ['='] + "alice" + ",ou=people,dc=example,dc=com";
    ValueOfRdn("uid", "alice", ",ou=people,dc=example,dc=com");
  }

  /** A second `=` ends the value. */
  lemma ExampleSecondEquals()
    ensures CanonicalizeDn("cn=a=b,dc=x") == Ok("a")
  {
    assert "cn=a=b,dc=x" == "cn" + ['='] + "a" + "=b,dc=x";
    ValueOfRdn("cn", "a", "=b,dc=x");
  }

  /** An empty value is returned, not rejected. */
  lemma ExampleEmptyValue()
    ensures CanonicalizeDn("cn=,dc=x") == Ok("")
  {
    assert "cn=,dc=x" == "cn" + ['='] + "" + ",dc=x";
    ValueOfRdn("cn", "", ",dc=x");
  }

  /** A leading `=` is accepted; the value is what follows it. */
  lemma ExampleLeadingEquals()
    ensures CanonicalizeDn("=x") == Ok("x")
  {
    assert "=x" == "" + ['='] + "x" + "";
    ValueOfRdn("", "x", "");
  }

  /** A leading component without `=` is rejected, and so is the empty name. */
  lemma ExampleInvalid()
    ensures CanonicalizeDn("noequalsign,dc=com") == InvalidDn
    ensures CanonicalizeDn("") == InvalidDn
  {
    assert "noequalsign,dc=com" == "noequalsign" + ",dc=com";
    NoEqualsRejected("noequalsign", ",dc=com");
    NoEqualsRejected("", "");
  }
}
