/** The registry keys the platforms derive, and why distinct records get distinct keys. */
module Keys {
  import opened Text

  /** `'{}-{}-{}-{}'.format(identity, endpoint, cluster, attribute)`. */
  function AttrKey(identity: string, endpoint: nat, cluster: nat, attribute: nat): string {
    identity + "-" + Decimal(endpoint) + "-" + Decimal(cluster) + "-" + Decimal(attribute)
  }

  /** `'{}-{}-{}'.format(identity, 'switch', endpoint)`. */
  function SwitchKey(identity: string, endpoint: nat): string {
    identity + "-" + "switch" + "-" + Decimal(endpoint)
  }

  /** In `p + "-" + q` with no dash in `q`, the dash after `p` is the last one. */
  lemma LastDashAt(p: string, q: string)
    requires '-' !in q
    ensures (p + "-" + q)[|p|] == '-'
    ensures forall k :: |p| < k < |p + "-" + q| ==> (p + "-" + q)[k] != '-'
  {
    var s := p + "-" + q;
    forall k | |p| < k < |s| ensures s[k] != '-' {
      assert s[k] == q[k - |p| - 1];
    }
  }

  /** A string splits uniquely at its last dash. */
  lemma SplitLastDash(p1: string, q1: string, p2: string, q2: string)
    requires '-' !in q1 && '-' !in q2
    requires p1 + "-" + q1 == p2 + "-" + q2
    ensures p1 == p2 && q1 == q2
  {
    var s := p1 + "-" + q1;
    LastDashAt(p1, q1);
    LastDashAt(p2, q2);
    assert |p1| == |p2|;
    assert p1 == s[..|p1|] == p2;
    assert q1 == s[|p1| + 1..] == q2;
  }

  /** Records with different identity, endpoint, cluster or attribute never share a key. */
  lemma AttrKeyInjective(id1: string, e1: nat, c1: nat, a1: nat, id2: string, e2: nat, c2: nat, a2: nat)
    requires AttrKey(id1, e1, c1, a1) == AttrKey(id2, e2, c2, a2)
    ensures id1 == id2 && e1 == e2 && c1 == c2 && a1 == a2
  {
    SplitLastDash(id1 + "-" + Decimal(e1) + "-" + Decimal(c1), Decimal(a1),
                  id2 + "-" + Decimal(e2) + "-" + Decimal(c2), Decimal(a2));
    SplitLastDash(id1 + "-" + Decimal(e1), Decimal(c1), id2 + "-" + Decimal(e2), Decimal(c2));
    SplitLastDash(id1, Decimal(e1), id2, Decimal(e2));
    DecimalInjective(a1, a2);
    DecimalInjective(c1, c2);
    DecimalInjective(e1, e2);
  }

  /** Different (identity, endpoint) pairs never share a switch key. */
  lemma SwitchKeyInjective(id1: string, e1: nat, id2: string, e2: nat)
    requires SwitchKey(id1, e1) == SwitchKey(id2, e2)
    ensures id1 == id2 && e1 == e2
  {
    SplitLastDash(id1 + "-" + "switch", Decimal(e1), id2 + "-" + "switch", Decimal(e2));
    SplitLastDash(id1, "switch", id2, "switch");
    DecimalInjective(e1, e2);
  }

  /** A switch key never collides with an attribute key in the shared registry. */
  lemma SwitchKeyNotAttrKey(id1: string, e1: nat, id2: string, e2: nat, c2: nat, a2: nat)
    ensures SwitchKey(id1, e1) != AttrKey(id2, e2, c2, a2)
  {
    var digits := Decimal(c2);
    assert IsDigitOf(digits[0], 10);
    if SwitchKey(id1, e1) == AttrKey(id2, e2, c2, a2) {
      SplitLastDash(id1 + "-" + "switch", Decimal(e1), id2 + "-" + Decimal(e2) + "-" + digits, Decimal(a2));
      SplitLastDash(id1, "switch", id2 + "-" + Decimal(e2), digits);
    }
  }
}
