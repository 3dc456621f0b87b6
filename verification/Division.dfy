/** Quotients and remainders of natural numbers. */
module Division {

  lemma ModOfMod(x: nat, v: nat, q: nat)
    requires v > 0 && q > 0
    ensures x % (v * q) % v == x % v
  {
    var t := v * q;
    assert t > 0;
    var a, r := x / t, x % t;
    assert x == t * a + r;
    assert t * a == v * (q * a);
    SameRemainder(r, v, q * a);
  }

  lemma SameRemainder(r: nat, v: nat, a: nat)
    requires v > 0
    ensures (v * a + r) % v == r % v
  {
    var b, s := r / v, r % v;
    assert v * a + r == v * (a + b) + s;
    UniqueRemainder(v * a + r, v, a + b, s);
  }

  lemma UniqueRemainder(x: nat, v: nat, a: nat, s: nat)
    requires v > 0 && s < v && x == v * a + s
    ensures x % v == s
  {
    SameQuotient(v, a, s, x / v, x % v);
  }

  lemma UniqueQuotient(x: nat, v: nat, a: nat, s: nat)
    requires v > 0 && s < v && x == v * a + s
    ensures x / v == a
  {
    SameQuotient(v, a, s, x / v, x % v);
  }

  lemma SameQuotient(v: nat, a: nat, s: nat, b: nat, r: nat)
    requires s < v && r < v && v * a + s == v * b + r
    ensures a == b && s == r
  {
    if a > b {
      AtLeastOnce(v, a - b);
    } else if a < b {
      AtLeastOnce(v, b - a);
    }
  }

  lemma AtLeastOnce(v: nat, k: nat)
    requires k >= 1
    ensures v * k >= v
  {
  }
}
