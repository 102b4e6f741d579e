/** Shared by every component: a value that may be absent, an operation that may fail, pieces put together. */
module Outcomes {

  datatype Option<+T> = None | Some(value: T)

  /** The program's `AnyResult`: error texts are not part of the model. */
  datatype Result<+T> = Ok(value: T) | Err

  /** The pieces one after another. */
  function Joined<T>(pieces: seq<seq<T>>): seq<T> {
    if pieces == [] then [] else pieces[0] + Joined(pieces[1..])
  }

  lemma {:induction false} JoinedConcat<T>(a: seq<seq<T>>, b: seq<seq<T>>)
    ensures Joined(a + b) == Joined(a) + Joined(b)
    decreases |a|
  {
    if a == [] {
      assert a + b == b;
    } else {
      assert (a + b)[1..] == a[1..] + b;
      JoinedConcat(a[1..], b);
    }
  }

  lemma JoinedNext<T>(pieces: seq<seq<T>>, i: nat)
    requires i < |pieces|
    ensures Joined(pieces[..i + 1]) == Joined(pieces[..i]) + pieces[i]
  {
    assert pieces[..i + 1] == pieces[..i] + [pieces[i]];
    JoinedConcat(pieces[..i], [pieces[i]]);
    assert [pieces[i]][1..] == [];
  }

  // ----- quotients -----

  lemma ProductAtLeast(a: nat, d: nat)
    requires a > 0
    ensures a * d >= d
  {
  }

  lemma QuotientIs(w: nat, d: nat, q: nat, r: nat)
    requires d > 0 && r < d && w == q * d + r
    ensures w / d == q
  {
    assert (w / d - q) * d == r - w % d;
    if w / d > q { ProductAtLeast(w / d - q, d); }
    if w / d < q { ProductAtLeast(q - w / d, d); }
  }

  lemma RemainderIs(w: nat, d: nat, q: nat, r: nat)
    requires d > 0 && r < d && w == q * d + r
    ensures w % d == r
  {
    QuotientIs(w, d, q, r);
    assert w == w / d * d + w % d;
  }

  lemma Divided(w: nat, d: nat) returns (q: nat, r: nat)
    requires d > 0
    ensures w == q * d + r && r < d && r == w % d && q == w / d
  {
    q, r := w / d, w % d;
  }

  lemma Distribute(q: nat, p: nat, r: nat, a: nat)
    ensures (q * p + r) * a == q * (a * p) + r * a
  {
    assert q * p * a == q * (a * p);
  }

  lemma RestBelow(r: nat, p: nat, a: nat, s: nat)
    requires r < p && s < a
    ensures r * a + s < a * p
  {
    ProductAtLeast(p - r, a);
    assert (p - r) * a == p * a - r * a;
  }

  lemma QuotientOfQuotient(w: nat, a: nat, p: nat)
    requires a > 0 && p > 0
    ensures a * p > 0 && w / a / p == w / (a * p)
  {
    var q, r := Divided(w / a, p);
    ProductAtLeast(a, p);
    Distribute(q, p, r, a);
    RestBelow(r, p, a, w % a);
    QuotientIs(w, a * p, q, r * a + w % a);
  }
}
