/** src/schnorr.rs: the Schnorr proof of knowledge of a secret key, over an
    abstract group of prime order q whose scalars are the integers modulo q. */
module Schnorr {
  import opened Arith

  /** A cyclic group with its generator `g`, the group operation `add` and the
      scalar multiplication `mul`; scalars are integers taken modulo `order`. */
  datatype Group<!G> = Group(order: nat, generator: G, add: (G, G) -> G, mul: (G, int) -> G)

  /** The laws that make `x -> g·x` a homomorphism from the scalars modulo q
      onto the group: multiplying g·x by y is g·(x·y), and adding g·x to g·y
      is g·(x + y). */
  ghost predicate Laws<G>(grp: Group<G>)
  {
    && grp.order > 0
    && (forall x: int, y: int ::
          grp.mul(grp.mul(grp.generator, x), y) == grp.mul(grp.generator, (x * y) % grp.order))
    && (forall x: int, y: int ::
          grp.add(grp.mul(grp.generator, x), grp.mul(grp.generator, y))
          == grp.mul(grp.generator, (x + y) % grp.order))
  }

  /** In a group of prime order the generator reaches distinct points for
      distinct scalars below q. */
  ghost predicate Faithful<G>(grp: Group<G>)
  {
    forall x: int, y: int ::
      0 <= x < grp.order && 0 <= y < grp.order && grp.mul(grp.generator, x) == grp.mul(grp.generator, y)
      ==> x == y
  }

  /** The scalar-field operations `Fr::add`, `Fr::mul` and `Fr::from_u64`. */
  function FrAdd(q: nat, a: int, b: int): (s: int)
    requires q > 0
    ensures 0 <= s < q
  {
    (a + b) % q
  }

  function FrMul(q: nat, a: int, b: int): (p: int)
    requires q > 0
    ensures 0 <= p < q
  {
    (a * b) % q
  }

  function FrFromU64(q: nat, v: nat): (s: int)
    requires q > 0
    ensures 0 <= s < q
    ensures v < q ==> s == v
  {
    v % q
  }

  /** A transcript (a, c, z): the commitment a = g·r, the challenge c and the
      response z. */
  datatype Schnorr<G> = Schnorr(a: G, c: int, z: int)

  /** `Schnorr::verify`: pk·c + a == g·z. */
  predicate Verify<G(==)>(grp: Group<G>, s: Schnorr<G>, pk: G)
  {
    grp.add(grp.mul(pk, s.c), s.a) == grp.mul(grp.generator, s.z)
  }

  /** `Schnorr::prove`: a = g·r, the challenge is kept, z = r + c·sk. */
  function Prove<G>(grp: Group<G>, sk: int, r: int, c: int): (s: Schnorr<G>)
    requires grp.order > 0
    ensures s.a == grp.mul(grp.generator, r) && s.c == c
    ensures 0 <= s.z < grp.order && s.z == (r + c * sk) % grp.order
  {
    ModAddRight(r, c * sk, grp.order);
    Schnorr(grp.mul(grp.generator, r), c, FrAdd(grp.order, r, FrMul(grp.order, c, sk)))
  }

  /** Completeness: an honest transcript verifies under the matching public key. */
  lemma Completeness<G>(grp: Group<G>, sk: int, r: int, c: int)
    requires Laws(grp)
    ensures Verify(grp, Prove(grp, sk, r, c), grp.mul(grp.generator, sk))
  {
    var q, g := grp.order, grp.generator;
    var s := Prove(grp, sk, r, c);
    calc {
      grp.add(grp.mul(grp.mul(g, sk), c), s.a);
      grp.add(grp.mul(g, (sk * c) % q), grp.mul(g, r));
      grp.mul(g, ((sk * c) % q + r) % q);
      { ModAddLeft(sk * c, r, q); }
      grp.mul(g, (sk * c + r) % q);
      { assert sk * c + r == r + c * sk; }
      grp.mul(g, s.z);
    }
  }

  /** The unit test `test_schnorr`: r = 1337, sk = 42, c = 2137. */
  lemma TestVector<G>(grp: Group<G>)
    requires Laws(grp)
    ensures var q := grp.order;
            Verify(grp, Prove(grp, FrFromU64(q, 42), FrFromU64(q, 1337), FrFromU64(q, 2137)),
                   grp.mul(grp.generator, FrFromU64(q, 42)))
  {
    var q := grp.order;
    Completeness(grp, FrFromU64(q, 42), FrFromU64(q, 1337), FrFromU64(q, 2137));
  }

  /** Verification is not vacuous: in a group of prime order q > 1, changing the
      response of an honest transcript makes it fail. */
  lemma TamperedResponseFails<G>(grp: Group<G>, sk: int, r: int, c: int)
    requires Laws(grp) && Faithful(grp) && grp.order > 1
    ensures var s := Prove(grp, sk, r, c);
            !Verify(grp, Schnorr(s.a, s.c, (s.z + 1) % grp.order), grp.mul(grp.generator, sk))
  {
    var q, g := grp.order, grp.generator;
    var s := Prove(grp, sk, r, c);
    var z' := (s.z + 1) % q;
    Completeness(grp, sk, r, c);
    assert z' != s.z;
  }
}
