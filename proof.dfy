/** src/proof.rs: the Fischlin-style non-interactive proof. Each base proof is
    a Schnorr transcript whose challenge c is mined so that the XOR of eight
    partial hashes passes the proof-of-work test; the challenge also selects,
    through `derive_indices`, which data chunks and KZG openings the proof
    carries. */
module Proof {
  import opened Results
  import opened Util
  import opened Arith
  import opened Types
  import opened Hashing
  import opened Commitment
  import Schnorr

  /** Bits of proof of work (the constant is named for bytes but `pow_pass` counts bits). */
  const BYTE_DIFFICULTY: nat := 2

  /** `u16::MAX`: challenges 0..MAXC are tried. */
  const MAXC: nat := 65535

  /** Indices derived per base proof; `prove` converts the selected chunks into
      `[u64; M]` with `try_into().unwrap()`, so the array length M is 8 too. */
  const M: nat := 8

  datatype BaseProof<G> = BaseProof(schnorr: Schnorr.Schnorr<G>, data: seq<U64>, openings: seq<G>)

  predicate WellFormed<G>(bp: BaseProof<G>)
  {
    |bp.data| == M && |bp.openings| == M
  }

  datatype Proof<G> = Proof(baseProofs: seq<BaseProof<G>>)

  predicate AllWellFormed<G>(proof: Proof<G>)
  {
    forall i :: 0 <= i < |proof.baseProofs| ==> WellFormed(proof.baseProofs[i])
  }

  // ---------------------------------------------------------------------------
  // The proof-of-work accumulator

  /** `hash = bitxor(hash, partial)` over `hs`, starting from `HashOutput::default()`. */
  function XorAll(hs: seq<HashOutput>): HashOutput
  {
    if |hs| == 0 then ZERO_STATE else BitXor(XorAll(hs[..|hs| - 1]), hs[|hs| - 1])
  }

  lemma XorZeroRight(h: HashOutput)
    ensures BitXor(h, ZERO_STATE) == h
  {
    assert ZERO_STATE == Zeros(8);
    BitXorCommutes(h, ZERO_STATE);
    BitXorZeroLeft(h);
  }

  /** Folding a concatenation XORs the two folds. */
  lemma {:induction false} XorAllAppend(a: seq<HashOutput>, b: seq<HashOutput>)
    ensures XorAll(a + b) == BitXor(XorAll(a), XorAll(b))
  {
    if |b| == 0 {
      assert a + b == a;
      XorZeroRight(XorAll(a));
    } else {
      var b', h := b[..|b| - 1], b[|b| - 1];
      assert (a + b)[..|a + b| - 1] == a + b';
      XorAllAppend(a, b');
      BitXorAssociates(XorAll(a), XorAll(b'), h);
    }
  }

  /** One more step of the accumulation loop. */
  lemma XorAllExtend(ps: seq<HashOutput>, k: nat)
    requires k < |ps|
    ensures XorAll(ps[..k + 1]) == BitXor(XorAll(ps[..k]), ps[k])
  {
    assert ps[..k + 1][..k] == ps[..k];
  }

  lemma XorAllSwap(a: seq<HashOutput>, b: seq<HashOutput>)
    ensures XorAll(a + b) == XorAll(b + a)
  {
    XorAllAppend(a, b);
    XorAllAppend(b, a);
    BitXorCommutes(XorAll(a), XorAll(b));
  }

  /** Moving one partial hash to the end leaves the fold unchanged. */
  lemma XorAllMoveToEnd(pre: seq<HashOutput>, x: HashOutput, post: seq<HashOutput>)
    ensures XorAll(pre + ([x] + post)) == BitXor(XorAll(pre + post), x)
  {
    XorAllAppend(pre, [x] + post);
    XorAllSwap([x], post);
    assert (post + [x])[..|post + [x]| - 1] == post;
    BitXorAssociates(XorAll(pre), XorAll(post), x);
    XorAllAppend(pre, post);
  }

  lemma Cancel<T>(p: multiset<T>, q: multiset<T>, x: T)
    requires p + multiset{x} == q + multiset{x}
    ensures p == q
  {
    assert forall y :: p[y] == (p + multiset{x})[y] - multiset{x}[y];
    assert forall y :: q[y] == (q + multiset{x})[y] - multiset{x}[y];
  }

  /** The last element of a occurs somewhere in b, and what remains of the two agrees. */
  lemma RemoveOne<T>(a: seq<T>, b: seq<T>) returns (i: nat)
    requires |a| > 0 && multiset(a) == multiset(b)
    ensures i < |b| && b[i] == a[|a| - 1]
    ensures b == b[..i] + ([b[i]] + b[i + 1..])
    ensures multiset(a[..|a| - 1]) == multiset(b[..i] + b[i + 1..])
  {
    var a', x := a[..|a| - 1], a[|a| - 1];
    assert a == a' + [x];
    assert x in multiset(b);
    i :| 0 <= i < |b| && b[i] == x;
    var pre, post := b[..i], b[i + 1..];
    assert b == pre + ([x] + post);
    assert multiset(a) == multiset(a') + multiset{x};
    assert multiset(b) == multiset(pre + post) + multiset{x} by {
      assert multiset(b) == multiset(pre) + multiset([x] + post);
      assert multiset([x] + post) == multiset{x} + multiset(post);
      assert multiset(pre + post) == multiset(pre) + multiset(post);
    }
    Cancel(multiset(a'), multiset(pre + post), x);
  }

  /** The accumulated hash does not depend on the order of the partial hashes. */
  lemma {:induction false} XorAllPermutation(a: seq<HashOutput>, b: seq<HashOutput>)
    requires multiset(a) == multiset(b)
    ensures XorAll(a) == XorAll(b)
    decreases |a|
  {
    if |a| == 0 {
      assert |b| == |multiset(b)| == 0;
    } else {
      var a', x := a[..|a| - 1], a[|a| - 1];
      var i := RemoveOne(a, b);
      var pre, post := b[..i], b[i + 1..];
      XorAllPermutation(a', pre + post);
      XorAllMoveToEnd(pre, x, post);
    }
  }

  /** The partial hashes of a base proof, position k = 0..7 in order. */
  function Partials<G>(b: Backend<G>, prelude: HashOutput, bp: BaseProof<G>): (ps: seq<HashOutput>)
    requires WellFormed(bp)
    ensures |ps| == M
  {
    seq(M, k requires 0 <= k < M =>
      IndividualHashOf(b, prelude, bp.schnorr, k, bp.data[k], bp.openings[k]))
  }

  /** The hash that `prove` and `verify` test against the difficulty. */
  function PowHash<G>(b: Backend<G>, prelude: HashOutput, bp: BaseProof<G>): HashOutput
    requires WellFormed(bp)
  {
    XorAll(Partials(b, prelude, bp))
  }

  // ---------------------------------------------------------------------------
  // BaseProof::prove

  /** The arguments of `BaseProof::prove`, except the backend. */
  datatype Task<G> = Task(fischIter: U64, prelude: HashOutput, openings: seq<G>, r: int, sk: int, data: seq<U64>)

  /** Indexing `data` and `openings` by the derived indices (all below `data.len()`)
      panics unless the data is non-empty and every chunk has an opening. */
  predicate Feasible<G>(t: Task<G>)
  {
    |t.data| > 0 && |t.openings| >= |t.data|
  }

  /** `idx.iter().map(|&i| xs[i])`: the items at the given indices, in index order. */
  function Select<T>(xs: seq<T>, idx: seq<nat>): (r: seq<T>)
    requires forall k :: 0 <= k < |idx| ==> idx[k] < |xs|
    ensures |r| == |idx| && forall k :: 0 <= k < |idx| ==> r[k] == xs[idx[k]]
  {
    seq(|idx|, k requires 0 <= k < |idx| => xs[idx[k]])
  }

  /** The base proof that challenge c yields: the Schnorr transcript for c and
      the chunks and openings at `derive_indices(fisch_iter, c, 8, data.len())`. */
  function Candidate<G>(b: Backend<G>, t: Task<G>, c: nat): (bp: BaseProof<G>)
    requires Valid(b) && Feasible(t)
    ensures WellFormed(bp)
  {
    var cf := Schnorr.FrFromU64(b.group.order, c);
    var idx := DerivedIndices(b, t.fischIter, cf, M, |t.data|);
    BaseProof(Schnorr.Prove(b.group, t.sk, t.r, cf), Select(t.data, idx), Select(t.openings, idx))
  }

  predicate Passes<G>(b: Backend<G>, t: Task<G>, c: nat)
    requires Valid(b) && Feasible(t)
  {
    PowPass(PowHash(b, t.prelude, Candidate(b, t, c)), BYTE_DIFFICULTY)
  }

  /** The least c with from <= c < MAXC and pass(c), if any. */
  function FirstWhere(pass: nat -> bool, from: nat): Option<nat>
    decreases MAXC - from
  {
    if from >= MAXC then None
    else if pass(from) then Some(from)
    else FirstWhere(pass, from + 1)
  }

  lemma {:induction false} FirstWhereIsLeast(pass: nat -> bool, from: nat)
    requires from <= MAXC
    ensures FirstWhere(pass, from).None? <==> forall c :: from <= c < MAXC ==> !pass(c)
    ensures FirstWhere(pass, from).Some? ==>
              var c := FirstWhere(pass, from).value;
              from <= c < MAXC && pass(c) && forall c' :: from <= c' < c ==> !pass(c')
    decreases MAXC - from
  {
    if from < MAXC && !pass(from) {
      FirstWhereIsLeast(pass, from + 1);
    }
  }

  function PassTest<G>(b: Backend<G>, t: Task<G>): nat -> bool
    requires Valid(b) && Feasible(t)
  {
    (c: nat) => Passes(b, t, c)
  }

  /** The value of `BaseProof::prove`: the candidate of the first passing challenge. */
  function Mine<G>(b: Backend<G>, t: Task<G>): Option<BaseProof<G>>
    requires Valid(b) && Feasible(t)
  {
    match FirstWhere(PassTest(b, t), 0)
    case None => None
    case Some(c) => Some(Candidate(b, t, c))
  }

  /** Mining returns the least passing challenge below MAXC, and nothing
      exactly when no challenge below MAXC passes. */
  lemma MineIsLeastPassing<G>(b: Backend<G>, t: Task<G>)
    requires Valid(b) && Feasible(t)
    ensures Mine(b, t).None? <==> forall c :: 0 <= c < MAXC ==> !Passes(b, t, c)
    ensures Mine(b, t).Some? ==>
              var c := Mine(b, t).value.schnorr.c;
              0 <= c < MAXC && Passes(b, t, c) && Mine(b, t).value == Candidate(b, t, c)
              && forall c' :: 0 <= c' < c ==> !Passes(b, t, c')
  {
    var pass := PassTest(b, t);
    FirstWhereIsLeast(pass, 0);
    if FirstWhere(pass, 0).Some? {
      var c := FirstWhere(pass, 0).value;
      assert Candidate(b, t, c).schnorr.c == c;
      assert pass(c) == Passes(b, t, c);
      assert forall c' :: pass(c') == Passes(b, t, c');
    } else {
      assert forall c' :: pass(c') == Passes(b, t, c');
    }
  }

  /** A mined base proof carries the chunks and openings that its own challenge
      selects, and the commitment g·r. */
  lemma MinedSelection<G>(b: Backend<G>, t: Task<G>)
    requires Valid(b) && Feasible(t) && Mine(b, t).Some?
    ensures var bp := Mine(b, t).value;
            var idx := DerivedIndices(b, t.fischIter, bp.schnorr.c, M, |t.data|);
            && WellFormed(bp)
            && bp.schnorr.a == b.group.mul(b.group.generator, t.r)
            && forall k :: 0 <= k < M ==> bp.data[k] == t.data[idx[k]] && bp.openings[k] == t.openings[idx[k]]
  {
    MineIsLeastPassing(b, t);
  }

  /** The inner loop of `BaseProof::prove`: XOR together the partial hashes of
      positions 0..M, starting from zero. */
  method AccumulateHash<G>(b: Backend<G>, prelude: HashOutput, bp: BaseProof<G>) returns (hash: HashOutput)
    requires WellFormed(bp)
    ensures hash == PowHash(b, prelude, bp)
  {
    ghost var partials := Partials(b, prelude, bp);
    hash := ZERO_STATE;
    for k := 0 to M
      invariant hash == XorAll(partials[..k])
    {
      var partial := IndividualHash(b, prelude, bp.schnorr, k, bp.data[k], bp.openings[k]);
      XorAllExtend(partials, k);
      hash := BitXor(hash, partial);
    }
    assert partials[..M] == partials;
  }

  /** `BaseProof::prove`: try c = 0, 1, ..., MAXC - 1 and return the first
      candidate whose accumulated hash passes `pow_pass`. */
  method BaseProve<G>(b: Backend<G>, fischIter: U64, prelude: HashOutput, openings: seq<G>,
                      r: int, sk: int, data: seq<U64>)
    returns (res: Option<BaseProof<G>>)
    requires Valid(b) && |data| > 0 && |openings| >= |data|
    ensures res == Mine(b, Task(fischIter, prelude, openings, r, sk, data))
  {
    ghost var t := Task(fischIter, prelude, openings, r, sk, data);
    ghost var pass := PassTest(b, t);
    for c := 0 to MAXC
      invariant FirstWhere(pass, c) == FirstWhere(pass, 0)
    {
      var cf := Schnorr.FrFromU64(b.group.order, c);
      var schnorr := Schnorr.Prove(b.group, sk, r, cf);
      var indices := DeriveIndices(b, fischIter, cf, M, |data|);
      var candidate := BaseProof(schnorr, Select(data, indices), Select(openings, indices));
      assert candidate == Candidate(b, t, c);
      var hash := AccumulateHash(b, prelude, candidate);
      assert pass(c) == PowPass(hash, BYTE_DIFFICULTY);
      if PowPass(hash, BYTE_DIFFICULTY) {
        return Some(candidate);
      }
    }
    return None;
  }

  // ---------------------------------------------------------------------------
  // BaseProof::verify

  /** The KZG check that the opening at position k proves `data[k]` to be the
      committed polynomial's value at the root of chunk i. */
  function OpeningCheck<G>(b: Backend<G>, bp: BaseProof<G>, com: G, dataLen: nat, i: nat, k: nat)
    : Result<bool, string>
    requires Valid(b) && WellFormed(bp) && i < dataLen && k < M
  {
    b.checkProofSingle(com, bp.openings[k], GetPoint(b.rootsOfUnity, dataLen, i),
                       Schnorr.FrFromU64(b.group.order, bp.data[k]))
  }

  /** The KZG opening checks of `verify`, one per position, in order. */
  function OpeningChecks<G>(b: Backend<G>, bp: BaseProof<G>, fischIter: U64, com: G, dataLen: nat)
    : (rs: seq<Result<bool, string>>)
    requires Valid(b) && WellFormed(bp) && dataLen > 0
    ensures |rs| == M
  {
    var idx := DerivedIndices(b, fischIter, bp.schnorr.c, M, dataLen);
    seq(M, k requires 0 <= k < M => OpeningCheck(b, bp, com, dataLen, idx[k], k))
  }

  /** The value of `BaseProof::verify`. */
  function BaseVerifyOutcome<G(==)>(b: Backend<G>, bp: BaseProof<G>, fischIter: U64, prelude: HashOutput,
                                    pk: G, com: G, dataLen: nat): Result<bool, string>
    requires Valid(b) && WellFormed(bp) && dataLen > 0
  {
    if !Schnorr.Verify(b.group, bp.schnorr, pk) then Ok(false)
    else
      var openings := AllOk(OpeningChecks(b, bp, fischIter, com, dataLen));
      if !Passed(openings) then openings
      else Ok(PowPass(PowHash(b, prelude, bp), BYTE_DIFFICULTY))
  }

  /** `verify` accepts exactly when the Schnorr check, every opening check and
      the proof of work pass; it fails in that order of precedence. */
  lemma BaseVerifyAccepts<G>(b: Backend<G>, bp: BaseProof<G>, fischIter: U64, prelude: HashOutput,
                                 pk: G, com: G, dataLen: nat)
    requires Valid(b) && WellFormed(bp) && dataLen > 0
    ensures var checks := OpeningChecks(b, bp, fischIter, com, dataLen);
            var r := BaseVerifyOutcome(b, bp, fischIter, prelude, pk, com, dataLen);
            && (r == Ok(true) <==>
                  Schnorr.Verify(b.group, bp.schnorr, pk)
                  && (forall k :: 0 <= k < M ==> Passed(checks[k]))
                  && PowPass(PowHash(b, prelude, bp), BYTE_DIFFICULTY))
            && (!Schnorr.Verify(b.group, bp.schnorr, pk) ==> r == Ok(false))
            && (r.Err? ==> exists k :: 0 <= k < M && r == checks[k] && forall j :: 0 <= j < k ==> Passed(checks[j]))
  {
    var checks := OpeningChecks(b, bp, fischIter, com, dataLen);
    AllOkAccepts(checks);
    if AllOk(checks) != Ok(true) {
      AllOkFailureIsFirst(checks);
    }
  }

  /** `BaseProof::verify`: the Schnorr check, then per position the KZG opening
      check and the XOR accumulation, then the proof-of-work check; `check!`
      returns `Ok(false)` and `?` passes an `Err` on at the first failure. */
  method BaseVerify<G(==)>(b: Backend<G>, bp: BaseProof<G>, fischIter: U64, prelude: HashOutput,
                           pk: G, com: G, dataLen: nat)
    returns (r: Result<bool, string>)
    requires Valid(b) && WellFormed(bp) && dataLen > 0
    ensures r == BaseVerifyOutcome(b, bp, fischIter, prelude, pk, com, dataLen)
  {
    var schnorrOk := Schnorr.Verify(b.group, bp.schnorr, pk);
    :- Check(schnorrOk);
    var indices := DeriveIndices(b, fischIter, bp.schnorr.c, M, dataLen);
    ghost var checks := OpeningChecks(b, bp, fischIter, com, dataLen);
    ghost var partials := Partials(b, prelude, bp);
    assert checks[0..] == checks;
    var hash := ZERO_STATE;
    for k := 0 to M
      invariant hash == XorAll(partials[..k])
      invariant AllOk(checks) == AllOk(checks[k..])
    {
      var value := bp.data[k];
      var val := Schnorr.FrFromU64(b.group.order, value);
      var x := GetPoint(b.rootsOfUnity, dataLen, indices[k]);
      var opening := b.checkProofSingle(com, bp.openings[k], x, val);
      assert opening == checks[k];
      AllOkStep(checks, k);
      var ok :- opening;
      :- Check(ok);
      var partial := IndividualHash(b, prelude, bp.schnorr, k, value, bp.openings[k]);
      XorAllExtend(partials, k);
      hash := BitXor(hash, partial);
    }
    assert partials[..M] == partials;
    :- Check(PowPass(hash, BYTE_DIFFICULTY));
    r := Ok(true);
  }

  // ---------------------------------------------------------------------------
  // Proof::verify and Proof::prove

  /** The commitments a of the base proofs, in order. */
  function CommitmentsOf<G>(proof: Proof<G>): (a: seq<G>)
    ensures |a| == |proof.baseProofs|
  {
    seq(|proof.baseProofs|, i requires 0 <= i < |proof.baseProofs| => proof.baseProofs[i].schnorr.a)
  }

  /** `Proof::prelude`: the prelude of the commitments a, in base-proof order. */
  function ProofPrelude<G>(b: Backend<G>, proof: Proof<G>): HashOutput
  {
    Prelude(b, CommitmentsOf(proof))
  }

  /** The per-base-proof outcomes `Proof::verify` combines, base proof i
      checked with index i against the one prelude. */
  function BaseOutcomes<G(==)>(b: Backend<G>, proof: Proof<G>, pk: G, com: G, dataLen: nat)
    : (rs: seq<Result<bool, string>>)
    requires Valid(b) && AllWellFormed(proof) && dataLen > 0 && |proof.baseProofs| <= U64_LIMIT
    ensures |rs| == |proof.baseProofs|
  {
    var prelude := ProofPrelude(b, proof);
    seq(|proof.baseProofs|, i requires 0 <= i < |proof.baseProofs| =>
      BaseVerifyOutcome(b, proof.baseProofs[i], i, prelude, pk, com, dataLen))
  }

  /** `Proof::verify` accepts exactly when every base proof verifies; an empty
      proof is accepted. */
  lemma VerifyAccepts<G>(b: Backend<G>, proof: Proof<G>, pk: G, com: G, dataLen: nat)
    requires Valid(b) && AllWellFormed(proof) && dataLen > 0 && |proof.baseProofs| <= U64_LIMIT
    ensures var rs := BaseOutcomes(b, proof, pk, com, dataLen);
            AllOk(rs) == Ok(true) <==> forall i :: 0 <= i < |rs| ==> rs[i] == Ok(true)
  {
    AllOkAccepts(BaseOutcomes(b, proof, pk, com, dataLen));
  }

  /** `Proof::verify`: compute the prelude once, then verify the base proofs in
      order, stopping at the first `Ok(false)` or `Err`. */
  method Verify<G(==)>(b: Backend<G>, proof: Proof<G>, pk: G, com: G, dataLen: nat)
    returns (r: Result<bool, string>)
    requires Valid(b) && AllWellFormed(proof) && dataLen > 0 && |proof.baseProofs| <= U64_LIMIT
    ensures r == AllOk(BaseOutcomes(b, proof, pk, com, dataLen))
  {
    var prelude := ProofPrelude(b, proof);
    ghost var outcomes := BaseOutcomes(b, proof, pk, com, dataLen);
    assert outcomes[0..] == outcomes;
    var i := 0;
    while i < |proof.baseProofs|
      invariant 0 <= i <= |proof.baseProofs|
      invariant AllOk(outcomes) == AllOk(outcomes[i..])
    {
      var base := BaseVerify(b, proof.baseProofs[i], i, prelude, pk, com, dataLen);
      AllOkStep(outcomes, i);
      var ok :- base;
      if !ok {
        return Ok(false);
      }
      i := i + 1;
    }
    r := Ok(true);
  }

  /** a_i = g·r_i for every Fischlin iteration. */
  function Commitments<G>(b: Backend<G>, rs: seq<int>): (a: seq<G>)
    ensures |a| == |rs| && forall i :: 0 <= i < |rs| ==> a[i] == b.group.mul(b.group.generator, rs[i])
  {
    seq(|rs|, i requires 0 <= i < |rs| => b.group.mul(b.group.generator, rs[i]))
  }

  /** The mining task of Fischlin iteration i in `Proof::prove`. */
  function ProveTask<G>(b: Backend<G>, sk: int, data: seq<U64>, openings: seq<G>, rs: seq<int>, i: U64): Task<G>
  {
    Task(i, Prelude(b, Commitments(b, rs)), openings, if i < |rs| then rs[i] else 0, sk, data)
  }

  /** `(0..n).map(f).collect::<Option<Vec<_>>>()`: the values of f in order,
      or `None` as soon as one of them is `None`. */
  function CollectFirst<T>(f: nat -> Option<T>, n: nat): Option<seq<T>>
  {
    if n == 0 then Some([])
    else match CollectFirst(f, n - 1)
      case None => None
      case Some(ps) =>
        match f(n - 1)
        case None => None
        case Some(p) => Some(ps + [p])
  }

  lemma {:induction false} CollectFirstSpec<T>(f: nat -> Option<T>, n: nat)
    ensures CollectFirst(f, n).Some? <==> forall i :: 0 <= i < n ==> f(i).Some?
    ensures CollectFirst(f, n).Some? ==>
              |CollectFirst(f, n).value| == n && forall i :: 0 <= i < n ==> f(i) == Some(CollectFirst(f, n).value[i])
  {
    if n > 0 {
      CollectFirstSpec(f, n - 1);
    }
  }

  /** Iteration i of `Proof::prove` as a function of i. */
  function MineAt<G>(b: Backend<G>, sk: int, data: seq<U64>, openings: seq<G>, rs: seq<int>): nat -> Option<BaseProof<G>>
    requires Valid(b) && |data| > 0 && |openings| >= |data| && |rs| <= U64_LIMIT
  {
    (i: nat) => if i < |rs| then Mine(b, ProveTask(b, sk, data, openings, rs, i)) else None
  }

  /** The collect over the first n iterations succeeds exactly when every one
      of them mines a base proof, and then holds iteration i's at position i. */
  lemma MineFirstCollects<G>(b: Backend<G>, sk: int, data: seq<U64>, openings: seq<G>, rs: seq<int>, n: nat)
    requires Valid(b) && |data| > 0 && |openings| >= |data| && n <= |rs| <= U64_LIMIT
    ensures var r := CollectFirst(MineAt(b, sk, data, openings, rs), n);
            && (r.Some? <==> forall i :: 0 <= i < n ==> Mine(b, ProveTask(b, sk, data, openings, rs, i)).Some?)
            && (r.Some? ==>
                  |r.value| == n
                  && forall i :: 0 <= i < n ==> Mine(b, ProveTask(b, sk, data, openings, rs, i)) == Some(r.value[i]))
  {
    var f := MineAt(b, sk, data, openings, rs);
    CollectFirstSpec(f, n);
    assert forall i :: 0 <= i < n ==> f(i) == Mine(b, ProveTask(b, sk, data, openings, rs, i));
  }

  /** `Proof::prove`, with the openings and the random r_i as inputs: mine a
      base proof for every iteration 0..NFISCH in order against one prelude;
      the `Option` collect fails as soon as one iteration finds no challenge. */
  method Prove<G>(b: Backend<G>, sk: int, data: seq<U64>, openings: seq<G>, rs: seq<int>)
    returns (res: Option<Proof<G>>)
    requires Valid(b) && |data| > 0 && |openings| >= |data| && |rs| <= U64_LIMIT
    ensures res.Some? <==> forall i :: 0 <= i < |rs| ==> Mine(b, ProveTask(b, sk, data, openings, rs, i)).Some?
    ensures res.Some? ==>
              |res.value.baseProofs| == |rs|
              && forall i :: 0 <= i < |rs| ==> Mine(b, ProveTask(b, sk, data, openings, rs, i)) == Some(res.value.baseProofs[i])
  {
    var prelude := Prelude(b, Commitments(b, rs));
    var proofs: seq<BaseProof<G>> := [];
    ghost var mine := MineAt(b, sk, data, openings, rs);
    for i := 0 to |rs|
      invariant CollectFirst(mine, i) == Some(proofs)
    {
      var base := BaseProve(b, i, prelude, openings, rs[i], sk, data);
      assert Task(i, prelude, openings, rs[i], sk, data) == ProveTask(b, sk, data, openings, rs, i);
      assert mine(i) == base;
      if base.None? {
        MineFirstCollects(b, sk, data, openings, rs, i + 1);
        MineFirstCollects(b, sk, data, openings, rs, |rs|);
        return None;
      }
      proofs := proofs + [base.value];
    }
    MineFirstCollects(b, sk, data, openings, rs, |rs|);
    return Some(Proof(proofs));
  }

  // ---------------------------------------------------------------------------
  // Prover and verifier agree

  /** For an honestly mined base proof, checked under pk = g·sk with the data
      length it was mined for, the Schnorr and proof-of-work checks pass, so
      the outcome is that of the KZG opening checks alone. */
  lemma MinedBaseProofVerifies<G>(b: Backend<G>, t: Task<G>, com: G)
    requires Valid(b) && Feasible(t) && t.fischIter < U64_LIMIT && Mine(b, t).Some?
    ensures var bp := Mine(b, t).value;
            WellFormed(bp)
            && BaseVerifyOutcome(b, bp, t.fischIter, t.prelude, b.group.mul(b.group.generator, t.sk), com, |t.data|)
               == AllOk(OpeningChecks(b, bp, t.fischIter, com, |t.data|))
  {
    MineIsLeastPassing(b, t);
    var bp := Mine(b, t).value;
    var c := bp.schnorr.c;
    Schnorr.Completeness(b.group, t.sk, t.r, Schnorr.FrFromU64(b.group.order, c));
    AllOkAccepts(OpeningChecks(b, bp, t.fischIter, com, |t.data|));
  }

  /** The base proofs of `Proof::prove` hash to the prelude they were mined against. */
  lemma ProvedPreludeAgrees<G>(b: Backend<G>, sk: int, data: seq<U64>, openings: seq<G>, rs: seq<int>,
                               bps: seq<BaseProof<G>>)
    requires Valid(b) && |data| > 0 && |openings| >= |data| && |rs| <= U64_LIMIT && |bps| == |rs|
    requires forall i :: 0 <= i < |rs| ==> Mine(b, ProveTask(b, sk, data, openings, rs, i)) == Some(bps[i])
    ensures ProofPrelude(b, Proof(bps)) == Prelude(b, Commitments(b, rs))
  {
    forall i | 0 <= i < |rs|
      ensures bps[i].schnorr.a == Commitments(b, rs)[i]
    {
      MinedSelection(b, ProveTask(b, sk, data, openings, rs, i));
    }
    assert CommitmentsOf(Proof(bps)) == Commitments(b, rs);
  }

  /** Completeness of the whole proof: what `Proof::prove` returns is accepted
      by `Proof::verify` under pk = g·sk whenever the KZG openings it carries
      check out. */
  lemma ProvedProofVerifies<G>(b: Backend<G>, sk: int, data: seq<U64>, openings: seq<G>, rs: seq<int>,
                                   bps: seq<BaseProof<G>>, com: G)
    requires Valid(b) && |data| > 0 && |openings| >= |data| && |rs| <= U64_LIMIT && |bps| == |rs|
    requires forall i :: 0 <= i < |rs| ==> Mine(b, ProveTask(b, sk, data, openings, rs, i)) == Some(bps[i])
    requires forall i :: 0 <= i < |bps| ==>
               WellFormed(bps[i]) && AllOk(OpeningChecks(b, bps[i], i, com, |data|)) == Ok(true)
    ensures AllOk(BaseOutcomes(b, Proof(bps), b.group.mul(b.group.generator, sk), com, |data|)) == Ok(true)
  {
    var pk := b.group.mul(b.group.generator, sk);
    ProvedPreludeAgrees(b, sk, data, openings, rs, bps);
    var outcomes := BaseOutcomes(b, Proof(bps), pk, com, |data|);
    forall i | 0 <= i < |bps|
      ensures outcomes[i] == Ok(true)
    {
      var t := ProveTask(b, sk, data, openings, rs, i);
      MinedBaseProofVerifies(b, t, com);
    }
    AllOkAccepts(outcomes);
  }
}
