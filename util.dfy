/** src/util.rs: the element-wise XOR of two arrays and the `check!` macro,
    together with the short-circuit conjunction that `check!` and `?` build
    when they are used inside a loop. */
module Util {
  import opened Results
  import opened Arith

  function Min(a: nat, b: nat): nat { if a <= b then a else b }

  /** `x.into_iter().zip(y)`: pairs up elements until the shorter input ends. */
  function Zip<A, B>(x: seq<A>, y: seq<B>): (r: seq<(A, B)>)
    ensures |r| == Min(|x|, |y|)
    ensures forall j :: 0 <= j < |r| ==> r[j] == (x[j], y[j])
  {
    if |x| == 0 || |y| == 0 then [] else [(x[0], y[0])] + Zip(x[1..], y[1..])
  }

  /** `.map(|(a, b)| a ^ b)` over the zipped pairs. */
  function XorPairs(ps: seq<(U64, U64)>): (r: seq<U64>)
    ensures |r| == |ps|
    ensures forall j :: 0 <= j < |r| ==> r[j] == Xor(ps[j].0, ps[j].1)
  {
    if |ps| == 0 then [] else [Xor64(ps[0].0, ps[0].1)] + XorPairs(ps[1..])
  }

  /** `Vec::try_into::<[T; N]>()`: succeeds exactly when the vector has N items. */
  function TryIntoArray<T>(v: seq<T>, n: nat): (r: Option<seq<T>>)
    ensures r.Some? ==> r.value == v && |v| == n
    ensures r.None? ==> |v| != n
  {
    if |v| == n then Some(v) else None
  }

  function Zeros(n: nat): (z: seq<U64>)
    ensures |z| == n && forall j :: 0 <= j < n ==> z[j] == 0
  {
    seq(n, _ => 0)
  }

  /** `bitxor`: zip, map and collect back into an array of the same length.
      The words here are `u64`; the only caller XORs `[u64; 8]` hashes. */
  function BitXor(x: seq<U64>, y: seq<U64>): (r: seq<U64>)
    requires |x| == |y|
    ensures |r| == |x|
    ensures forall j :: 0 <= j < |x| ==> r[j] == Xor(x[j], y[j])
  {
    match TryIntoArray(XorPairs(Zip(x, y)), |x|)
    case Some(arr) => arr
    case None => assert false; []
  }

  /** The `Err(_) => unreachable!()` arm is indeed unreachable. */
  lemma CollectNeverFails(x: seq<U64>, y: seq<U64>)
    requires |x| == |y|
    ensures TryIntoArray(XorPairs(Zip(x, y)), |x|).Some?
  {
  }

  /** The unit test `test_bitxor`. */
  lemma BitXorExample()
    ensures BitXor([1, 2, 3], [4, 5, 6]) == [5, 7, 5]
  {
    var r := BitXor([1, 2, 3], [4, 5, 6]);
    assert Xor(1, 4) == 5 && Xor(2, 5) == 7 && Xor(3, 6) == 5;
    assert r[0] == 5 && r[1] == 7 && r[2] == 5;
  }

  /** Seeding an accumulator with the all-zero array is harmless. */
  lemma BitXorZeroLeft(y: seq<U64>)
    ensures BitXor(Zeros(|y|), y) == y
  {
    var r := BitXor(Zeros(|y|), y);
    forall j | 0 <= j < |y| ensures r[j] == y[j] {
      XorZero(y[j]);
    }
  }

  lemma BitXorCommutes(x: seq<U64>, y: seq<U64>)
    requires |x| == |y|
    ensures BitXor(x, y) == BitXor(y, x)
  {
    var a, b := BitXor(x, y), BitXor(y, x);
    forall j | 0 <= j < |x| ensures a[j] == b[j] {
      XorCommutes(x[j], y[j]);
    }
  }

  lemma BitXorAssociates(x: seq<U64>, y: seq<U64>, z: seq<U64>)
    requires |x| == |y| == |z|
    ensures BitXor(BitXor(x, y), z) == BitXor(x, BitXor(y, z))
  {
    var xy, yz := BitXor(x, y), BitXor(y, z);
    var a, b := BitXor(xy, z), BitXor(x, yz);
    forall j | 0 <= j < |x| ensures a[j] == b[j] {
      XorAssociates(x[j], y[j], z[j]);
    }
  }

  lemma BitXorSelfCancels(x: seq<U64>)
    ensures BitXor(x, x) == Zeros(|x|)
  {
    var a := BitXor(x, x);
    forall j | 0 <= j < |x| ensures a[j] == 0 {
      XorSelf(x[j]);
    }
  }

  /** The outcome of `check!(e)`: carry on, or leave the enclosing function. */
  datatype Guard = Proceed | Bail {

    predicate IsFailure() { Bail? }

    /** `return Ok(false);` */
    function PropagateFailure<E>(): Result<bool, E>
    {
      Ok(false)
    }
  }

  /** `check!(e)`, used as the statement `:- Check(e);`. */
  function Check(e: bool): (g: Guard)
    ensures g.IsFailure() <==> !e
  {
    if e then Proceed else Bail
  }

  /** A function whose body is `check!(e)` followed by `rest`: a false check
      returns `Ok(false)` at once, a true one lets execution reach `rest`. */
  method Guarded<E>(e: bool, rest: Result<bool, E>) returns (r: Result<bool, E>)
    ensures !e ==> r == Ok(false)
    ensures e ==> r == rest
  {
    var guard := Check(e);
    :- guard;
    r := rest;
  }

  /** The function `a` of the unit test `test_check`. */
  method CheckTrueFallsThrough() returns (r: Result<bool, ()>)
    ensures r.Err?
  {
    r := Guarded(true, Err(()));
  }

  /** The function `b` of the unit test `test_check`. */
  method CheckFalseReturnsEarly() returns (r: Result<bool, ()>)
    ensures r == Ok(false)
  {
    r := Guarded(false, Err(()));
  }

  predicate Passed<E>(r: Result<bool, E>) { r.Ok? && r.value }

  /** The value of a sequence of `check!(r?)` steps followed by `Ok(true)`:
      the first result that is not `Ok(true)` is returned (an `Err` through `?`,
      an `Ok(false)` through `check!`), and `Ok(true)` if there is none. */
  function AllOk<E>(rs: seq<Result<bool, E>>): Result<bool, E>
  {
    if |rs| == 0 then Ok(true)
    else if Passed(rs[0]) then AllOk(rs[1..])
    else rs[0]
  }

  lemma {:induction false} AllOkAccepts<E>(rs: seq<Result<bool, E>>)
    ensures AllOk(rs) == Ok(true) <==> forall k :: 0 <= k < |rs| ==> Passed(rs[k])
  {
    if |rs| > 0 {
      AllOkAccepts(rs[1..]);
      assert forall k :: 1 <= k < |rs| ==> rs[k] == rs[1..][k - 1];
    }
  }

  /** After a run of passing checks, the outcome is that of the remaining ones. */
  lemma {:induction false} AllOkSkipsPassed<E>(rs: seq<Result<bool, E>>, k: nat)
    requires k <= |rs|
    requires forall j :: 0 <= j < k ==> Passed(rs[j])
    ensures AllOk(rs) == AllOk(rs[k..])
  {
    if k > 0 {
      assert rs[1..][k - 1..] == rs[k..];
      AllOkSkipsPassed(rs[1..], k - 1);
    }
  }

  /** One step of the loop that `check!` and `?` short-circuit. */
  lemma AllOkStep<E>(rs: seq<Result<bool, E>>, k: nat)
    requires k < |rs|
    ensures AllOk(rs[k..]) == if Passed(rs[k]) then AllOk(rs[k + 1..]) else rs[k]
  {
    assert rs[k..][1..] == rs[k + 1..];
  }

  /** The first failing check decides the outcome; later ones are never looked at. */
  lemma FirstFailureWins<E>(rs: seq<Result<bool, E>>, k: nat)
    requires k < |rs|
    requires forall j :: 0 <= j < k ==> Passed(rs[j])
    requires !Passed(rs[k])
    ensures AllOk(rs) == rs[k]
  {
    AllOkSkipsPassed(rs, k);
  }

  /** Every outcome other than `Ok(true)` is one of the checks' own results. */
  lemma {:induction false} AllOkFailureIsFirst<E>(rs: seq<Result<bool, E>>)
    requires AllOk(rs) != Ok(true)
    ensures exists k :: 0 <= k < |rs| && AllOk(rs) == rs[k] && !Passed(rs[k])
                        && forall j :: 0 <= j < k ==> Passed(rs[j])
  {
    if Passed(rs[0]) {
      AllOkFailureIsFirst(rs[1..]);
      var k :| 0 <= k < |rs[1..]| && AllOk(rs[1..]) == rs[1..][k] && !Passed(rs[1..][k])
               && forall j :: 0 <= j < k ==> Passed(rs[1..][j]);
      assert forall j :: 0 <= j < k + 1 ==> Passed(rs[j]) by {
        forall j | 0 <= j < k + 1 ensures Passed(rs[j]) {
          if j > 0 { assert rs[j] == rs[1..][j - 1]; }
        }
      }
      assert AllOk(rs) == rs[k + 1];
    } else {
      assert AllOk(rs) == rs[0];
    }
  }
}
