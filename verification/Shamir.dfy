/** Shamir secret sharing over GF(2^8): one polynomial per secret byte, the secret as intercept. */
module Shamir {
  import opened Char2Field
  import opened Polynomials
  import opened GF256

  datatype Error =
    | PartsBelowThreshold | TooManyParts | ThresholdTooSmall | ThresholdTooLarge | EmptySecret
    | TooFewParts | PartTooShort | LengthMismatch | DuplicatePart

  datatype Result<+T> = Success(value: T) | Failure(error: Error)

  /** A random source: the coefficient of x^(j+1) for the `idx`-th byte of the secret. */
  type Coins = (nat, nat) -> byte

  // ---- Specification ------------------------------------------------------------------------

  /** The contract of the shuffle: some permutation of 0, ..., 254, already narrowed to bytes. */
  ghost predicate IsPermutation(perm: seq<byte>) {
    |perm| == 255 && Distinct(perm) && 255 !in perm
  }

  /** The tag of the `i`-th share. */
  function Tag(perm: seq<byte>, i: nat): byte
    requires i < |perm|
  {
    perm[i] + 1
  }

  function Coefficients(intercept: byte, degree: nat, coins: Coins, idx: nat): (p: seq<byte>)
    ensures |p| == degree + 1 && p[0] == intercept
  {
    [intercept] + seq(degree, (j: nat) => coins(idx, j))
  }

  /** The `i`-th share: the values of all polynomials at its tag, then the tag. */
  ghost function Share(secret: seq<byte>, degree: nat, perm: seq<byte>, coins: Coins, i: nat): (s: seq<byte>)
    requires IsPermutation(perm) && i < 255
    ensures |s| == |secret| + 1 && s[|secret|] == Tag(perm, i)
    ensures forall idx :: 0 <= idx < |secret| ==>
              s[idx] == Eval(GF(), Coefficients(secret[idx], degree, coins, idx), Tag(perm, i))
  {
    seq(|secret|, idx requires 0 <= idx < |secret| =>
          Eval(GF(), Coefficients(secret[idx], degree, coins, idx), Tag(perm, i))) + [Tag(perm, i)]
  }

  ghost function AllShares(secret: seq<byte>, degree: nat, parts: nat, perm: seq<byte>, coins: Coins)
    : (shares: seq<seq<byte>>)
    requires IsPermutation(perm) && parts <= 255
    ensures |shares| == parts
    ensures forall i :: 0 <= i < parts ==> shares[i] == Share(secret, degree, perm, coins, i)
  {
    seq(parts, i requires 0 <= i < 255 => Share(secret, degree, perm, coins, i))
  }

  ghost function SplitSpec(secret: seq<byte>, parts: int, threshold: int, perm: seq<byte>, coins: Coins)
    : Result<seq<seq<byte>>>
    requires IsPermutation(perm)
  {
    if parts < threshold then Failure(PartsBelowThreshold)
    else if parts > 255 then Failure(TooManyParts)
    else if threshold < 2 then Failure(ThresholdTooSmall)
    else if threshold > 255 then Failure(ThresholdTooLarge)
    else if secret == [] then Failure(EmptySecret)
    else Success(AllShares(secret, threshold - 1, parts, perm, coins))
  }

  /** Column `idx` of a list of equally long parts. */
  function Column(parts: seq<seq<byte>>, idx: nat): (c: seq<byte>)
    requires forall i :: 0 <= i < |parts| ==> idx < |parts[i]|
    ensures |c| == |parts| && forall i :: 0 <= i < |parts| ==> c[i] == parts[i][idx]
  {
    seq(|parts|, i requires 0 <= i < |parts| => parts[i][idx])
  }

  ghost predicate SameLength(parts: seq<seq<byte>>) {
    forall i :: 0 <= i < |parts| ==> |parts[i]| == |parts[0]|
  }

  /** The value at the origin of every column, with the tags in column `n` as abscissae. */
  ghost function Interpolated(parts: seq<seq<byte>>, n: nat): (secret: seq<byte>)
    requires forall i :: 0 <= i < |parts| ==> |parts[i]| == n + 1
    ensures |secret| == n
    ensures forall idx :: 0 <= idx < n ==>
              secret[idx] == Lagrange(GF(), Column(parts, n), Column(parts, idx), |parts|, 0)
  {
    seq(n, idx requires 0 <= idx < n => Lagrange(GF(), Column(parts, n), Column(parts, idx), |parts|, 0))
  }

  ghost function CombineSpec(parts: seq<seq<byte>>): Result<seq<byte>> {
    if |parts| < 2 then Failure(TooFewParts)
    else if |parts[0]| < 2 then Failure(PartTooShort)
    else if !SameLength(parts) then Failure(LengthMismatch)
    else if !Distinct(Column(parts, |parts[0]| - 1)) then Failure(DuplicatePart)
    else Success(Interpolated(parts, |parts[0]| - 1))
  }

  // ---- The code -----------------------------------------------------------------------------

  /** Horner's method from the top coefficient, with the origin as a special case. */
  method Evaluate(p: seq<byte>, x: byte) returns (out: byte)
    requires p != []
    ensures out == Eval(GF(), p, x)
  {
    if x == 0 {
      EvalAtZero(GF(), p);
      return p[0];
    }
    var degree := |p| - 1;
    out := p[degree];
    EvalLast(p, x);
    for i := degree downto 0
      invariant out == Eval(GF(), p[i..], x)
    {
      var product := Mult(out, x);
      assert p[i..][1..] == p[i + 1..];
      assert Link(out, x) && Link(product, p[i]);
      out := Add(product, p[i]);
    }
    assert p[0..] == p;
  }

  lemma EvalLast(p: seq<byte>, x: byte)
    requires p != []
    ensures Eval(GF(), p[|p| - 1..], x) == p[|p| - 1]
  {
    var last := p[|p| - 1..];
    assert last == [p[|p| - 1]] && last[1..] == [];
    TimesZero(GF(), x);
    assert GF().At(0, p[|p| - 1], 0) && GF().At(p[|p| - 1], 0, 0);
  }

  lemma SumIsZero(a: byte, b: byte)
    ensures Add(a, b) == 0 <==> a == b
  {
    Cancel(GF(), a, b);
    assert Link(a, b);
  }

  lemma Quotient(num: byte, denom: byte)
    ensures GF().mul(num, GF().inv(denom)) == Mul(num, Inv(denom))
  {
    assert Link(denom, denom) && Link(num, Inv(denom));
  }

  lemma FactorInField(xs: seq<byte>, i: nat, j: nat, x: byte, basis: byte, term: byte)
    requires i < |xs| && j < |xs| && i != j && basis == Basis(GF(), xs, i, j, x)
    requires term == GF().mul(Add(x, xs[j]), GF().inv(Add(xs[i], xs[j])))
    ensures Mul(basis, term) == Basis(GF(), xs, i, j + 1, x)
  {
    assert Link(x, xs[j]) && Link(xs[i], xs[j]) && Link(basis, term);
  }

  /** The body of the inner loop: multiply the basis by the factor of sample `j`. */
  method NextBasis(xs: seq<byte>, i: nat, j: nat, x: byte, basis: byte) returns (next: byte)
    requires Distinct(xs) && i < |xs| && j < |xs| && i != j && basis == Basis(GF(), xs, i, j, x)
    ensures next == Basis(GF(), xs, i, j + 1, x)
  {
    var num := Add(x, xs[j]);
    var denom := Add(xs[i], xs[j]);
    SumIsZero(xs[i], xs[j]);
    var term := Div(num, denom);
    Quotient(num, denom);
    next := Mult(basis, term);
    FactorInField(xs, i, j, x, basis, term);
  }

  /** The end of the outer loop: add the group of sample `i`. */
  method AddGroup(xs: seq<byte>, ys: seq<byte>, i: nat, x: byte, basis: byte, result: byte) returns (next: byte)
    requires |xs| == |ys| && i < |xs| && basis == Basis(GF(), xs, i, |xs|, x)
    requires result == Lagrange(GF(), xs, ys, i, x)
    ensures next == Lagrange(GF(), xs, ys, i + 1, x)
  {
    var group := Mult(ys[i], basis);
    next := Add(result, group);
    assert Link(ys[i], basis) && Link(result, group);
  }

  /** The inner loop: the basis value of sample `i`. */
  method BasisAt(xs: seq<byte>, i: nat, x: byte) returns (basis: byte)
    requires Distinct(xs) && i < |xs|
    ensures basis == Basis(GF(), xs, i, |xs|, x)
  {
    basis := 1;
    for j := 0 to |xs|
      invariant basis == Basis(GF(), xs, i, j, x)
    {
      if i != j {
        basis := NextBasis(xs, i, j, x, basis);
      }
    }
  }

  /** Lagrange interpolation. Distinct samples keep the division away from its panic. */
  method InterpolatePolynomial(xs: seq<byte>, ys: seq<byte>, x: byte) returns (result: byte)
    requires |xs| == |ys| && Distinct(xs)
    ensures result == Lagrange(GF(), xs, ys, |xs|, x)
  {
    result := 0;
    for i := 0 to |xs|
      invariant result == Lagrange(GF(), xs, ys, i, x)
    {
      var basis := BasisAt(xs, i, x);
      result := AddGroup(xs, ys, i, x, basis, result);
    }
  }

  /** The first loop of `Split`: allocates every share and appends its tag. */
  method TagRows(out: array<seq<byte>>, n: nat, perm: seq<byte>)
    requires IsPermutation(perm) && out.Length <= 255
    modifies out
    ensures forall k :: 0 <= k < out.Length ==> |out[k]| == n + 1 && out[k][n] == Tag(perm, k)
  {
    for i := 0 to out.Length
      invariant forall k :: 0 <= k < i ==> |out[k]| == n + 1 && out[k][n] == Tag(perm, k)
    {
      out[i] := seq(n, _ => 0) + [Tag(perm, i)];
    }
  }

  /** The inner loop of `Split`: evaluates one polynomial at every tag. */
  method FillColumn(out: array<seq<byte>>, p: seq<byte>, idx: nat, perm: seq<byte>)
    requires IsPermutation(perm) && p != [] && out.Length <= 255
    requires forall k :: 0 <= k < out.Length ==> idx < |out[k]|
    modifies out
    ensures forall k :: 0 <= k < out.Length ==> out[k] == old(out[k])[idx := Eval(GF(), p, Tag(perm, k))]
  {
    for i := 0 to out.Length
      invariant forall k :: 0 <= k < i ==> out[k] == old(out[k])[idx := Eval(GF(), p, Tag(perm, k))]
      invariant forall k :: i <= k < out.Length ==> out[k] == old(out[k])
    {
      var y := Evaluate(p, Tag(perm, i));
      out[i] := out[i][idx := y];
    }
  }

  /** Writes one share byte per part for every byte of the secret. */
  method Split(secret: seq<byte>, parts: int, threshold: int, perm: seq<byte>, coins: Coins)
    returns (r: Result<seq<seq<byte>>>)
    requires IsPermutation(perm)
    ensures r == SplitSpec(secret, parts, threshold, perm, coins)
  {
    if parts < threshold { return Failure(PartsBelowThreshold); }
    if parts > 255 { return Failure(TooManyParts); }
    if threshold < 2 { return Failure(ThresholdTooSmall); }
    if threshold > 255 { return Failure(ThresholdTooLarge); }
    if secret == [] { return Failure(EmptySecret); }

    var n := |secret|;
    ghost var want := AllShares(secret, threshold - 1, parts, perm, coins);
    var out := new seq<byte>[parts](_ => []);
    TagRows(out, n, perm);
    for idx := 0 to n
      invariant forall k :: 0 <= k < parts ==> |out[k]| == n + 1 && out[k][n] == want[k][n]
      invariant forall k, b :: 0 <= k < parts && 0 <= b < idx ==> out[k][b] == want[k][b]
    {
      var p := Coefficients(secret[idx], threshold - 1, coins, idx);
      FillColumn(out, p, idx, perm);
    }
    forall k | 0 <= k < parts ensures out[k] == want[k] {}
    assert out[..] == want;
    r := Success(out[..]);
  }

  /** Collects the tags, refusing a repeated one. */
  method CollectTags(parts: seq<seq<byte>>, n: nat) returns (unique: bool, xSamples: seq<byte>)
    requires forall i :: 0 <= i < |parts| ==> n < |parts[i]|
    ensures unique == Distinct(Column(parts, n))
    ensures unique ==> xSamples == Column(parts, n)
  {
    ghost var xs := Column(parts, n);
    var samples := new byte[|parts|];
    var checkMap: map<byte, bool> := map[];
    for i := 0 to |parts|
      invariant samples[..i] == xs[..i]
      invariant forall v :: v in checkMap <==> v in xs[..i]
      invariant Distinct(xs[..i])
    {
      var samp := parts[i][n];
      if samp in checkMap {
        ghost var k :| 0 <= k < i && xs[..i][k] == samp;
        assert xs[k] == xs[i];
        return false, [];
      }
      checkMap := checkMap[samp := true];
      samples[i] := samp;
      assert xs[..i + 1] == xs[..i] + [samp];
    }
    assert xs[..|parts|] == xs && samples[..|parts|] == samples[..];
    return true, samples[..];
  }

  /** Sets the ordinate of every sample for byte `idx`. */
  method LoadColumn(ySamples: array<byte>, parts: seq<seq<byte>>, idx: nat)
    requires ySamples.Length == |parts| && forall i :: 0 <= i < |parts| ==> idx < |parts[i]|
    modifies ySamples
    ensures ySamples[..] == Column(parts, idx)
  {
    for i := 0 to |parts|
      invariant forall k :: 0 <= k < i ==> ySamples[k] == parts[k][idx]
    {
      ySamples[i] := parts[i][idx];
    }
  }

  method CheckLengths(parts: seq<seq<byte>>) returns (ok: bool)
    requires |parts| >= 2
    ensures ok == SameLength(parts)
  {
    for i := 1 to |parts|
      invariant forall k :: 0 <= k < i ==> |parts[k]| == |parts[0]|
    {
      if |parts[i]| != |parts[0]| { return false; }
    }
    return true;
  }

  /** The last loop of `Combine`: one interpolation at the origin per byte. */
  method InterpolateAll(parts: seq<seq<byte>>, n: nat, xSamples: seq<byte>) returns (r: seq<byte>)
    requires forall i :: 0 <= i < |parts| ==> |parts[i]| == n + 1
    requires xSamples == Column(parts, n) && Distinct(xSamples)
    ensures r == Interpolated(parts, n)
  {
    ghost var want := Interpolated(parts, n);
    var secret := new byte[n];
    var ySamples := new byte[|parts|];
    for idx := 0 to n
      invariant secret[..idx] == want[..idx]
    {
      LoadColumn(ySamples, parts, idx);
      var val := InterpolatePolynomial(xSamples, ySamples[..], 0);
      secret[idx] := val;
      assert want[..idx + 1] == want[..idx] + [val];
    }
    assert secret[..] == want;
    r := secret[..];
  }

  /** Checks the parts, then interpolates every byte at the origin. */
  method Combine(parts: seq<seq<byte>>) returns (r: Result<seq<byte>>)
    ensures r == CombineSpec(parts)
  {
    if |parts| < 2 { return Failure(TooFewParts); }
    var firstPartLen := |parts[0]|;
    if firstPartLen < 2 { return Failure(PartTooShort); }
    var sameLength := CheckLengths(parts);
    if !sameLength { return Failure(LengthMismatch); }
    var unique, xSamples := CollectTags(parts, firstPartLen - 1);
    if !unique { return Failure(DuplicatePart); }

    var secret := InterpolateAll(parts, firstPartLen - 1, xSamples);
    r := Success(secret);
  }
}
