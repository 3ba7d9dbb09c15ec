/** What splitting and combining promise together: enough shares give the secret back, fewer say nothing. */
module ShamirTheorems {
  import opened Polynomials
  import opened GF256
  import opened Shamir

  // ---- Tags ---------------------------------------------------------------------------------

  lemma TagsDiffer(perm: seq<byte>, i: nat, j: nat)
    requires IsPermutation(perm) && i < 255 && j < 255
    ensures Tag(perm, i) != 0
    ensures Tag(perm, i) == Tag(perm, j) <==> i == j
  {
    NoWrap(perm[i], perm[j]);
  }

  lemma NoWrap(x: byte, y: byte)
    requires x != 255 && y != 255
    ensures x + 1 != 0 && (x + 1 == y + 1 <==> x == y)
  {}

  /** The positions of the chosen shares among all shares. */
  lemma Positions(shares: seq<seq<byte>>, chosen: seq<seq<byte>>) returns (at: seq<nat>)
    requires forall s :: s in chosen ==> s in shares
    ensures |at| == |chosen|
    ensures forall i :: 0 <= i < |at| ==> at[i] < |shares| && shares[at[i]] == chosen[i]
  {
    at := [];
    for i := 0 to |chosen|
      invariant |at| == i
      invariant forall k :: 0 <= k < i ==> at[k] < |shares| && shares[at[k]] == chosen[k]
    {
      assert chosen[i] in shares;
      var k :| 0 <= k < |shares| && shares[k] == chosen[i];
      at := at + [k];
    }
  }

  // ---- Reconstruction -----------------------------------------------------------------------

  /** Any list, in any order, of at least `threshold` shares of one split gives exactly the secret,
      unless a share is repeated; then it is refused as a duplicate. */
  lemma Reconstruction(secret: seq<byte>, parts: int, threshold: int, perm: seq<byte>, coins: Coins,
                       chosen: seq<seq<byte>>)
    requires IsPermutation(perm) && SplitSpec(secret, parts, threshold, perm, coins).Success?
    requires forall s :: s in chosen ==> s in SplitSpec(secret, parts, threshold, perm, coins).value
    requires |chosen| >= threshold
    ensures CombineSpec(chosen) == if Distinct(chosen) then Success(secret) else Failure(DuplicatePart)
  {
    var shares := SplitSpec(secret, parts, threshold, perm, coins).value;
    var n := |secret|;
    var at := Positions(shares, chosen);
    assert forall i :: 0 <= i < |chosen| ==> chosen[i] == Share(secret, threshold - 1, perm, coins, at[i]);
    var xs := Column(chosen, n);
    forall i, j | 0 <= i < j < |chosen| ensures xs[i] == xs[j] <==> chosen[i] == chosen[j] {
      TagsDiffer(perm, at[i], at[j]);
    }
    assert Distinct(xs) <==> Distinct(chosen);
    if Distinct(chosen) {
      forall idx | 0 <= idx < n ensures Interpolated(chosen, n)[idx] == secret[idx] {
        var p := Coefficients(secret[idx], threshold - 1, coins, idx);
        LagrangeExact(GF(), p, xs, Column(chosen, idx), 0);
        EvalAtZero(GF(), p);
      }
      assert Interpolated(chosen, n) == secret;
    }
  }

  // ---- Answers ------------------------------------------------------------------------------

  /** What `Combine` asks of its parts. */
  ghost predicate Combinable(parts: seq<seq<byte>>) {
    && |parts| >= 2
    && (forall p :: p in parts ==> |p| == |parts[0]| >= 2)
    && forall i, j :: 0 <= i < j < |parts| ==> parts[i] != [] && parts[j] != [] && Last(parts[i]) != Last(parts[j])
  }

  function Last(p: seq<byte>): byte
    requires p != []
  {
    p[|p| - 1]
  }

  /** The cause each failure stands for. */
  ghost predicate CombineCause(parts: seq<seq<byte>>, e: Error) {
    match e
    case TooFewParts => |parts| < 2
    case PartTooShort => |parts| >= 2 && |parts[0]| < 2
    case LengthMismatch => |parts| >= 2 && |parts[0]| >= 2 && exists i :: 0 < i < |parts| && |parts[i]| != |parts[0]|
    case DuplicatePart =>
      && |parts| >= 2 && |parts[0]| >= 2 && (forall p :: p in parts ==> |p| == |parts[0]|)
      && exists i, j :: 0 <= i < j < |parts| && parts[i] != [] && parts[j] != [] && Last(parts[i]) == Last(parts[j])
    case _ => false
  }

  lemma TagsAreLast(parts: seq<seq<byte>>)
    requires |parts| >= 1 && |parts[0]| >= 1 && forall p :: p in parts ==> |p| == |parts[0]|
    ensures SameLength(parts)
    ensures Distinct(Column(parts, |parts[0]| - 1)) <==>
              forall i, j :: 0 <= i < j < |parts| ==> parts[i] != [] && parts[j] != [] && Last(parts[i]) != Last(parts[j])
  {
    var c := Column(parts, |parts[0]| - 1);
    forall i | 0 <= i < |parts| ensures |parts[i]| == |parts[0]| && c[i] == Last(parts[i]) { assert parts[i] in parts; }
  }

  /** Combining succeeds exactly for two or more parts of one length of at least two with pairwise different
      last bytes, with one byte less than a part; every failure has its own cause. */
  lemma CombineAnswers(parts: seq<seq<byte>>, r: Result<seq<byte>>)
    requires r == CombineSpec(parts)
    ensures r.Success? <==> Combinable(parts)
    ensures r.Success? ==> |r.value| == |parts[0]| - 1
    ensures forall e :: r == Failure(e) <==> CombineCause(parts, e)
  {
    if |parts| >= 2 && |parts[0]| >= 2 {
      assert SameLength(parts) <==> forall p :: p in parts ==> |p| == |parts[0]| by {
        if SameLength(parts) { assert forall p :: p in parts ==> |p| == |parts[0]|; }
        if forall p :: p in parts ==> |p| == |parts[0]| { TagsAreLast(parts); }
      }
      if SameLength(parts) { TagsAreLast(parts); }
    }
  }

  /** Whatever the parts: each byte of a success is the intercept of the one polynomial, with as many
      coefficients as there are parts, through the points that the parts stand for. */
  lemma CombineIsIntercept(parts: seq<seq<byte>>, idx: nat, p: seq<byte>)
    requires CombineSpec(parts).Success? && idx < |parts[0]| - 1 && |p| == |parts|
    requires forall i :: 0 <= i < |parts| ==> idx < |parts[i]| && Eval(GF(), p, Last(parts[i])) == parts[i][idx]
    ensures CombineSpec(parts).value[idx] == p[0]
  {
    var n := |parts[0]| - 1;
    forall i | 0 <= i < |parts| ensures Column(parts, n)[i] == Last(parts[i]) {}
    LagrangeExact(GF(), p, Column(parts, n), Column(parts, idx), 0);
    EvalAtZero(GF(), p);
  }

  /** The cause each failure of `Split` stands for. */
  predicate SplitCause(secret: seq<byte>, parts: int, threshold: int, e: Error) {
    match e
    case PartsBelowThreshold => parts < threshold
    case TooManyParts => threshold <= parts && 255 < parts
    case ThresholdTooSmall => threshold < 2 && threshold <= parts <= 255
    case EmptySecret => 2 <= threshold <= parts <= 255 && secret == []
    case _ => false
  }

  /** The shares lie, byte by byte, on polynomials with `threshold` coefficients and the secret as intercept, at
      tags that are not the origin and differ from share to share. */
  ghost predicate SharesOf(shares: seq<seq<byte>>, secret: seq<byte>, threshold: nat) {
    && (forall i :: 0 <= i < |shares| ==> |shares[i]| == |secret| + 1 && Last(shares[i]) != 0)
    && (forall i, j :: 0 <= i < j < |shares| ==> shares[i] != [] && shares[j] != [] && Last(shares[i]) != Last(shares[j]))
    && forall idx :: 0 <= idx < |secret| ==> ByteShared(shares, secret, threshold, idx)
  }

  ghost predicate ByteShared(shares: seq<seq<byte>>, secret: seq<byte>, threshold: nat, idx: nat) {
    exists p: seq<byte> :: OnPolynomial(shares, secret, threshold, idx, p)
  }

  ghost predicate OnPolynomial(shares: seq<seq<byte>>, secret: seq<byte>, threshold: nat, idx: nat, p: seq<byte>) {
    && idx < |secret| && |p| == threshold && p != [] && p[0] == secret[idx]
    && forall i :: 0 <= i < |shares| ==> idx < |shares[i]| && Eval(GF(), p, Last(shares[i])) == shares[i][idx]
  }

  /** Splitting succeeds exactly for a non-empty secret and 2 <= threshold <= parts <= 255; then it gives that many shares. */
  lemma SplitAnswers(secret: seq<byte>, parts: int, threshold: int, perm: seq<byte>, coins: Coins,
                     r: Result<seq<seq<byte>>>)
    requires IsPermutation(perm) && r == SplitSpec(secret, parts, threshold, perm, coins)
    ensures r.Success? <==> secret != [] && 2 <= threshold <= parts <= 255
    ensures r.Success? ==> |r.value| == parts && SharesOf(r.value, secret, threshold)
    ensures forall e :: r == Failure(e) <==> SplitCause(secret, parts, threshold, e)
  {
    if r.Success? {
      var shares := r.value;
      forall i | 0 <= i < parts ensures |shares[i]| == |secret| + 1 && Last(shares[i]) == Tag(perm, i) != 0 {
        TagsDiffer(perm, i, i);
      }
      forall i, j | 0 <= i < j < parts ensures Last(shares[i]) != Last(shares[j]) { TagsDiffer(perm, i, j); }
      forall idx | 0 <= idx < |secret| ensures ByteShared(shares, secret, threshold, idx) {
        var p := Coefficients(secret[idx], threshold - 1, coins, idx);
        assert OnPolynomial(shares, secret, threshold, idx, p);
      }
    }
  }

  // ---- Secrecy ------------------------------------------------------------------------------

  /** The one polynomial with intercept `candidate` through the given points. */
  ghost function PolyThrough(xs: seq<byte>, ys: seq<byte>, candidate: byte): (p: seq<byte>)
    requires |xs| == |ys|
    ensures |p| == |xs| + 1
  {
    LagrangePoly(GF(), [0] + xs, [candidate] + ys, |xs| + 1)
  }

  ghost predicate PassesThrough(p: seq<byte>, xs: seq<byte>, ys: seq<byte>, candidate: byte)
    requires |xs| == |ys| && |p| == |xs| + 1
  {
    p[0] == candidate && forall i :: 0 <= i < |xs| ==> Eval(GF(), p, xs[i]) == ys[i]
  }

  /** Through any k share points there is, for every candidate byte, exactly one polynomial with k + 1
      coefficients and that intercept: below the threshold every secret byte is equally possible. */
  lemma ExactlyOnePolynomial(xs: seq<byte>, ys: seq<byte>, candidate: byte)
    requires |xs| == |ys| && Distinct(xs) && 0 !in xs
    ensures PassesThrough(PolyThrough(xs, ys, candidate), xs, ys, candidate)
    ensures forall q: seq<byte> :: |q| == |xs| + 1 && PassesThrough(q, xs, ys, candidate)
              ==> q == PolyThrough(xs, ys, candidate)
  {
    var xs0, ys0, p := [0] + xs, [candidate] + ys, PolyThrough(xs, ys, candidate);
    forall i | 0 <= i < |xs0| ensures Eval(GF(), p, xs0[i]) == ys0[i] {
      EvalLagrangePoly(GF(), xs0, ys0, |xs0|, xs0[i]);
      LagrangeAtSample(GF(), xs0, ys0, |xs0|, i);
    }
    EvalAtZero(GF(), p);
    assert xs0[0] == 0;
    forall i | 0 <= i < |xs| ensures Eval(GF(), p, xs[i]) == ys[i] { assert xs0[i + 1] == xs[i]; }
    forall q: seq<byte> | |q| == |xs| + 1 && PassesThrough(q, xs, ys, candidate) ensures q == p {
      EvalAtZero(GF(), q);
      Uniqueness(GF(), q, p, xs0);
    }
  }

  /** The tags and the `idx`-th bytes of the observed shares. */
  ghost function Tags(perm: seq<byte>, seen: seq<nat>): (xs: seq<byte>)
    requires IsPermutation(perm) && forall i :: 0 <= i < |seen| ==> seen[i] < 255
    ensures |xs| == |seen| && forall i :: 0 <= i < |seen| ==> xs[i] == Tag(perm, seen[i])
  {
    seq(|seen|, i requires 0 <= i < |seen| => Tag(perm, seen[i]))
  }

  ghost function Bytes(shares: seq<seq<byte>>, seen: seq<nat>, idx: nat): (ys: seq<byte>)
    requires forall i :: 0 <= i < |seen| ==> seen[i] < |shares| && idx < |shares[seen[i]]|
    ensures |ys| == |seen| && forall i :: 0 <= i < |seen| ==> ys[i] == shares[seen[i]][idx]
  {
    seq(|seen|, i requires 0 <= i < |seen| => shares[seen[i]][idx])
  }

  ghost predicate SameView(shares: seq<seq<byte>>, other: seq<seq<byte>>, seen: seq<nat>) {
    forall i :: 0 <= i < |seen| ==> seen[i] < |shares| && seen[i] < |other| && shares[seen[i]] == other[seen[i]]
  }

  /** The coins that would have produced the same view from another secret. */
  ghost function OtherCoins(shares: seq<seq<byte>>, other: seq<byte>, perm: seq<byte>, seen: seq<nat>): Coins
    requires IsPermutation(perm)
    requires forall i :: 0 <= i < |seen| ==> seen[i] < |shares| && seen[i] < 255
    requires forall i :: 0 <= i < |shares| ==> |shares[i]| == |other| + 1
  {
    (idx: nat, j: nat) =>
      if idx < |other| && j < |seen|
      then PolyThrough(Tags(perm, seen), Bytes(shares, seen, idx), other[idx])[j + 1]
      else 0
  }

  lemma CoinsGivePolynomial(shares: seq<seq<byte>>, other: seq<byte>, perm: seq<byte>, seen: seq<nat>, idx: nat)
    requires IsPermutation(perm) && idx < |other|
    requires forall k :: 0 <= k < |seen| ==> seen[k] < |shares| && seen[k] < 255
    requires forall k :: 0 <= k < |shares| ==> |shares[k]| == |other| + 1
    requires PolyThrough(Tags(perm, seen), Bytes(shares, seen, idx), other[idx])[0] == other[idx]
    ensures Coefficients(other[idx], |seen|, OtherCoins(shares, other, perm, seen), idx)
         == PolyThrough(Tags(perm, seen), Bytes(shares, seen, idx), other[idx])
  {}

  lemma SameByte(shares: seq<seq<byte>>, other: seq<byte>, perm: seq<byte>, seen: seq<nat>, i: nat, idx: nat)
    requires IsPermutation(perm) && Distinct(seen) && i < |seen| && idx < |other|
    requires forall k :: 0 <= k < |seen| ==> seen[k] < |shares| && seen[k] < 255
    requires forall k :: 0 <= k < |shares| ==> |shares[k]| == |other| + 1
    ensures shares[seen[i]][idx]
         == Eval(GF(), Coefficients(other[idx], |seen|, OtherCoins(shares, other, perm, seen), idx), Tag(perm, seen[i]))
  {
    var xs, ys := Tags(perm, seen), Bytes(shares, seen, idx);
    TagsAreSamples(perm, seen);
    ExactlyOnePolynomial(xs, ys, other[idx]);
    CoinsGivePolynomial(shares, other, perm, seen, idx);
  }

  lemma SameShare(secret: seq<byte>, other: seq<byte>, parts: int, threshold: int, perm: seq<byte>,
                  coins: Coins, seen: seq<nat>, i: nat)
    requires IsPermutation(perm) && SplitSpec(secret, parts, threshold, perm, coins).Success?
    requires |other| == |secret| && Distinct(seen) && |seen| == threshold - 1 && i < |seen|
    requires forall i :: 0 <= i < |seen| ==> seen[i] < parts
    ensures var shares := SplitSpec(secret, parts, threshold, perm, coins).value;
            shares[seen[i]] == Share(other, threshold - 1, perm, OtherCoins(shares, other, perm, seen), seen[i])
  {
    var shares := SplitSpec(secret, parts, threshold, perm, coins).value;
    forall idx | 0 <= idx < |other|
      ensures shares[seen[i]][idx]
           == Eval(GF(), Coefficients(other[idx], |seen|, OtherCoins(shares, other, perm, seen), idx), Tag(perm, seen[i]))
    {
      SameByte(shares, other, perm, seen, i, idx);
    }
  }

  lemma OnlyTheseCoins(secret: seq<byte>, other: seq<byte>, parts: int, threshold: int, perm: seq<byte>,
                       coins: Coins, seen: seq<nat>, coins'': Coins, idx: nat, j: nat)
    requires IsPermutation(perm) && SplitSpec(secret, parts, threshold, perm, coins).Success?
    requires |other| == |secret| && Distinct(seen) && |seen| == threshold - 1
    requires forall i :: 0 <= i < |seen| ==> seen[i] < parts
    requires SameView(SplitSpec(secret, parts, threshold, perm, coins).value,
                      AllShares(other, threshold - 1, parts, perm, coins''), seen)
    requires idx < |secret| && j < threshold - 1
    ensures coins''(idx, j) == OtherCoins(SplitSpec(secret, parts, threshold, perm, coins).value, other, perm, seen)(idx, j)
  {
    var shares := SplitSpec(secret, parts, threshold, perm, coins).value;
    var xs, ys := Tags(perm, seen), Bytes(shares, seen, idx);
    var q := Coefficients(other[idx], threshold - 1, coins'', idx);
    TagsAreSamples(perm, seen);
    ExactlyOnePolynomial(xs, ys, other[idx]);
    assert PassesThrough(q, xs, ys, other[idx]);
    assert q[j + 1] == coins''(idx, j);
  }

  /** Whoever holds threshold - 1 shares cannot tell the secret from any other of the same length:
      exactly one choice of coins makes the other secret produce the very same shares. */
  lemma Secrecy(secret: seq<byte>, other: seq<byte>, parts: int, threshold: int, perm: seq<byte>,
                coins: Coins, seen: seq<nat>) returns (coins': Coins)
    requires IsPermutation(perm) && SplitSpec(secret, parts, threshold, perm, coins).Success?
    requires |other| == |secret| && Distinct(seen) && |seen| == threshold - 1
    requires forall i :: 0 <= i < |seen| ==> seen[i] < parts
    ensures SplitSpec(other, parts, threshold, perm, coins').Success?
    ensures SameView(SplitSpec(secret, parts, threshold, perm, coins).value,
                     SplitSpec(other, parts, threshold, perm, coins').value, seen)
    ensures forall coins'': Coins, idx: nat, j: nat ::
              SameView(SplitSpec(secret, parts, threshold, perm, coins).value,
                       AllShares(other, threshold - 1, parts, perm, coins''), seen)
              && idx < |secret| && j < threshold - 1
              ==> coins''(idx, j) == coins'(idx, j)
  {
    var shares := SplitSpec(secret, parts, threshold, perm, coins).value;
    coins' := OtherCoins(shares, other, perm, seen);
    forall i | 0 <= i < |seen|
      ensures shares[seen[i]] == Share(other, threshold - 1, perm, coins', seen[i])
    {
      SameShare(secret, other, parts, threshold, perm, coins, seen, i);
    }
    forall coins'': Coins, idx: nat, j: nat
      | SameView(shares, AllShares(other, threshold - 1, parts, perm, coins''), seen) && idx < |secret| && j < threshold - 1
      ensures coins''(idx, j) == coins'(idx, j)
    {
      OnlyTheseCoins(secret, other, parts, threshold, perm, coins, seen, coins'', idx, j);
    }
  }

  lemma TagsAreSamples(perm: seq<byte>, seen: seq<nat>)
    requires IsPermutation(perm) && Distinct(seen) && forall i :: 0 <= i < |seen| ==> seen[i] < 255
    ensures Distinct(Tags(perm, seen)) && 0 !in Tags(perm, seen)
  {
    forall i, j | 0 <= i < j < |seen| ensures Tags(perm, seen)[i] != Tags(perm, seen)[j] {
      TagsDiffer(perm, seen[i], seen[j]);
    }
    forall i | 0 <= i < |seen| ensures Tags(perm, seen)[i] != 0 { TagsDiffer(perm, seen[i], seen[i]); }
  }

  lemma {:induction false} FreshPosition(seen: seq<nat>, bound: nat) returns (k: nat)
    requires |seen| < bound
    ensures k < bound && k !in seen
    decreases bound
  {
    var last := bound - 1;
    if last !in seen {
      k := last;
    } else {
      var i :| 0 <= i < |seen| && seen[i] == last;
      k := FreshPosition(seen[..i] + seen[i + 1..], last);
    }
  }

  /** Any number of shares below the threshold is consistent with every secret of that length. */
  lemma {:induction false} FewerSharesSayNothing(secret: seq<byte>, other: seq<byte>, parts: int, threshold: int,
                                                 perm: seq<byte>, coins: Coins, seen: seq<nat>)
    returns (coins': Coins)
    requires IsPermutation(perm) && SplitSpec(secret, parts, threshold, perm, coins).Success?
    requires |other| == |secret| && Distinct(seen) && |seen| < threshold
    requires forall i :: 0 <= i < |seen| ==> seen[i] < parts
    ensures SplitSpec(other, parts, threshold, perm, coins').Success?
    ensures SameView(SplitSpec(secret, parts, threshold, perm, coins).value,
                     SplitSpec(other, parts, threshold, perm, coins').value, seen)
    decreases threshold - |seen|
  {
    if |seen| == threshold - 1 {
      coins' := Secrecy(secret, other, parts, threshold, perm, coins, seen);
    } else {
      var k := FreshPosition(seen, parts);
      var more := seen + [k];
      coins' := FewerSharesSayNothing(secret, other, parts, threshold, perm, coins, more);
      assert forall i :: 0 <= i < |seen| ==> more[i] == seen[i];
    }
  }
}
