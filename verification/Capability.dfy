/** Capability strings and their ranks. */
module Capability {
  import opened Prelude

  const CAP_READ := "read"
  const CAP_WRITE := "write"
  const CAP_SHARE := "share"
  const CAP_ADMIN := "admin"

  predicate IsCapability(c: string) {
    c == CAP_READ || c == CAP_WRITE || c == CAP_SHARE || c == CAP_ADMIN
  }

  /** Anything unknown, and the empty string, means write. */
  function NormalizeCapability(c: string): (r: string)
    ensures IsCapability(r)
  {
    var t := Lower(Trim(c));
    if t == CAP_READ then CAP_READ
    else if t == CAP_SHARE then CAP_SHARE
    else if t == CAP_ADMIN then CAP_ADMIN
    else CAP_WRITE
  }

  function RankOf(c: string): nat
  {
    if c == CAP_READ then 1 else if c == CAP_WRITE then 2 else if c == CAP_SHARE then 3 else if c == CAP_ADMIN then 4 else 0
  }

  function CapRank(c: string): (r: nat)
    ensures 1 <= r <= 4
  {
    RankOf(NormalizeCapability(c))
  }

  predicate CapAtLeast(have: string, want: string) { CapRank(have) >= CapRank(want) }

  /** Normal forms are fixed points, so ranks survive storing a normalised value. */
  lemma NormalizeIdempotent(c: string)
    ensures NormalizeCapability(NormalizeCapability(c)) == NormalizeCapability(c)
    ensures CapRank(NormalizeCapability(c)) == CapRank(c)
  {
    KnownRanks();
  }

  lemma KnownRanks()
    ensures NormalizeCapability(CAP_READ) == CAP_READ && CapRank(CAP_READ) == 1
    ensures NormalizeCapability(CAP_WRITE) == CAP_WRITE && CapRank(CAP_WRITE) == 2
    ensures NormalizeCapability(CAP_SHARE) == CAP_SHARE && CapRank(CAP_SHARE) == 3
    ensures NormalizeCapability(CAP_ADMIN) == CAP_ADMIN && CapRank(CAP_ADMIN) == 4
    ensures NormalizeCapability("") == CAP_WRITE && CapRank("") == 2
  {
    TrimKeeps(CAP_READ); TrimKeeps(CAP_WRITE); TrimKeeps(CAP_SHARE); TrimKeeps(CAP_ADMIN);
    assert Lower(CAP_READ) == CAP_READ;
    assert Lower(CAP_WRITE) == CAP_WRITE;
    assert Lower(CAP_SHARE) == CAP_SHARE;
    assert Lower(CAP_ADMIN) == CAP_ADMIN;
    assert Trim("") == "" && Lower("") == "";
  }

  /** A rank determines the normal form. */
  lemma RankDetermines(c: string, d: string)
    ensures CapRank(c) == CapRank(d) <==> NormalizeCapability(c) == NormalizeCapability(d)
  {}

  /** Only the three other words, in any case and with blanks around, mean something else than write. */
  lemma MeansWriteUnless(c: string)
    ensures NormalizeCapability(c) == CAP_WRITE <==> Lower(Trim(c)) !in {CAP_READ, CAP_SHARE, CAP_ADMIN}
    ensures Lower(Trim(c)) in {CAP_READ, CAP_SHARE, CAP_ADMIN} ==> NormalizeCapability(c) == Lower(Trim(c))
  {}

  // ---- Parsed form --------------------------------------------------------------------------

  /** A capability as the vault sees it. `Empty` is the empty string, which ranks as write. */
  datatype Cap = Empty | Read | Write | Share | Admin {
    function Rank(): (r: nat)
      ensures 1 <= r <= 4
    {
      match this case Read => 1 case Share => 3 case Admin => 4 case _ => 2
    }

    function Normal(): Cap { if this == Empty then Write else this }

    predicate AtLeast(want: Cap) { Rank() >= want.Rank() }
  }

  /** Only three things are ever asked of a capability string: whether it is empty, its normal form
      and its rank. */
  function Parse(s: string): Cap {
    if s == "" then Empty
    else match CapRank(s) case 1 => Read case 3 => Share case 4 => Admin case _ => Write
  }

  function Text(c: Cap): string {
    match c case Empty => "" case Read => CAP_READ case Write => CAP_WRITE case Share => CAP_SHARE case Admin => CAP_ADMIN
  }

  /** Working on parsed capabilities loses nothing. */
  lemma ParseFaithful(s: string)
    ensures Parse(s) == Empty <==> s == ""
    ensures Parse(s).Rank() == CapRank(s)
    ensures Text(Parse(s).Normal()) == NormalizeCapability(s)
  {
    KnownRanks();
  }
}
