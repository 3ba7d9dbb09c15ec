/** The paged secret list, and the clients that fetch it page by page. The list stays the same while they do. */
module Paging {
  import opened Numerals
  import opened Prelude

  const DEFAULT_LIMIT: nat := 200
  const MAX_LIMIT: nat := 500
  const PAGE_SIZE: nat := 200

  // ---- The server ---------------------------------------------------------------------------

  /** A text that is no acceptable number leaves the default. */
  function LimitOf(text: string, default: nat): nat {
    var n := Atoi(text);
    var limit: nat := if n.Some? && n.value > 0 then n.value else default;
    if limit > MAX_LIMIT then MAX_LIMIT else limit
  }

  function OffsetOf(text: string, default: nat): nat {
    var n := Atoi(text);
    if n.Some? && n.value >= 0 then n.value else default
  }

  method ParseLimitOffset(limitText: string, offsetText: string, defLimit: nat, defOffset: nat) returns (limit: nat, offset: nat)
    ensures limit == LimitOf(limitText, defLimit) && offset == OffsetOf(offsetText, defOffset)
  {
    limit, offset := defLimit, defOffset;
    if limitText != "" {
      var n := Atoi(limitText);
      if n.Some? && n.value > 0 { limit := n.value; }
    }
    if limit > MAX_LIMIT { limit := MAX_LIMIT; }
    if offsetText != "" {
      var n := Atoi(offsetText);
      if n.Some? && n.value >= 0 { offset := n.value; }
    }
  }

  /** A number asked for is the limit up to 500; zero, signs and anything else leave the default. */
  lemma LimitAsAsked(n: nat, default: nat)
    requires n <= MAX_INT
    ensures LimitOf(Itoa(n), default) == Min(if n == 0 then default else n, MAX_LIMIT)
    ensures OffsetOf(Itoa(n), default) == n
    ensures LimitOf("-" + Itoa(n), default) == Min(default, MAX_LIMIT)
  {
    AtoiItoa(n);
    NegatedItoa(n);
  }

  lemma NegatedItoa(n: nat)
    requires n <= MAX_INT
    ensures Atoi("-" + Itoa(n)).Some? && Atoi("-" + Itoa(n)).value + n == 0
  {
    DecimalItoa(n);
    assert ("-" + Itoa(n))[1..] == Itoa(n);
  }

  /** An answer as sent: an empty list has never been allocated and goes out as null, here None. */
  datatype Answer<T> = Answer(items: Option<seq<T>>, total: nat)

  function Min(a: nat, b: nat): nat { if a < b then a else b }

  /** The items from `offset` on, as many as asked for and allowed. */
  function Served<T>(list: seq<T>, limit: nat, offset: nat): Answer<T> {
    var from := Min(offset, |list|);
    Answer(if list == [] then None else Some(list[from..Min(from + Min(limit, MAX_LIMIT), |list|)]), |list|)
  }

  method HandleListSecrets<T>(filtered: seq<T>, limitText: string, offsetText: string) returns (answer: Answer<T>)
    ensures answer == Served(filtered, LimitOf(limitText, DEFAULT_LIMIT), OffsetOf(offsetText, 0))
  {
    var limit, offset := ParseLimitOffset(limitText, offsetText, DEFAULT_LIMIT, 0);
    var total := |filtered|;
    if offset > total { offset := total; }
    var end := offset + limit;
    if end > total { end := total; }
    answer := Answer(if total == 0 then None else Some(filtered[offset..end]), total);
  }

  /** A request as the clients write it. */
  method Get<T>(list: seq<T>, limit: nat, offset: nat) returns (answer: Answer<T>)
    requires 1 <= limit <= MAX_INT && offset <= MAX_INT
    ensures answer == Served(list, limit, offset)
  {
    AtoiItoa(limit);
    AtoiItoa(offset);
    answer := HandleListSecrets(list, Itoa(limit), Itoa(offset));
  }

  function Items<T>(answer: Answer<T>): seq<T> { if answer.items.Some? then answer.items.value else [] }

  // ---- The extension ------------------------------------------------------------------------

  /** Ends with the whole list in order, whatever its length. */
  method FetchAllExtension<T>(list: seq<T>) returns (all: seq<T>)
    requires |list| <= MAX_INT
    ensures all == list
  {
    all := [];
    var offset := 0;
    while true
      invariant offset <= |list| && all == list[..offset]
      invariant offset == 0 || offset < |list|
      decreases |list| - offset
    {
      var page := Get(list, PAGE_SIZE, offset);
      var items := Items(page);
      assert list[..offset] + items == list[..Min(offset + PAGE_SIZE, |list|)];
      all := all + items;
      if |items| == 0 || |all| >= page.total { break; }
      offset := offset + PAGE_SIZE;
    }
    assert list[..|list|] == list;
  }

  // ---- The command line ---------------------------------------------------------------------

  /** Ends with the whole list in order if there is one. The null of an empty list is taken for an older
      answer format, which it is not: the client reports an error, here None. */
  method FetchAllCli<T>(list: seq<T>) returns (all: Option<seq<T>>)
    requires |list| <= MAX_INT
    ensures all == if list == [] then None else Some(list)
  {
    var got: seq<T> := [];
    var offset := 0;
    while true
      invariant offset <= |list| && got == list[..offset]
      invariant offset == 0 || offset < |list|
      decreases |list| - offset
    {
      var page := Get(list, PAGE_SIZE, offset);
      if page.items.None? { return None; }
      var items := page.items.value;
      assert list[..offset] + items == list[..Min(offset + PAGE_SIZE, |list|)];
      got := got + items;
      if |got| >= page.total || |items| == 0 {
        assert list[..|list|] == list;
        return Some(got);
      }
      offset := offset + PAGE_SIZE;
    }
  }

  // ---- The web client -----------------------------------------------------------------------

  class Vault<T(==)> {
    const pageLimit: nat
    var secretsCache: seq<T>
    var secretsTotal: nat
    var secretsOffset: nat

    constructor (pageLimit: nat)
      requires pageLimit >= 1
      ensures this.pageLimit == pageLimit && secretsCache == [] && secretsTotal == 0 && secretsOffset == 0
    {
      this.pageLimit := pageLimit;
      secretsCache, secretsTotal, secretsOffset := [], 0, 0;
    }

    /** As many as are loaded now, at least a page, at most a given maximum. */
    function Target(preserveLoaded: bool, maxTarget: Option<nat>): nat
      reads this
    {
      var base := if preserveLoaded && |secretsCache| > pageLimit then |secretsCache| else pageLimit;
      match maxTarget
      case None => base
      case Some(m) => Min(base, if m > pageLimit then m else pageLimit)
    }

    /** One page more. */
    method LoadPage(list: seq<T>)
      requires 1 <= pageLimit <= MAX_LIMIT && |list| <= MAX_INT
      requires secretsCache <= list && secretsOffset == |secretsCache|
      modifies this
      ensures secretsTotal == |list| && secretsOffset == |secretsCache| && secretsCache <= list
      ensures |secretsCache| == Min(old(|secretsCache|) + pageLimit, |list|)
    {
      var data := Get(list, pageLimit, secretsOffset);
      secretsTotal := data.total;
      var page := Items(data);
      assert list[..secretsOffset] == secretsCache;
      assert secretsCache + page == list[..Min(secretsOffset + pageLimit, |list|)];
      secretsCache := secretsCache + page;
      secretsOffset := |secretsCache|;
    }

    /** Loads a prefix of the list: on a reset that preserves what was loaded at least the target, or all
        there is, and less than a page beyond; otherwise one page more. */
    method RefreshSecrets(list: seq<T>, reset: bool, preserve: bool, maxTarget: Option<nat>)
      requires 1 <= pageLimit <= MAX_LIMIT && |list| <= MAX_INT
      requires reset || (secretsCache <= list && secretsOffset == |secretsCache|)
      modifies this
      ensures secretsTotal == |list| && secretsOffset == |secretsCache| && secretsCache <= list
      ensures reset && preserve ==>
                var target := Min(old(Target(true, maxTarget)), |list|);
                target <= |secretsCache| < target + pageLimit
      ensures reset && !preserve ==> |secretsCache| == Min(pageLimit, |list|)
      ensures !reset ==> |secretsCache| == Min(old(|secretsCache|) + pageLimit, |list|)
    {
      var preserveLoaded := reset && preserve;
      var target := Target(preserveLoaded, maxTarget);
      if reset { secretsCache, secretsOffset := [], 0; }
      ghost var start := |secretsCache|;
      var more := true;
      while more
        invariant secretsOffset == |secretsCache| && secretsCache <= list
        invariant more ==> |secretsCache| == start || (preserveLoaded && |secretsCache| < Min(target, |list|))
        invariant !more ==>
                    && secretsTotal == |list|
                    && (if preserveLoaded then Min(target, |list|) <= |secretsCache| < Min(target, |list|) + pageLimit
                        else |secretsCache| == Min(start + pageLimit, |list|))
        decreases more, |list| - |secretsCache|
      {
        LoadPage(list);
        if !reset || !preserveLoaded || |secretsCache| >= secretsTotal { more := false; }
        else { more := |secretsCache| < Min(target, secretsTotal); }
      }
    }
  }
}
