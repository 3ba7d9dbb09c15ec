/** Release version comparison. */
module Versions {
  import opened Prelude
  import opened Lexicographic
  import opened Numerals

  // ---- Text ---------------------------------------------------------------------------------

  /** The first position of `c`, or the length. */
  function IndexOf(s: string, c: char): (i: nat)
    ensures i <= |s| && (i < |s| ==> s[i] == c) && forall k :: 0 <= k < i ==> s[k] != c
  {
    if s == "" || s[0] == c then 0 else 1 + IndexOf(s[1..], c)
  }

  function SplitDots(s: string): (parts: seq<string>)
    ensures |parts| >= 1
    decreases |s|
  {
    var i := IndexOf(s, '.');
    if i == |s| then [s] else [s[..i]] + SplitDots(s[i + 1..])
  }

  // ---- Parsing ------------------------------------------------------------------------------

  datatype Version = Version(core: seq<int>, pre: string) {
    ghost predicate Valid() { |core| == 3 && '+' !in pre && forall i :: 0 <= i < 3 ==> 0 <= core[i] <= MAX_INT }
  }

  function Numbers(parts: seq<string>): (r: Option<seq<int>>)
    ensures r.Some? ==> |r.value| == |parts| && forall i :: 0 <= i < |parts| ==> 0 <= r.value[i] <= MAX_INT
  {
    if parts == [] then Some([])
    else
      var init, last := Numbers(parts[..|parts| - 1]), Atoi(parts[|parts| - 1]);
      if init.None? || last.None? || last.value < 0 then None else Some(init.value + [last.value])
  }

  /** Missing numbers count as zero. */
  function Padded(numbers: seq<int>): seq<int>
    requires |numbers| <= 3
  {
    numbers + [0, 0, 0][|numbers|..]
  }

  /** Core text and pre-release of a version text; build metadata is dropped. */
  function Cut(s: string): Option<(string, string)> {
    var t := Trim(s);
    var u := if t != "" && t[0] == 'v' then t[1..] else t;
    if u == "" then None
    else
      Some(CutStripped(u))
  }

  /** The two cuts of a text that has been trimmed and stripped of its lead. */
  function CutStripped(u: string): (string, string) { CutAt(CutAt(u, '+').0, '-') }

  /** What is before the first `c`, and what is after it. */
  function CutAt(s: string, c: char): (string, string) {
    var i := IndexOf(s, c);
    (s[..i], if i == |s| then "" else s[i + 1..])
  }

  function CoreSpec(parts: seq<string>): (r: Option<seq<int>>)
    ensures r.Some? ==> |r.value| == 3 && forall i :: 0 <= i < 3 ==> 0 <= r.value[i] <= MAX_INT
  {
    var numbers := Numbers(parts);
    if |parts| > 3 || numbers.None? then None else Some(Padded(numbers.value))
  }

  function ParseSpec(s: string): (r: Option<Version>)
    ensures r.Some? ==> r.value.Valid()
  {
    match Cut(s)
    case None => None
    case Some((text, pre)) =>
      var core := CoreSpec(SplitDots(text));
      if core.None? then None else Some(Version(core.value, pre))
  }

  method Parse(s: string) returns (r: Option<Version>)
    ensures r == ParseSpec(s)
  {
    var t := Trim(s);
    if t != "" && t[0] == 'v' { t := t[1..]; }
    if t == "" { return None; }
    t := t[..IndexOf(t, '+')];
    var pre := "";
    var i := IndexOf(t, '-');
    if i < |t| {
      pre := t[i + 1..];
      t := t[..i];
    } else {
      assert t[..i] == t;
    }
    var core := ParseCore(SplitDots(t));
    if core.None? { return None; }
    return Some(Version(core.value, pre));
  }

  method ParseCore(parts: seq<string>) returns (r: Option<seq<int>>)
    ensures r == CoreSpec(parts)
  {
    if |parts| > 3 { return None; }
    var core := [0, 0, 0];
    for k := 0 to |parts|
      invariant |core| == 3
      invariant Numbers(parts[..k]).Some? && core == Padded(Numbers(parts[..k]).value)
    {
      Snoc(parts, k);
      var n := Atoi(parts[k]);
      if n.None? || n.value < 0 {
        NoNumbers(parts, k + 1);
        return None;
      }
      core := core[k := n.value];
    }
    assert parts[..|parts|] == parts;
    return Some(core);
  }

  lemma {:induction false} NoNumbers(parts: seq<string>, k: nat)
    requires k <= |parts| && Numbers(parts[..k]).None?
    ensures Numbers(parts).None?
  {
    if k == |parts| {
      assert parts[..k] == parts;
    } else {
      assert parts[..|parts| - 1][..k] == parts[..k];
      NoNumbers(parts[..|parts| - 1], k);
    }
  }

  // ---- Reading back what was written --------------------------------------------------------

  lemma DotBefore(s: string, t: string)
    requires '.' !in s
    ensures SplitDots(s + "." + t) == [s] + SplitDots(t)
  {
    var u := s + "." + t;
    assert u[|s|] == '.' && forall k :: 0 <= k < |s| ==> u[k] == s[k];
    assert IndexOf(u, '.') == |s|;
    assert u[..|s|] == s && u[|s| + 1..] == t;
  }

  lemma NoDots(s: string)
    requires '.' !in s
    ensures SplitDots(s) == [s]
  {
    assert IndexOf(s, '.') == |s|;
  }

  /** The parts with dots between them. */
  function Join(parts: seq<string>): string
    requires parts != []
  {
    if |parts| == 1 then parts[0] else parts[0] + "." + Join(parts[1..])
  }

  predicate NoneWithin(parts: seq<string>, c: char) { forall i :: 0 <= i < |parts| ==> c !in parts[i] }

  /** Splitting takes apart exactly what was joined. */
  lemma {:induction false} SplitJoin(parts: seq<string>)
    requires parts != [] && NoneWithin(parts, '.')
    ensures SplitDots(Join(parts)) == parts
  {
    if |parts| == 1 {
      NoDots(parts[0]);
      assert parts == [parts[0]];
    } else {
      SplitJoin(parts[1..]);
      DotBefore(parts[0], Join(parts[1..]));
      assert parts == [parts[0]] + parts[1..];
    }
  }

  lemma {:induction false} JoinAvoids(parts: seq<string>, c: char)
    requires parts != [] && NoneWithin(parts, c) && c != '.'
    ensures c !in Join(parts)
  {
    if |parts| > 1 { JoinAvoids(parts[1..], c); }
  }

  lemma {:induction false} JoinStarts(parts: seq<string>)
    requires parts != [] && parts[0] != ""
    ensures Join(parts) != "" && Join(parts)[0] == parts[0][0]
  {}

  function CoreText(numbers: seq<nat>): string
    requires numbers != []
  {
    Join(Texts(numbers))
  }

  function Texts(numbers: seq<nat>): (texts: seq<string>)
    ensures |texts| == |numbers| && forall i :: 0 <= i < |texts| ==> texts[i] == Itoa(numbers[i])
  {
    seq(|numbers|, i requires 0 <= i < |numbers| => Itoa(numbers[i]))
  }

  /** The text of a core has digits and dots only, and splits into its numbers. */
  lemma CoreTextIs(numbers: seq<nat>)
    requires numbers != []
    ensures SplitDots(CoreText(numbers)) == Texts(numbers)
    ensures CoreText(numbers) != "" && IsDigit(CoreText(numbers)[0]) && '+' !in CoreText(numbers) && '-' !in CoreText(numbers)
  {
    var ts := Texts(numbers);
    assert NoneWithin(ts, '.') && NoneWithin(ts, '+') && NoneWithin(ts, '-');
    SplitJoin(ts);
    JoinAvoids(ts, '+');
    JoinAvoids(ts, '-');
    JoinStarts(ts);
    assert ts[0] == Itoa(numbers[0]);
  }

  lemma AtoiOfItoa(n: nat)
    ensures Atoi(Itoa(n)) == if n <= MAX_INT then Some(n) else None
  {
    DecimalItoa(n);
    assert IsDigit(Itoa(n)[0]);
  }

  predicate FitInt(numbers: seq<nat>) { forall i :: 0 <= i < |numbers| ==> numbers[i] <= MAX_INT }

  lemma NumbersMore(init: seq<string>, n: nat)
    ensures Numbers(init + [Itoa(n)])
         == if Numbers(init).Some? && n <= MAX_INT then Some(Numbers(init).value + [n]) else None
  {
    var parts := init + [Itoa(n)];
    assert parts[..|parts| - 1] == init;
    AtoiOfItoa(n);
  }

  lemma {:induction false} NumbersOfTexts(numbers: seq<nat>)
    ensures Numbers(Texts(numbers)) == if FitInt(numbers) then Some(numbers) else None
  {
    if numbers != [] {
      var init, last := numbers[..|numbers| - 1], numbers[|numbers| - 1];
      assert numbers == init + [last];
      assert Texts(numbers) == Texts(init) + [Itoa(last)];
      NumbersOfTexts(init);
      NumbersMore(Texts(init), last);
      assert FitInt(numbers) <==> FitInt(init) && last <= MAX_INT;
    }
  }

  lemma {:induction false} IndexAfter(s: string, t: string, c: char)
    requires c !in s
    ensures IndexOf(s + t, c) == |s| + IndexOf(t, c)
  {
    if s == "" {
      assert s + t == t;
    } else {
      assert (s + t)[1..] == s[1..] + t;
      IndexAfter(s[1..], t, c);
    }
  }

  function Rendered(numbers: seq<nat>, pre: string, meta: string): string
    requires numbers != []
  {
    Joined(Joined(CoreText(numbers), '-', pre), '+', meta)
  }

  /** The text with `c` and the rest after it, if there is a rest. */
  function Joined(head: string, c: char, rest: string): string { head + if rest == "" then "" else [c] + rest }

  lemma CutsJoined(head: string, c: char, rest: string)
    requires c !in head
    ensures CutAt(Joined(head, c, rest), c) == (head, rest)
  {
    var s := Joined(head, c, rest);
    if rest == "" {
      IndexAfter(head, "", c);
      assert s == head + "" == head;
    } else {
      IndexAfter(head, [c] + rest, c);
      assert s == head + ([c] + rest) && s[..|head|] == head && s[|head| + 1..] == rest;
    }
  }

  lemma CutRendered(numbers: seq<nat>, pre: string, meta: string)
    requires numbers != [] && '+' !in pre
    ensures CutStripped(Rendered(numbers, pre, meta)) == (CoreText(numbers), pre)
  {
    CoreTextIs(numbers);
    CutsJoined(Joined(CoreText(numbers), '-', pre), '+', meta);
    CutsJoined(CoreText(numbers), '-', pre);
  }

  lemma LeadStripped(lead: string, u: string)
    requires (lead == "" || lead == "v") && u != "" && IsDigit(u[0]) && !IsSpace(u[|u| - 1])
    ensures var t := lead + u; t != "" && Trim(t) == t && (if t[0] == 'v' then t[1..] else t) == u
  {
    var t := lead + u;
    assert t[|t| - 1] == u[|u| - 1];
    TrimKeeps(t);
    if lead == "v" { assert t[1..] == u; } else { assert t == u; }
  }

  lemma CutIs(s: string, u: string)
    requires u != "" && Trim(s) != "" && (if Trim(s)[0] == 'v' then Trim(s)[1..] else Trim(s)) == u
    ensures Cut(s) == Some(CutStripped(u))
  {}

  lemma CutWithLead(lead: string, numbers: seq<nat>, pre: string, meta: string)
    requires (lead == "" || lead == "v") && numbers != [] && '+' !in pre
    requires var u := Rendered(numbers, pre, meta); u != "" && !IsSpace(u[|u| - 1])
    ensures Cut(lead + Rendered(numbers, pre, meta)) == Some((CoreText(numbers), pre))
  {
    var u := Rendered(numbers, pre, meta);
    CoreTextIs(numbers);
    assert u[0] == CoreText(numbers)[0];
    LeadStripped(lead, u);
    CutIs(lead + u, u);
    CutRendered(numbers, pre, meta);
  }

  lemma ParseFromCut(s: string, text: string, pre: string, parts: seq<string>)
    requires Cut(s) == Some((text, pre)) && SplitDots(text) == parts
    ensures ParseSpec(s) == if CoreSpec(parts).None? then None else Some(Version(CoreSpec(parts).value, pre))
  {}

  lemma CoreOfTexts(numbers: seq<nat>)
    ensures CoreSpec(Texts(numbers))
         == if |numbers| <= 3 && FitInt(numbers) then Some(numbers + [0, 0, 0][|numbers|..]) else None
  {
    NumbersOfTexts(numbers);
  }

  /** Version text as it is written, with a leading v or without, reads back as its numbers, padded with zeros, and
      its pre-release; build metadata is dropped. More than three numbers, or one beyond an int, make no version. */
  lemma ParsesRendered(lead: string, numbers: seq<nat>, pre: string, meta: string)
    requires (lead == "" || lead == "v") && numbers != [] && '+' !in pre
    requires var u := Rendered(numbers, pre, meta); u != "" && !IsSpace(u[|u| - 1])
    ensures ParseSpec(lead + Rendered(numbers, pre, meta))
         == if |numbers| <= 3 && FitInt(numbers) then Some(Version(numbers + [0, 0, 0][|numbers|..], pre)) else None
  {
    CutWithLead(lead, numbers, pre, meta);
    CoreTextIs(numbers);
    CoreOfTexts(numbers);
    ParseFromCut(lead + Rendered(numbers, pre, meta), CoreText(numbers), pre, Texts(numbers));
  }

  // ---- Comparing ----------------------------------------------------------------------------

  /** A pre-release identifier. */
  datatype Id = Num(n: int) | Text(s: string)

  /** What the code takes an identifier for. */
  function Classify(s: string): Id {
    match Atoi(s) case Some(n) => Num(n) case None => Text(s)
  }

  function Sign(n: int): int { if n < 0 then -1 else if n > 0 then 1 else 0 }

  function CompareInts(a: int, b: int): int { Sign(a - b) }

  function CompareChars(a: char, b: char): int { Sign(a as int - b as int) }

  function CompareTexts(s: string, t: string): int { Sign(Lex(CompareChars, s, t)) }

  function CompareIds(a: Id, b: Id): int {
    match (a, b)
    case (Num(m), Num(n)) => CompareInts(m, n)
    case (Num(_), Text(_)) => -1
    case (Text(_), Num(_)) => 1
    case (Text(s), Text(t)) => CompareTexts(s, t)
  }

  function Ids(parts: seq<string>, classify: string -> Id): (ids: seq<Id>)
    ensures |ids| == |parts| && forall i :: 0 <= i < |parts| ==> ids[i] == classify(parts[i])
  {
    seq(|parts|, i requires 0 <= i < |parts| => classify(parts[i]))
  }

  function PreSpec(local: string, remote: string): int {
    if local == "" then (if remote == "" then 0 else 1)
    else if remote == "" then -1
    else Sign(Lex(CompareIds, Ids(SplitDots(local), Classify), Ids(SplitDots(remote), Classify)))
  }

  function CompareSpec(l: Version, r: Version): int {
    if Lex(CompareInts, l.core, r.core) != 0 then Lex(CompareInts, l.core, r.core) else PreSpec(l.pre, r.pre)
  }

  method ComparePre(local: string, remote: string) returns (c: int)
    ensures c == PreSpec(local, remote)
  {
    if local == "" && remote == "" { return 0; }
    if local == "" { return 1; }
    if remote == "" { return -1; }
    var ls, rs := SplitDots(local), SplitDots(remote);
    ghost var ids, jds := Ids(ls, Classify), Ids(rs, Classify);
    var i := 0;
    while i < |ls| || i < |rs|
      invariant i <= |ls| && i <= |rs|
      invariant Lex(CompareIds, ids, jds) == Lex(CompareIds, ids[i..], jds[i..])
      decreases |ls| - i
    {
      LexFrom(CompareIds, ids, jds, i);
      if i >= |ls| { return -1; }
      if i >= |rs| { return 1; }
      var ln, rn := Atoi(ls[i]), Atoi(rs[i]);
      if ln.Some? && rn.Some? {
        if ln.value < rn.value { return -1; }
        if ln.value > rn.value { return 1; }
      } else {
        if ln.Some? { return -1; }
        if rn.Some? { return 1; }
        var t := CompareTexts(ls[i], rs[i]);
        if t < 0 { return -1; }
        if t > 0 { return 1; }
      }
      i := i + 1;
    }
    LexFrom(CompareIds, ids, jds, i);
    return 0;
  }

  /** None when either text is no comparable release version. */
  method Compare(local: string, remote: string) returns (c: Option<int>)
    ensures c.Some? <==> ParseSpec(local).Some? && ParseSpec(remote).Some?
    ensures c.Some? ==> c.value == CompareSpec(ParseSpec(local).value, ParseSpec(remote).value)
  {
    var l := Parse(local);
    if l.None? { return None; }
    var r := Parse(remote);
    if r.None? { return None; }
    var a, b := l.value.core, r.value.core;
    for i := 0 to 3
      invariant Lex(CompareInts, a, b) == Lex(CompareInts, a[i..], b[i..])
    {
      LexFrom(CompareInts, a, b, i);
      if a[i] < b[i] { return Some(-1); }
      if a[i] > b[i] { return Some(1); }
    }
    var pre := ComparePre(l.value.pre, r.value.pre);
    return Some(pre);
  }

  // ---- A total preorder ---------------------------------------------------------------------

  lemma TextsOrdered()
    ensures IsOrder(CompareTexts)
  {
    assert IsOrder(CompareChars);
    forall s { LexReflexive(CompareChars, s); }
    forall s, t { LexAntisymmetric(CompareChars, s, t); }
    forall s, t, u | CompareTexts(s, t) <= 0 && CompareTexts(t, u) <= 0 ensures CompareTexts(s, u) <= 0 {
      LexTransitive(CompareChars, s, t, u);
    }
  }

  lemma IdsOrdered()
    ensures IsOrder(CompareIds)
  {
    TextsOrdered();
  }

  /** Comparison is a total preorder on all parseable versions: reflexive, antisymmetric in sign, transitive. */
  lemma CompareIsOrder(a: Version, b: Version, c: Version)
    ensures CompareSpec(a, a) == 0
    ensures CompareSpec(a, b) == -CompareSpec(b, a)
    ensures CompareSpec(a, b) <= 0 && CompareSpec(b, c) <= 0 ==> CompareSpec(a, c) <= 0
  {
    assert IsOrder(CompareInts);
    LexReflexive(CompareInts, a.core);
    LexAntisymmetric(CompareInts, a.core, b.core);
    PreOrdered(a.pre, b.pre, c.pre);
    if CompareSpec(a, b) <= 0 && CompareSpec(b, c) <= 0 {
      LexTransitive(CompareInts, a.core, b.core, c.core);
      if Lex(CompareInts, a.core, c.core) == 0 {
        LexAntisymmetric(CompareInts, a.core, c.core);
        LexAntisymmetric(CompareInts, b.core, c.core);
        LexTransitive(CompareInts, c.core, a.core, b.core);
        LexTransitive(CompareInts, b.core, c.core, a.core);
      }
    }
  }

  lemma PreOrdered(a: string, b: string, c: string)
    ensures PreSpec(a, a) == 0
    ensures PreSpec(a, b) == -PreSpec(b, a)
    ensures PreSpec(a, b) <= 0 && PreSpec(b, c) <= 0 ==> PreSpec(a, c) <= 0
  {
    IdsOrdered();
    var x, y, z := Ids(SplitDots(a), Classify), Ids(SplitDots(b), Classify), Ids(SplitDots(c), Classify);
    LexReflexive(CompareIds, x);
    LexAntisymmetric(CompareIds, x, y);
    if Lex(CompareIds, x, y) <= 0 && Lex(CompareIds, y, z) <= 0 {
      LexTransitive(CompareIds, x, y, z);
    }
  }

  // ---- Semantic Versioning 2.0.0, section 11 ------------------------------------------------

  /** What the standard takes an identifier for: digits only are numeric, all else is text. */
  function StandardId(s: string): Id { if AllDigits(s) then Num(Decimal(s)) else Text(s) }

  predicate IntLess(m: int, n: int) { m < n }

  predicate CharLess(a: char, b: char) { a < b }

  /** Numbers numerically and before texts; texts by their first differing character, shorter ones first. */
  ghost predicate IdLess(a: Id, b: Id) {
    match (a, b)
    case (Num(m), Num(n)) => m < n
    case (Num(_), Text(_)) => true
    case (Text(_), Num(_)) => false
    case (Text(s), Text(t)) => FirstDifferenceLess(CharLess, s, t)
  }

  /** Precedence by the first differing field; a pre-release precedes its release; all fields equal, fewer come first. */
  ghost predicate Precedes(a: Version, b: Version) {
    || FirstDifferenceLess(IntLess, a.core, b.core)
    || (a.core == b.core && a.pre != "" && b.pre == "")
    || (a.core == b.core && a.pre != "" && b.pre != ""
        && FirstDifferenceLess((x, y) => IdLess(x, y), Ids(SplitDots(a.pre), StandardId), Ids(SplitDots(b.pre), StandardId)))
  }

  /** Digits only and within an int, or something the code does not take for a number. */
  predicate Plain(s: string) {
    if AllDigits(s) then Decimal(s) <= MAX_INT else Atoi(s).None?
  }

  predicate PlainPre(pre: string) {
    forall i :: 0 <= i < |SplitDots(pre)| ==> Plain(SplitDots(pre)[i])
  }

  lemma ClassifiedRightIff(s: string)
    ensures Classify(s) == StandardId(s) <==> Plain(s)
  {
    if AllDigits(s) {
      assert IsDigit(s[0]);
    }
  }

  lemma TextsDecided(s: string, t: string)
    ensures CompareTexts(s, t) < 0 <==> FirstDifferenceLess(CharLess, s, t)
    ensures CompareTexts(s, t) == 0 <==> s == t
  {
    assert Decides(CompareChars, CharLess);
    LexDecides(CompareChars, CharLess, s, t);
  }

  lemma IdsDecided()
    ensures Decides(CompareIds, (x, y) => IdLess(x, y))
  {
    forall s, t { TextsDecided(s, t); }
  }

  lemma SameIds(pre: string)
    requires PlainPre(pre)
    ensures Ids(SplitDots(pre), Classify) == Ids(SplitDots(pre), StandardId)
  {
    forall i | 0 <= i < |SplitDots(pre)| ensures Classify(SplitDots(pre)[i]) == StandardId(SplitDots(pre)[i]) {
      ClassifiedRightIff(SplitDots(pre)[i]);
    }
  }

  /** Where every identifier is plain, the comparison is the standard's precedence. */
  lemma AgreesWithStandard(a: Version, b: Version)
    requires PlainPre(a.pre) && PlainPre(b.pre)
    ensures CompareSpec(a, b) < 0 <==> Precedes(a, b)
  {
    assert Decides(CompareInts, IntLess);
    LexDecides(CompareInts, IntLess, a.core, b.core);
    if a.core == b.core {
      EqualDoNotDiffer(a.core);
    }
    SameIds(a.pre);
    SameIds(b.pre);
    IdsDecided();
    LexDecides(CompareIds, (x, y) => IdLess(x, y), Ids(SplitDots(a.pre), StandardId), Ids(SplitDots(b.pre), StandardId));
  }

  lemma EqualDoNotDiffer(core: seq<int>)
    ensures !FirstDifferenceLess(IntLess, core, core)
  {}

  /** Agreement on a pair of identifiers, both ways round. */
  ghost predicate AgreeOn(s: string, t: string) {
    && (CompareIds(Classify(s), Classify(t)) < 0 <==> IdLess(StandardId(s), StandardId(t)))
    && (CompareIds(Classify(s), Classify(t)) > 0 <==> IdLess(StandardId(t), StandardId(s)))
  }

  /** The condition is exact: an identifier is compared as the standard says with every plain one if and
      only if it is plain itself. A signed number is not, nor are digits beyond an int. */
  lemma PlainIff(s: string)
    ensures Plain(s) <==> forall t :: Plain(t) ==> AgreeOn(s, t)
  {
    if Plain(s) {
      forall t | Plain(t) ensures AgreeOn(s, t) { PlainAgree(s, t); }
    } else if AllDigits(s) {
      assert Plain("-") && !AgreeOn(s, "-") by { BigAgainstHyphen(s); }
    } else if s[0] == '-' {
      assert Plain("0") && !AgreeOn(s, "0") by { NegativeAgainstZero(s); }
    } else {
      assert Plain(s[1..]) && !AgreeOn(s, s[1..]);
    }
  }

  lemma PlainAgree(s: string, t: string)
    requires Plain(s) && Plain(t)
    ensures AgreeOn(s, t)
  {
    ClassifiedRightIff(s);
    ClassifiedRightIff(t);
    IdsDecided();
    IdsOrdered();
    assert CompareIds(Classify(s), Classify(t)) == -CompareIds(Classify(t), Classify(s));
  }

  lemma BigAgainstHyphen(s: string)
    requires AllDigits(s) && !Plain(s)
    ensures Plain("-") && !AgreeOn(s, "-")
  {
    assert IsDigit(s[0]);
    assert Lex(CompareChars, s, "-") > 0;
  }

  lemma NegativeAgainstZero(s: string)
    requires s != "" && s[0] == '-' && Atoi(s).Some?
    ensures Plain("0") && !AgreeOn(s, "0")
  {
    assert AllDigits("0") && Decimal("0") == 0;
    assert Classify("0") == Num(0) && StandardId("0") == Num(0);
    assert !AllDigits(s) by { assert !IsDigit(s[0]); }
  }

  // ---- The same for whole versions ----------------------------------------------------------

  lemma {:induction false} PartsAvoid(s: string, c: char)
    requires c == '.' || c !in s
    ensures NoneWithin(SplitDots(s), c)
    decreases |s|
  {
    var k := IndexOf(s, '.');
    if k < |s| {
      PartsAvoid(s[k + 1..], c);
      assert c !in s[..k];
    }
  }

  /** The text with its identifiers from the i-th on replaced by a hyphen. */
  function UpTo(s: string, i: nat): string
    requires i < |SplitDots(s)|
  {
    Join(SplitDots(s)[..i] + ["-"])
  }

  lemma UpToSplits(s: string, i: nat)
    requires i < |SplitDots(s)|
    ensures SplitDots(UpTo(s, i)) == SplitDots(s)[..i] + ["-"]
    ensures UpTo(s, i) != "" && ('+' !in s ==> '+' !in UpTo(s, i))
  {
    PartsAvoid(s, '.');
    var parts := SplitDots(s)[..i] + ["-"];
    SplitJoin(parts);
    NoDots("");
    if '+' !in s {
      PartsAvoid(s, '+');
      JoinAvoids(parts, '+');
    }
  }

  ghost predicate AgreeOnVersions(a: Version, b: Version) {
    && (CompareSpec(a, b) < 0 <==> Precedes(a, b))
    && (CompareSpec(a, b) > 0 <==> Precedes(b, a))
  }

  /** Exactly the versions with plain identifiers only compare as the standard says with every such version. */
  lemma VersionPlainIff(a: Version)
    requires a.Valid()
    ensures PlainPre(a.pre) <==> forall b: Version :: b.Valid() && PlainPre(b.pre) ==> AgreeOnVersions(a, b)
  {
    if PlainPre(a.pre) {
      forall b: Version | b.Valid() && PlainPre(b.pre) ensures AgreeOnVersions(a, b) {
        AgreesWithStandard(a, b);
        AgreesWithStandard(b, a);
        CompareIsOrder(a, b, b);
      }
    } else {
      var i := FirstOdd(SplitDots(a.pre));
      OddDisagrees(a, i);
    }
  }

  lemma {:induction false} FirstOdd(parts: seq<string>) returns (i: nat)
    requires exists k :: 0 <= k < |parts| && !Plain(parts[k])
    ensures i < |parts| && !Plain(parts[i]) && forall k :: 0 <= k < i ==> Plain(parts[k])
  {
    i := 0;
    while Plain(parts[i])
      invariant i < |parts| && forall k :: 0 <= k < i ==> Plain(parts[k])
      invariant exists k :: 0 <= k < |parts| && !Plain(parts[k])
      decreases |parts| - i
    {
      i := i + 1;
    }
  }

  /** A hyphen comes out on the other side of an identifier that is not plain. */
  lemma OddAgainstHyphen(s: string)
    requires !Plain(s) && '+' !in s
    ensures Plain("-") && Classify("-") == StandardId("-") == Text("-")
    ensures || (CompareIds(Classify(s), Text("-")) > 0 && IdLess(StandardId(s), Text("-")))
            || (CompareIds(Classify(s), Text("-")) < 0 && IdLess(Text("-"), StandardId(s)))
  {
    assert !AllDigits("-") by { assert !IsDigit("-"[0]); }
    if AllDigits(s) {
      assert IsDigit(s[0]);
      assert Lex(CompareChars, s, "-") > 0;
    } else {
      assert s[0] == '-' && |s| > 1;
      assert LessAt(CharLess, "-", s, 1);
    }
  }

  /** Identifier lists that agree before position i and are told apart there by code and standard alike. */
  lemma DecidedAt(ps: seq<string>, qs: seq<string>, i: nat)
    requires i < |ps| && i < |qs| && ps[..i] == qs[..i] && CompareIds(Classify(ps[i]), Classify(qs[i])) != 0
    ensures Lex(CompareIds, Ids(ps, Classify), Ids(qs, Classify)) == CompareIds(Classify(ps[i]), Classify(qs[i]))
    ensures IdLess(StandardId(ps[i]), StandardId(qs[i])) ==>
              FirstDifferenceLess((x, y) => IdLess(x, y), Ids(ps, StandardId), Ids(qs, StandardId))
  {
    IdsOrdered();
    SamePrefix(ps, qs, i, Classify);
    SamePrefix(ps, qs, i, StandardId);
    CommonPrefix(CompareIds, Ids(ps, Classify), Ids(qs, Classify), i);
    if IdLess(StandardId(ps[i]), StandardId(qs[i])) {
      assert LessAt((x, y) => IdLess(x, y), Ids(ps, StandardId), Ids(qs, StandardId), i);
    }
  }

  lemma SamePrefix(ps: seq<string>, qs: seq<string>, i: nat, classify: string -> Id)
    requires i <= |ps| && i <= |qs| && ps[..i] == qs[..i]
    ensures Ids(ps, classify)[..i] == Ids(qs, classify)[..i]
  {
    forall k | 0 <= k < i ensures ps[k] == qs[k] { assert ps[..i][k] == qs[..i][k]; }
  }

  /** Versions of the same core whose pre-releases are compared at identifier i, the two ways round. */
  lemma DisagreeAt(a: Version, b: Version, i: nat)
    requires a.core == b.core && a.pre != "" && b.pre != ""
    requires var ps, qs := SplitDots(a.pre), SplitDots(b.pre);
             && i < |ps| && i < |qs| && ps[..i] == qs[..i]
             && var c := CompareIds(Classify(ps[i]), Classify(qs[i]));
             && c == -CompareIds(Classify(qs[i]), Classify(ps[i]))
             && ((c > 0 && IdLess(StandardId(ps[i]), StandardId(qs[i])))
                 || (c < 0 && IdLess(StandardId(qs[i]), StandardId(ps[i]))))
    ensures !AgreeOnVersions(a, b)
  {
    assert IsOrder(CompareInts);
    LexReflexive(CompareInts, a.core);
    DecidedAt(SplitDots(a.pre), SplitDots(b.pre), i);
    DecidedAt(SplitDots(b.pre), SplitDots(a.pre), i);
  }

  lemma OddDisagrees(a: Version, i: nat)
    requires a.Valid() && i < |SplitDots(a.pre)| && !Plain(SplitDots(a.pre)[i])
    requires forall k :: 0 <= k < i ==> Plain(SplitDots(a.pre)[k])
    ensures exists b: Version :: b.Valid() && PlainPre(b.pre) && !AgreeOnVersions(a, b)
  {
    var b := Version(a.core, UpTo(a.pre, i));
    var s := SplitDots(a.pre)[i];
    UpToSplits(a.pre, i);
    PartsAvoid(a.pre, '+');
    OddAgainstHyphen(s);
    IdsOrdered();
    assert CompareIds(Classify(s), Text("-")) == -CompareIds(Text("-"), Classify(s));
    BlankPlain();
    DisagreeAt(a, b, i);
    assert b.Valid() && PlainPre(b.pre);
  }

  lemma BlankPlain()
    ensures PlainPre("")
  {
    assert SplitDots("") == [""];
  }

  /** Pre-releases of one identifier each compare as their identifiers. */
  lemma SingleIdentifiers(s: string, t: string)
    requires s != "" && t != "" && IndexOf(s, '.') == |s| && IndexOf(t, '.') == |t|
    ensures PreSpec(s, t) == Sign(CompareIds(Classify(s), Classify(t)))
    ensures IdLess(StandardId(s), StandardId(t))
         || !FirstDifferenceLess((x, y) => IdLess(x, y), Ids(SplitDots(s), StandardId), Ids(SplitDots(t), StandardId))
  {
    assert Ids(SplitDots(s), StandardId) == [StandardId(s)] && Ids(SplitDots(t), StandardId) == [StandardId(t)];
    assert Ids(SplitDots(s), Classify) == [Classify(s)] && Ids(SplitDots(t), Classify) == [Classify(t)];
    Singletons(CompareIds, (x, y) => IdLess(x, y), Classify(s), Classify(t));
    Singletons(CompareIds, (x, y) => IdLess(x, y), StandardId(s), StandardId(t));
  }

  lemma SignedText()
    ensures Classify("-1") == Num(-1) && StandardId("-1") == Text("-1")
    ensures Classify("0") == Num(0) && StandardId("0") == Num(0)
  {
    assert AllDigits("0") && Decimal("0") == 0;
    assert AllDigits("1") && "-1"[1..] == "1" && Decimal("1") == 1;
    assert !AllDigits("-1") by { assert !IsDigit("-1"[0]); }
  }

  /** The versions 1.0.0--1 and 1.0.0-0: the standard puts the text after the number, the code the other way. */
  lemma SignedIdentifierDiffers()
    ensures CompareSpec(Version([1, 0, 0], "-1"), Version([1, 0, 0], "0")) < 0
    ensures !Precedes(Version([1, 0, 0], "-1"), Version([1, 0, 0], "0"))
  {
    SignedText();
    SingleIdentifiers("-1", "0");
    assert IsOrder(CompareInts);
    LexReflexive(CompareInts, [1, 0, 0]);
    EqualDoNotDiffer([1, 0, 0]);
  }
}
