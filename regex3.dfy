/** The compiler of the final version (regex.cpp of the third stage): it walks
    the parse tree and appends numbered states and ordered rule lists to its
    `Nfa`.  A rule's position in a list is its priority, since the executor
    tries the LAST listed rule first. */
module Regex3 {
  import opened Automaton
  import opened RegexTree
  import opened Nfa3Spec
  import opened Nfa3
  import opened Match3

  // ----- single items -----

  /** The character a token stands for: `\f \n \r \t \v` are control
      characters, any other escape is the escaped character itself. */
  function Unescape(t: CharToken): char
  {
    match t
    case Plain(c) => c
    case Escaped(c) =>
      if c == 'f' then FormFeed
      else if c == 'n' then '\n'
      else if c == 'r' then '\r'
      else if c == 't' then '\t'
      else if c == 'v' then VerticalTab
      else c
  }

  /** Membership in one of the six character classes. */
  predicate ClassHas(kind: ClassKind, c: char)
  {
    match kind
    case AnyWord => IsWord(c)
    case AnyWordInverted => !IsWord(c)
    case AnyDecimalDigit => IsDigit(c)
    case AnyDecimalDigitInverted => !IsDigit(c)
    case AnyBlank => IsSpace(c)
    case AnyBlankInverted => !IsSpace(c)
  }

  /** Whether a group member covers `c`.  A range's ends are the FIRST
      characters of the members' texts, so an escaped end counts as `\`. */
  predicate ItemCovers(item: CharacterGroupItem, c: char)
  {
    match item
    case CharInGroup(t) => c == Unescape(t)
    case ClassInGroup(kind) => ClassHas(kind, c)
    case CharacterRange(lo, hi) => lo.Text()[0] <= c <= hi.Text()[0]
  }

  predicate InGroup(items: seq<CharacterGroupItem>, c: char)
  {
    exists k :: 0 <= k < |items| && ItemCovers(items[k], c)
  }

  /** The membership table of a `[...]` group: a slot is `!negated` exactly
      when some member covers it. */
  function GroupTable(negated: bool, items: seq<CharacterGroupItem>): (t: seq<bool>)
    ensures |t| == 129
  {
    seq(129, j requires 0 <= j < 129 => if InGroup(items, j as char) then !negated else negated)
  }

  /** The rule `compileSingle` creates for `s`, leading to `dst`. */
  function SingleRule(s: Single, dst: int): (r: Rule)
    ensures r.dst == dst && r.kind != Epsilon
    ensures r.kind == RuleType.Group ==> |r.guard.table| == 129
  {
    match s
    case CharSingle(t) => Rule(dst, Normal, Guard([Unescape(t)], "", []))
    case ClassSingle(kind) => Rule(dst, Special, Guard([kind.Letter()], "", []))
    case AnyCharacter => Rule(dst, Special, Guard(".", "", []))
    case CharacterGroup(negated, items) => Rule(dst, RuleType.Group, Guard("", "", GroupTable(negated, items)))
  }

  /** What a single item means on its own: the characters it accepts. */
  predicate Accepts(s: Single, a: char, flagS: bool)
  {
    match s
    case CharSingle(t) => a == Unescape(t)
    case ClassSingle(kind) => ClassHas(kind, a)
    case AnyCharacter => flagS || (a != '\n' && a != '\r')
    case CharacterGroup(negated, items) => InGroup(items, a) != negated
  }

  /** The compiled rule accepts exactly the characters the item means. */
  lemma SingleRuleMatches(s: Single, dst: int, a: char, flagS: bool)
    requires (a as int) < 129
    ensures Matches(SingleRule(s, dst), a, flagS) <==> Accepts(s, a, flagS)
  {
  }

  lemma InGroupSnoc(items: seq<CharacterGroupItem>, i: nat)
    requires i < |items|
    ensures forall c :: InGroup(items[..i + 1], c) <==> InGroup(items[..i], c) || ItemCovers(items[i], c)
  {
    forall c
      ensures InGroup(items[..i + 1], c) <==> InGroup(items[..i], c) || ItemCovers(items[i], c)
    {
      if InGroup(items[..i + 1], c) {
        var k :| 0 <= k < i + 1 && ItemCovers(items[..i + 1][k], c);
        if k < i {
          assert items[..i][k] == items[..i + 1][k];
        }
      }
      if InGroup(items[..i], c) {
        var k :| 0 <= k < i && ItemCovers(items[..i][k], c);
        assert items[..i + 1][k] == items[..i][k];
      }
      if ItemCovers(items[i], c) {
        assert items[..i + 1][i] == items[i];
      }
    }
  }

  /** The table loops of `compileSingle`: every slot starts at `negated`, and
      each member sets the slots it covers to `!negated`. */
  method BuildGroupTable(negated: bool, items: seq<CharacterGroupItem>) returns (t: seq<bool>)
    requires forall k :: 0 <= k < |items| ==> GroupItemInTable(items[k])
    ensures t == GroupTable(negated, items)
  {
    var table := new bool[129];
    for j := 0 to 129
      invariant forall c :: 0 <= c < j ==> table[c] == negated
    {
      table[j] := negated;
    }
    for i := 0 to |items|
      invariant forall c :: 0 <= c < 129 ==>
        table[c] == if InGroup(items[..i], c as char) then !negated else negated
    {
      InGroupSnoc(items, i);
      SetMember(table, items[i], !negated);
    }
    t := table[..];
    assert items[..|items|] == items;
  }

  /** One member's loop: the slots it covers become `value`. */
  method SetMember(table: array<bool>, item: CharacterGroupItem, value: bool)
    requires table.Length == 129 && GroupItemInTable(item)
    modifies table
    ensures forall c :: 0 <= c < 129 ==>
      table[c] == if ItemCovers(item, c as char) then value else old(table[c])
  {
    match item
    case CharInGroup(tok) =>
      table[Unescape(tok) as int] := value;
    case ClassInGroup(kind) =>
      for j := 0 to 129
        invariant forall c :: 0 <= c < 129 ==>
          table[c] == if c < j && ClassHas(kind, c as char) then value else old(table[c])
      {
        if ClassHas(kind, j as char) {
          table[j] := value;
        }
      }
    case CharacterRange(lo, hi) =>
      var start := lo.Text()[0] as int;
      var end := hi.Text()[0] as int;
      var j := start;
      while j <= end
        invariant start <= j <= if start <= end then end + 1 else start
        invariant forall c :: 0 <= c < 129 ==>
          table[c] == if start <= c < j then value else old(table[c])
      {
        table[j] := value;
        j := j + 1;
      }
  }

  // ----- the compiler -----

  /** An epsilon rule into `dst` when `on`, nothing otherwise. */
  function Edge(on: bool, dst: int): seq<Rule>
  {
    if on then [Eps(dst)] else []
  }

  /** `?` and `*` get a skip edge round their body. */
  predicate Skips(t: QuantifierType) { t.ZeroOrOne? || t.ZeroOrMore? }

  /** `*` and `+` get a repeat edge back to their entry. */
  predicate Repeats(t: QuantifierType) { t.ZeroOrMore? || t.OneOrMore? }

  predicate Capturing(ni: NormalItem) { ni.Group? && !ni.nonCapturing }

  function AnchorTag(a: AnchorKind): string
  {
    match a
    case StartOfString => "^"
    case EndOfString => "$"
    case WordBoundary => "b"
    case NonWordBoundary => "B"
  }

  /** The copies `{m}`, `{m,n}` and `{m,}` compile: `m` forced ones, then
      `n-m` optional ones (none when `n < m`) or one repeatable one. */
  function Copies(t: QuantifierType): nat
    requires t.RangeQuantifier?
  {
    t.lower +
      if !t.delimiter then 0
      else if t.upper.None? then 1
      else if t.upper.value > t.lower then t.upper.value - t.lower
      else 0
  }

  /** The copies a range quantifier has laid so far, from `stops[0]` whose
      rules were `base`: copy `j` runs from `stops[j]` to `stops[j + 1]`, the
      copies follow one another, and each copy's start got its entry edge
      after what it had; a copy from number `lower` on is optional and its
      start also got the skip edge to `SkipTarget`, at the front when greedy
      and at the back when lazy. */
  ghost predicate CopiesLaid(rules: seq<seq<Rule>>, base: seq<Rule>, stops: seq<int>, t: QuantifierType, lazy: bool)
    requires t.RangeQuantifier?
  {
    && |stops| >= 1
    && (forall j :: 0 <= j < |stops| ==> 0 <= stops[j] < |rules|)
    && Rising(stops)
    && (forall j :: 0 <= j < |stops| - 1 ==> CopyLaid(rules, base, stops, t, lazy, j))
  }

  /** Copy `j` of `CopiesLaid`: its start's rules. */
  ghost predicate CopyLaid(rules: seq<seq<Rule>>, base: seq<Rule>, stops: seq<int>, t: QuantifierType, lazy: bool, j: int)
    requires t.RangeQuantifier?
  {
    && 0 <= j && j + 1 < |stops| && 0 <= stops[j] < |rules|
    && rules[stops[j]] ==
         Edge(j >= t.lower && !lazy, SkipTarget(t, stops[j + 1])) + (if j == 0 then base else []) +
         [Eps(stops[j] + 1)] + Edge(j >= t.lower && lazy, SkipTarget(t, stops[j + 1]))
  }

  /** The shape `{m}`, `{m,n}` and `{m,}` leave: all their copies laid; the
      repeatable copy of `{m,}` skips to the state `x` before its end, which
      carries the repeat edge back to the copy's start (behind the way on when
      greedy, in front of it when lazy). */
  ghost predicate CopyChain(rules: seq<seq<Rule>>, base: seq<Rule>, stops: seq<int>, t: QuantifierType, lazy: bool)
    requires t.RangeQuantifier?
  {
    && |stops| == Copies(t) + 1
    && CopiesLaid(rules, base, stops, t, lazy)
    && (t.delimiter && t.upper.None? ==>
          var x := stops[|stops| - 1] - 1;
          var m := stops[|stops| - 2];
          m < x && rules[x] == Edge(lazy, m) + [Eps(x + 1)] + Edge(!lazy, m))
  }

  /** One more copy, laid from the state the last one ended in up to `e`,
      keeps `CopiesLaid`. */
  lemma LaidSnoc(r0: seq<seq<Rule>>, r1: seq<seq<Rule>>, base: seq<Rule>, stops: seq<int>,
                 t: QuantifierType, lazy: bool, e: int)
    requires t.RangeQuantifier? && CopiesLaid(r0, base, stops, t, lazy)
    requires stops[|stops| - 1] == |r0| - 1 < e < |r1|
    requires forall q :: 0 <= q < |r0| - 1 ==> r1[q] == r0[q]
    requires r0[|r0| - 1] == if |stops| == 1 then base else []
    requires var nc, k := |r0| - 1, |stops| - 1;
      r1[nc] == Edge(k >= t.lower && !lazy, SkipTarget(t, e)) + r0[nc] + [Eps(nc + 1)] + Edge(k >= t.lower && lazy, SkipTarget(t, e))
    ensures CopiesLaid(r1, base, stops + [e], t, lazy)
  {
    var stops' := stops + [e];
    assert forall j :: 0 <= j < |stops| ==> stops'[j] == stops[j];
    forall k | 0 < k < |stops'|
      ensures Above(stops', k)
    {
      if k < |stops| {
        assert Above(stops, k);
      }
    }
    forall j | 0 <= j < |stops'| - 1
      ensures CopyLaid(r1, base, stops', t, lazy, j)
    {
      if j < |stops| - 1 {
        RisingOrdered(stops, j, |stops| - 1);
        LaidOld(r0, r1, base, stops, t, lazy, e, j);
      } else {
        LaidNew(r0, r1, base, stops, t, lazy, e);
      }
    }
  }

  /** An earlier copy whose start keeps its rules stays laid. */
  lemma LaidOld(r0: seq<seq<Rule>>, r1: seq<seq<Rule>>, base: seq<Rule>, stops: seq<int>,
                t: QuantifierType, lazy: bool, e: int, j: nat)
    requires t.RangeQuantifier? && j + 1 < |stops| && CopyLaid(r0, base, stops, t, lazy, j)
    requires stops[j] < |r1| && r1[stops[j]] == r0[stops[j]]
    ensures CopyLaid(r1, base, stops + [e], t, lazy, j)
  {
    var stops' := stops + [e];
    assert stops'[j] == stops[j] && stops'[j + 1] == stops[j + 1];
  }

  /** The copy from the last stop to `e`. */
  lemma LaidNew(r0: seq<seq<Rule>>, r1: seq<seq<Rule>>, base: seq<Rule>, stops: seq<int>,
                t: QuantifierType, lazy: bool, e: int)
    requires t.RangeQuantifier? && |stops| >= 1 && 0 <= stops[|stops| - 1] == |r0| - 1 < e < |r1|
    requires r0[|r0| - 1] == if |stops| == 1 then base else []
    requires var nc, k := |r0| - 1, |stops| - 1;
      r1[nc] == Edge(k >= t.lower && !lazy, SkipTarget(t, e)) + r0[nc] + [Eps(nc + 1)] + Edge(k >= t.lower && lazy, SkipTarget(t, e))
    ensures CopyLaid(r1, base, stops + [e], t, lazy, |stops| - 1)
  {
    var stops' := stops + [e];
    var k := |stops| - 1;
    assert stops'[k] == |r0| - 1 && stops'[k + 1] == e;
  }

  /** A copy block laid from the last stop (rules `r0` to `r1`) and then
      given its skip edge into the block's end (`r2`) is one more laid copy. */
  lemma CopyStep(r0: seq<seq<Rule>>, r1: seq<seq<Rule>>, r2: seq<seq<Rule>>, base: seq<Rule>,
                 stops: seq<int>, t: QuantifierType, lazy: bool, optional: bool, i: nat, nc: int, e: int)
    requires t.RangeQuantifier? && CopiesLaid(r0, base, stops, t, lazy) && |stops| == i + 1 && stops[i] == nc
    requires nc == |r0| - 1 && e == |r1| - 1 && nc + 1 < e
    requires r0[nc] == if i == 0 then base else []
    requires optional == (i >= t.lower) && (optional ==> t.upper.Some?)
    requires Kept(r0, r1) && r1[nc] == r0[nc] + [Eps(nc + 1)]
    requires r2 == r1[nc := Edge(optional && !lazy, e) + r1[nc] + Edge(optional && lazy, e)]
    ensures Kept(r0, r2) && r2[e] == []
    ensures CopiesLaid(r2, base, stops + [e], t, lazy)
  {
    var e1, e2 := Edge(optional && !lazy, e), Edge(optional && lazy, e);
    assert SkipTarget(t, e) == e || !optional;
    assert r2[nc] == e1 + (r0[nc] + [Eps(nc + 1)]) + e2;
    assert e1 + (r0[nc] + [Eps(nc + 1)]) + e2 == e1 + r0[nc] + [Eps(nc + 1)] + e2;
    LaidSnoc(r0, r2, base, stops, t, lazy, e);
  }

  /** With no repeatable copy, the `Copies(t)` laid copies are the whole chain. */
  lemma ChainBounded(rules: seq<seq<Rule>>, base: seq<Rule>, stops: seq<int>, t: QuantifierType, lazy: bool)
    requires t.RangeQuantifier? && !(t.delimiter && t.upper.None?)
    requires CopiesLaid(rules, base, stops, t, lazy)
    requires |stops| - 1 == if t.delimiter && t.upper.Some? && t.upper.value > t.lower then t.upper.value else t.lower
    ensures CopyChain(rules, base, stops, t, lazy)
  {
  }

  /** `{m,}`: the `m` laid copies (rules `r0`) followed by a `*` block
      (rules `r`) make the whole chain. */
  lemma ChainStar(r0: seq<seq<Rule>>, r: seq<seq<Rule>>, base: seq<Rule>, stops: seq<int>, t: QuantifierType, lazy: bool,
                  cur: int, e: int)
    requires t.RangeQuantifier? && t.delimiter && t.upper.None? && cur == |r0| - 1 && e == |r| - 1
    requires CopiesLaid(r0, base, stops, t, lazy) && |stops| == t.lower + 1 && stops[|stops| - 1] == cur
    requires r0[cur] == if |stops| == 1 then base else []
    requires StarLaid(r0, r, lazy)
    ensures CopyChain(r, base, stops + [e], t, lazy)
  {
    var x := e - 1;
    assert SkipTarget(t, e) == x;
    LaidSnoc(r0, r, base, stops, t, lazy, e);
    var stops' := stops + [e];
    assert stops'[|stops'| - 2] == cur && stops'[|stops'| - 1] - 1 == x;
  }

  /** One more pass of the copy loops of `{m}` and `{m,n}` (rules `r0` to `r`,
      group table `g0` from `n0` to `g` from `n`) keeps what the loop knows
      since it started (rules `rs`, table `gs` from `m`): the counts grow by
      one copy's, the other groups keep their spans, and the group has one
      more span, starting after the last stop. */
  lemma CopiesNext(ni: NormalItem, p: int, i: nat, rs: seq<seq<Rule>>, r0: seq<seq<Rule>>, r: seq<seq<Rule>>,
                   m: int, gs: map<int, seq<(int, int)>>, n0: int, g0: map<int, seq<(int, int)>>,
                   n: int, g: map<int, seq<(int, int)>>, s0: seq<int>, s1: seq<int>, y: int, x: int, e: int)
    requires Kept(rs, r0) && Kept(r0, r) && 0 <= m
    requires Counted(g0, m, n0, Repeat(InnerCounts(ni), i)) && Counted(g, n0, n, InnerCounts(ni))
    requires forall k :: 0 <= k < m && !(Capturing(ni) && k == p) ==> SpansOf(g0, k) == SpansOf(gs, k)
    requires forall k :: 0 <= k < n0 && !(Capturing(ni) && k == p) ==> SpansOf(g, k) == SpansOf(g0, k)
    requires |s0| == i + 1 && s1 == s0 + [e]
    requires Capturing(ni) ==>
      && 0 <= p < m && SpansAt(SpansOf(g0, p), s0, i) && y == s0[i] + 1
      && SpansOf(g, p) == SpansOf(g0, p) + [(y, x)]
    ensures |s1| == i + 2 && s1[0] == s0[0] && s1[i + 1] == e
    ensures Kept(rs, r)
    ensures Counted(g, m, n, Repeat(InnerCounts(ni), i + 1))
    ensures forall k :: 0 <= k < m && !(Capturing(ni) && k == p) ==> SpansOf(g, k) == SpansOf(gs, k)
    ensures Capturing(ni) ==> SpansAt(SpansOf(g, p), s1, i + 1)
  {
    KeptTrans(rs, r0, r);
    CountedSnoc(g0, g, m, n0, n, Repeat(InnerCounts(ni), i), InnerCounts(ni));
    if Capturing(ni) {
      SpanStarts(SpansOf(g0, p), SpansOf(g, p), s0, s1, y, x, e);
    }
  }

  /** `{m,}` after its bounded copies (rules `rs` to `r2`, group table `gs`
      from `m` to `g2` from `n2`) and its `*` copy (to `r`, `g` from `n`):
      the counts of both, the other groups' spans kept, and the stops of
      both. */
  lemma RangeStarJoin(ni: NormalItem, p: int, t: QuantifierType, lazy: bool, rs: seq<seq<Rule>>, r2: seq<seq<Rule>>,
                      r: seq<seq<Rule>>, m: int, gs: map<int, seq<(int, int)>>, n2: int, g2: map<int, seq<(int, int)>>,
                      n: int, g: map<int, seq<(int, int)>>, base: seq<Rule>, s: seq<int>)
    requires t.RangeQuantifier? && Kept(rs, r2) && Kept(r2, r) && 0 <= m && (Capturing(ni) ==> 0 <= p < m)
    requires Counted(g2, m, n2, Repeat(InnerCounts(ni), Bounded(t))) && Counted(g, n2, n, StarCounts(ni, t))
    requires forall k :: 0 <= k < m && !(Capturing(ni) && k == p) ==> SpansOf(g2, k) == SpansOf(gs, k)
    requires forall k :: 0 <= k < n2 && !(Capturing(ni) && k == p) ==> SpansOf(g, k) == SpansOf(g2, k)
    requires |s| >= 2
    ensures Kept(rs, r)
    ensures Counted(g, m, n, Repeat(InnerCounts(ni), Bounded(t)) + StarCounts(ni, t))
    ensures forall k :: 0 <= k < m && !(Capturing(ni) && k == p) ==> SpansOf(g, k) == SpansOf(gs, k)
    ensures |s| == 1 ==> r == rs
  {
    KeptTrans(rs, r2, r);
    CountedSnoc(g2, g, m, n2, n, Repeat(InnerCounts(ni), Bounded(t)), StarCounts(ni, t));
  }

  /** `{m,}` once its `*` block is laid (rules `r0` to `r`, group table `g0`
      from `n0` to `g` from `n`): the whole chain, the counts of the `*` copy
      and one more span for the group, starting after the last stop. */
  lemma StarStep(ni: NormalItem, p: int, t: QuantifierType, lazy: bool, base: seq<Rule>, stops: seq<int>,
                 r0: seq<seq<Rule>>, r: seq<seq<Rule>>, n0: int, n: int, g0: map<int, seq<(int, int)>>,
                 g: map<int, seq<(int, int)>>, cur: int, y: int, x: int, e: int, stops': seq<int>)
    requires t.RangeQuantifier? && t.delimiter && t.upper.None?
    requires cur == |r0| - 1 && y == |r0| && e == |r| - 1 && x == e - 2 && stops' == stops + [e]
    requires CopiesLaid(r0, base, stops, t, lazy) && |stops| == Bounded(t) + 1 && stops[Bounded(t)] == cur
    requires r0[cur] == if Bounded(t) == 0 then base else []
    requires Capturing(ni) ==> 0 <= p < n0 && SpansAt(SpansOf(g0, p), stops, Bounded(t))
    requires LoopBlock(r0, r, ZeroOrMore, lazy)
    requires Counted(g, n0 + (if Capturing(ni) then 1 else 0), n, InnerCounts(ni))
    requires Capturing(ni) ==> SpansOf(g, n0) == [] && SpansOf(g, p) == SpansOf(g0, p) + [(y, x)]
    ensures Kept(r0, r) && CopyChain(r, base, stops', t, lazy)
    ensures Counted(g, n0, n, StarCounts(ni, t))
    ensures Capturing(ni) ==> SpansAt(SpansOf(g, p), stops', Copies(t))
  {
    StarChain(t, lazy, base, stops, r0, r, cur, e);
    StarGroups(ni, p, t, stops, n0, n, g0, g, y, x, e);
  }

  /** The rules half of `StarStep`. */
  lemma StarChain(t: QuantifierType, lazy: bool, base: seq<Rule>, stops: seq<int>,
                 r0: seq<seq<Rule>>, r: seq<seq<Rule>>, cur: int, e: int)
    requires t.RangeQuantifier? && t.delimiter && t.upper.None?
    requires cur == |r0| - 1 && e == |r| - 1
    requires CopiesLaid(r0, base, stops, t, lazy) && |stops| == Bounded(t) + 1 && stops[Bounded(t)] == cur
    requires r0[cur] == if Bounded(t) == 0 then base else []
    requires LoopBlock(r0, r, ZeroOrMore, lazy)
    ensures Kept(r0, r) && CopyChain(r, base, stops + [e], t, lazy)
  {
    StarBlock(r0, r, lazy);
    ChainStar(r0, r, base, stops, t, lazy, cur, e);
  }

  /** The group-table half of `StarStep`. */
  lemma StarGroups(ni: NormalItem, p: int, t: QuantifierType, stops: seq<int>, n0: int, n: int,
                   g0: map<int, seq<(int, int)>>, g: map<int, seq<(int, int)>>, y: int, x: int, e: int)
    requires t.RangeQuantifier? && t.delimiter && t.upper.None?
    requires |stops| == Bounded(t) + 1 && 0 <= stops[Bounded(t)] && y == stops[Bounded(t)] + 1 && x == e - 2
    requires Capturing(ni) ==> 0 <= p < n0 && SpansAt(SpansOf(g0, p), stops, Bounded(t))
    requires Counted(g, n0 + (if Capturing(ni) then 1 else 0), n, InnerCounts(ni))
    requires Capturing(ni) ==> SpansOf(g, n0) == [] && SpansOf(g, p) == SpansOf(g0, p) + [(y, x)]
    ensures Counted(g, n0, n, StarCounts(ni, t))
    ensures Capturing(ni) ==> SpansAt(SpansOf(g, p), stops + [e], Copies(t))
  {
    assert |stops| - 1 == Bounded(t) == t.lower;
    CountedFront(Capturing(ni), g, n0, n, 0, InnerCounts(ni));
    assert StarCounts(ni, t) == (if Capturing(ni) then [0] else []) + InnerCounts(ni);
    if Capturing(ni) {
      SpanStarts(SpansOf(g0, p), SpansOf(g, p), stops, stops + [e], y, x, e);
      assert Copies(t) == |stops|;
    }
  }

  /** The `*` block of `{m,}` from the last copy's end `cur` to `x` and the
      state after it. */
  ghost predicate StarLaid(r0: seq<seq<Rule>>, r: seq<seq<Rule>>, lazy: bool)
  {
    var cur, x := |r0| - 1, |r| - 2;
    && 0 <= cur && cur + 2 < x
    && (forall q :: 0 <= q < |r0| - 1 ==> r[q] == r0[q])
    && r[x + 1] == []
    && r[cur] == Edge(!lazy, x) + r0[cur] + [Eps(cur + 1)] + Edge(lazy, x)
    && r[x] == Edge(lazy, cur) + [Eps(x + 1)] + Edge(!lazy, cur)
  }

  lemma StarBlock(r0: seq<seq<Rule>>, r: seq<seq<Rule>>, lazy: bool)
    requires LoopBlock(r0, r, ZeroOrMore, lazy)
    ensures StarLaid(r0, r, lazy)
  {
  }

  /** The spans `sp` of a range quantifier's group: one for each of the
      first `n` copies, starting one state after the copy's stop. */
  ghost predicate SpansAt(sp: seq<(int, int)>, stops: seq<int>, n: int)
  {
    |sp| == n <= |stops| && forall j :: 0 <= j < n ==> sp[j].0 == stops[j] + 1
  }

  /** One more recorded span, starting after the last stop, for one more
      copy. */
  lemma SpanStarts(sp0: seq<(int, int)>, sp1: seq<(int, int)>, s0: seq<int>, s1: seq<int>, y: int, x: int, e: int)
    requires |s0| >= 1 && SpansAt(sp0, s0, |s0| - 1)
    requires y == s0[|s0| - 1] + 1 && sp1 == sp0 + [(y, x)] && s1 == s0 + [e]
    ensures SpansAt(sp1, s1, |s0|)
  {
    assert forall j :: 0 <= j < |s0| ==> s1[j] == s0[j];
  }

  /** Where an optional copy's skip edge leads. */
  function SkipTarget(t: QuantifierType, end: int): int
    requires t.RangeQuantifier?
  {
    if t.upper.None? then end - 1 else end
  }

  /** Element `k` is above the one before it. */
  ghost predicate Above(s: seq<int>, k: int)
  {
    0 < k < |s| && s[k - 1] < s[k]
  }

  /** Each element is above the one before it. */
  ghost predicate Rising(s: seq<int>)
  {
    forall k :: 0 < k < |s| ==> Above(s, k)
  }

  /** Branch `i` starts after branch `i - 1` ends. */
  ghost predicate After(exits: seq<int>, entries: seq<int>, i: int)
  {
    0 < i <= |exits| && i < |entries| && exits[i - 1] < entries[i]
  }

  /** A rising sequence is strictly increasing. */
  lemma {:induction false} RisingOrdered(s: seq<int>, i: int, j: int)
    requires Rising(s) && 0 <= i < j < |s|
    ensures s[i] < s[j]
    decreases j - i
  {
    assert Above(s, j);
    if i + 1 < j {
      RisingOrdered(s, i, j - 1);
    }
  }

  /** A rule the automaton can hold: its destination names one of the `n`
      states, and a group rule's table has 129 slots. */
  predicate RuleOk(r: Rule, n: int)
  {
    0 <= r.dst < n && (r.kind == RuleType.Group ==> |r.guard.table| == 129)
  }

  ghost predicate StateOk(rs: seq<Rule>, n: int)
  {
    forall k :: 0 <= k < |rs| ==> RuleOk(rs[k], n)
  }

  /** State `q`'s rules under the one name `RulesOk` is triggered on, so
      that the invariant is only unfolded where a proof names a state. */
  ghost function StateAt(rules: seq<seq<Rule>>, q: int): seq<Rule>
    requires 0 <= q < |rules|
  {
    rules[q]
  }

  ghost predicate RulesOk(rules: seq<seq<Rule>>, n: int)
  {
    forall q {:trigger StateAt(rules, q)} :: 0 <= q < |rules| ==> StateOk(StateAt(rules, q), n)
  }

  /** Rules `pre` and `post` around state `q`'s rules, fine for `n1 >= n`
      states, keep `RulesOk`, also with one more (empty) state. */
  lemma RulesOkPut(rules: seq<seq<Rule>>, n: int, n1: int, q: int, pre: seq<Rule>, post: seq<Rule>)
    requires RulesOk(rules, n) && n <= n1 && 0 <= q < |rules| && StateOk(pre, n1) && StateOk(post, n1)
    ensures RulesOk(rules[q := pre + rules[q] + post], n1)
    ensures RulesOk(rules[q := pre + rules[q] + post] + [[]], n1)
  {
    var r := rules[q := pre + rules[q] + post];
    forall p | 0 <= p < |r|
      ensures StateOk(StateAt(r, p), n1)
    {
      assert StateOk(StateAt(rules, p), n);
    }
    var r1 := r + [[]];
    forall p | 0 <= p < |r1|
      ensures StateOk(StateAt(r1, p), n1)
    {
      if p < |r| {
        assert StateAt(r1, p) == StateAt(r, p);
      }
    }
  }

  /** What a compile step leaves alone, from rule lists `r0` to `r1`: states
      are only added, states before the current (last) one keep their rules,
      a step that adds no state changes no rule, and the last added state has
      no rule yet. */
  ghost predicate Kept(r0: seq<seq<Rule>>, r1: seq<seq<Rule>>)
  {
    && |r0| <= |r1|
    && (forall q :: 0 <= q < |r0| - 1 ==> r1[q] == r0[q])
    && (|r1| == |r0| ==> r1 == r0)
    && (|r1| > |r0| ==> r1[|r1| - 1] == [])
  }

  /** The epsilon edges of `compileRegex`'s branch loop into the entry
      states `es`: each is inserted at the front, so the first is last. */
  function Fronts(es: seq<int>): (rs: seq<Rule>)
    ensures |rs| == |es|
  {
    if es == [] then [] else [Eps(es[|es| - 1])] + Fronts(es[..|es| - 1])
  }

  lemma {:induction false} FrontsAt(es: seq<int>, i: nat)
    requires i < |es|
    ensures Fronts(es)[|es| - 1 - i] == Eps(es[i])
    decreases |es|
  {
    if i < |es| - 1 {
      FrontsAt(es[..|es| - 1], i);
    }
  }

  lemma KeptTrans(a: seq<seq<Rule>>, b: seq<seq<Rule>>, c: seq<seq<Rule>>)
    requires Kept(a, b) && Kept(b, c)
    ensures Kept(a, c)
  {
  }

  /** The spans recorded for group `i`. */
  function SpansOf(g: map<int, seq<(int, int)>>, i: int): seq<(int, int)>
  {
    if i in g then g[i] else []
  }

  /** Group numbers are only allocated, and the groups allocated before (the
      first `n0`) keep their spans. */
  ghost predicate SpansKept(n0: int, g0: map<int, seq<(int, int)>>, n1: int, g1: map<int, seq<(int, int)>>)
  {
    && n0 <= n1
    && (forall i :: 0 <= i < n0 ==> SpansOf(g1, i) == SpansOf(g0, i))
  }

  lemma SpansKeptTrans(n0: int, g0: map<int, seq<(int, int)>>, n1: int, g1: map<int, seq<(int, int)>>,
                       n2: int, g2: map<int, seq<(int, int)>>)
    requires SpansKept(n0, g0, n1, g1) && SpansKept(n1, g1, n2, g2)
    ensures SpansKept(n0, g0, n2, g2)
  {
  }

  /** Spans seen from the first `m` groups are kept along two steps. */
  lemma SpansKeptChain(m: int, n0: int, g0: map<int, seq<(int, int)>>, n1: int, g1: map<int, seq<(int, int)>>,
                       n2: int, g2: map<int, seq<(int, int)>>)
    requires m <= n0 && SpansKept(n0, g0, n1, g1) && SpansKept(m, g1, n2, g2)
    ensures SpansKept(m, g0, n2, g2)
  {
  }

  /** A step that changes the spans of group `p` at most (when `c`) keeps
      those of the first `m` groups, `p` not among them. */
  lemma SpansKeptBelow(m: int, n0: int, g0: map<int, seq<(int, int)>>, n1: int, g1: map<int, seq<(int, int)>>,
                       p: int, c: bool)
    requires m <= n0 <= n1 && (c ==> m <= p)
    requires forall i :: 0 <= i < n0 && !(c && i == p) ==> SpansOf(g1, i) == SpansOf(g0, i)
    ensures SpansKept(m, g0, n1, g1)
  {
  }

  /** Every recorded span names two states below `n`, its entry before its
      exit. */
  ghost predicate SpansIn(g: map<int, seq<(int, int)>>, n: int)
  {
    forall i, j :: i in g && 0 <= j < |g[i]| ==> 0 <= g[i][j].0 < g[i][j].1 < n
  }

  // ----- what compiling a subtree does to the group table -----

  /** The group numbers from `base` up to `top` are `|c|` many and hold
      `c[0]`, `c[1]`, ... spans. */
  ghost predicate Counted(g: map<int, seq<(int, int)>>, base: int, top: int, c: seq<nat>)
  {
    top == base + |c| && forall j {:trigger CountAt(g, base, j)} :: 0 <= j < |c| ==> CountAt(g, base, j) == c[j]
  }

  /** How many spans group number `base + j` holds. */
  ghost function CountAt(g: map<int, seq<(int, int)>>, base: int, j: int): nat
  {
    |SpansOf(g, base + j)|
  }

  /** The copies the bounded loops of a range quantifier lay: `m`, or `n`
      for `{m,n}` with `n > m`. */
  function Bounded(t: QuantifierType): nat
    requires t.RangeQuantifier?
  {
    if t.delimiter && t.upper.Some? && t.upper.value > t.lower then t.upper.value else t.lower
  }

  /** `{m,}`: one more copy, compiled as `*`. */
  predicate Unbounded(t: QuantifierType)
  {
    t.RangeQuantifier? && t.delimiter && t.upper.None?
  }

  /** `c` repeated `n` times. */
  function Repeat(c: seq<nat>, n: nat): seq<nat>
  {
    if n == 0 then [] else Repeat(c, n - 1) + c
  }

  /** The group numbers compiling a whole alternation allocates, in order,
      with the number of spans each comes to hold. */
  function RegexCounts(r: RegexTree.Regex): seq<nat>
    decreases r, 2, 0
  {
    BranchCounts(r, |r.expressions|)
  }

  /** ... of its first `n` branches. */
  function BranchCounts(r: RegexTree.Regex, n: nat): seq<nat>
    requires n <= |r.expressions|
    decreases r, 1, n
  {
    if n == 0 then [] else BranchCounts(r, n - 1) + ExpressionCounts(r.expressions[n - 1])
  }

  function ExpressionCounts(e: Expression): seq<nat>
    decreases e, 2, 0
  {
    ItemsCounts(e, |e.items|)
  }

  /** ... of its first `n` items. */
  function ItemsCounts(e: Expression, n: nat): seq<nat>
    requires n <= |e.items|
    decreases e, 1, n
  {
    if n == 0 then [] else ItemsCounts(e, n - 1) + ItemCounts(e.items[n - 1])
  }

  /** An anchor allocates nothing; a range quantifier's capturing group takes
      one number holding a span per copy, then every copy allocates its inner
      groups afresh, and the `*` copy of `{m,}` takes a second, spanless,
      number first; any other item allocates what its group does. */
  function ItemCounts(ei: ExpressionItem): seq<nat>
    decreases ei, 0, 0
  {
    match ei
    case AnchorItem(_) => []
    case Item(ni, None) => NormalCounts(ni)
    case Item(ni, Some(q)) => if q.qtype.RangeQuantifier? then RangeCounts(ni, q.qtype) else NormalCounts(ni)
  }

  /** A range quantifier's item. */
  function RangeCounts(ni: NormalItem, t: QuantifierType): seq<nat>
    requires t.RangeQuantifier?
    decreases ni, 1, 0
  {
    (if Capturing(ni) then [Copies(t)] else []) + Repeat(InnerCounts(ni), Bounded(t)) + StarCounts(ni, t)
  }

  /** The `*` copy of `{m,}`, after the bounded ones. */
  function StarCounts(ni: NormalItem, t: QuantifierType): seq<nat>
    decreases ni, 0, 1
  {
    if Unbounded(t) then (if Capturing(ni) then [0] else []) + InnerCounts(ni) else []
  }

  /** A capturing group takes one number and records one span under it; its
      inner groups follow. */
  function NormalCounts(ni: NormalItem): seq<nat>
    decreases ni, 1, 0
  {
    (if Capturing(ni) then [1] else []) + InnerCounts(ni)
  }

  /** The groups nested in a group item. */
  function InnerCounts(ni: NormalItem): seq<nat>
    decreases ni, 0, 0
  {
    if ni.Group? then RegexCounts(ni.regex) else []
  }

  /** Counts for `c0` from `base`, kept while the groups from `n0 = base +
      |c0|` on get counts `c1`, are counts for `c0 + c1`. */
  lemma CountedSnoc(g0: map<int, seq<(int, int)>>, g1: map<int, seq<(int, int)>>, base: int, n0: int, n1: int,
                    c0: seq<nat>, c1: seq<nat>)
    requires Counted(g0, base, n0, c0) && Counted(g1, n0, n1, c1)
    requires forall i :: base <= i < n0 ==> SpansOf(g1, i) == SpansOf(g0, i)
    ensures Counted(g1, base, n1, c0 + c1)
  {
    forall j | 0 <= j < |c0 + c1|
      ensures CountAt(g1, base, j) == (c0 + c1)[j]
    {
      if j >= |c0| {
        assert CountAt(g1, n0, j - |c0|) == c1[j - |c0|];
        assert SpansOf(g1, n0 + (j - |c0|)) == SpansOf(g1, base + j);
      } else {
        assert CountAt(g0, base, j) == c0[j];
      }
    }
  }

  /** Counts depend only on the spans of the groups they count. */
  lemma CountedKept(g0: map<int, seq<(int, int)>>, g1: map<int, seq<(int, int)>>, base: int, top: int, c: seq<nat>)
    requires Counted(g0, base, top, c)
    requires forall i :: base <= i < top ==> SpansOf(g1, i) == SpansOf(g0, i)
    ensures Counted(g1, base, top, c)
  {
    forall j | 0 <= j < |c|
      ensures CountAt(g1, base, j) == c[j]
    {
      assert CountAt(g0, base, j) == c[j];
    }
  }

  /** A group that took number `p` (when `on`) before its inner groups
      `c` were compiled, and then recorded its one span there: the groups
      before `p` keep their spans, and from `p` on the table holds `[1] +
      c` many. */
  lemma GroupOpened(on: bool, p: int, g0: map<int, seq<(int, int)>>, n1: int, n2: int,
                    g2: map<int, seq<(int, int)>>, g3: map<int, seq<(int, int)>>, span: (int, int), c: seq<nat>)
    requires 0 <= p && n1 == p + (if on then 1 else 0) && (on ==> SpansOf(g0, p) == [])
    requires SpansKept(n1, g0, n2, g2) && Counted(g2, n1, n2, c)
    requires SpansOf(g3, p) == SpansOf(g2, p) + (if on then [span] else [])
    requires forall j :: j != p ==> SpansOf(g3, j) == SpansOf(g2, j)
    ensures SpansKept(p, g0, n2, g3)
    ensures Counted(g3, p, n2, (if on then [1] else []) + c)
    ensures on ==> SpansOf(g3, p) == [span]
  {
    CountedKept(g2, g3, p + (if on then 1 else 0), n2, c);
    if on {
      CountedOne(g3, p, 1);
      CountedSnoc(g3, g3, p, n1, n2, [1], c);
    } else {
      assert [] + c == c;
    }
  }

  /** Group number `base`, when `on`, holding `k` spans, before groups
      counted `c`. */
  lemma CountedFront(on: bool, g: map<int, seq<(int, int)>>, base: int, top: int, k: nat, c: seq<nat>)
    requires Counted(g, base + (if on then 1 else 0), top, c) && (on ==> |SpansOf(g, base)| == k)
    ensures Counted(g, base, top, (if on then [k] else []) + c)
  {
    if on {
      CountedOne(g, base, k);
      CountedSnoc(g, g, base, base + 1, top, [k], c);
    } else {
      assert [] + c == c;
    }
  }

  /** One group number holding `k` spans is counted `[k]`. */
  lemma CountedOne(g: map<int, seq<(int, int)>>, base: int, k: nat)
    requires |SpansOf(g, base)| == k
    ensures Counted(g, base, base + 1, [k])
  {
    assert CountAt(g, base, 0) == |SpansOf(g, base)|;
  }

  /** The shape `compileRegex` leaves from `cur`, whose rules were `r0`:
      the branch edges from `cur` into the entry states, listed first branch
      last; the branches lying one after another between `cur` and the join
      state (the last state); every branch's end ending with an epsilon edge
      into the join, and no other rule entering it. */
  ghost predicate Alternation(rules: seq<seq<Rule>>, r0: seq<Rule>, cur: int, entries: seq<int>, exits: seq<int>)
  {
    var join := |rules| - 1;
    && 0 <= cur < join
    && |entries| == |exits|
    && rules[cur] == Fronts(entries) + r0
    && (forall i :: 0 <= i < |entries| ==> Inside(entries, exits, cur, join, i))
    && (forall i :: 0 < i < |entries| ==> After(exits, entries, i))
    && (forall i :: 0 <= i < |exits| ==> ExitJoins(rules, exits, i))
    && (forall q, k :: 0 <= q < join && 0 <= k < |rules[q]| ==> IntoJoin(rules, exits, q, k))
  }

  /** Branch `i` lies strictly after `cur` and before the join state. */
  ghost predicate Inside(entries: seq<int>, exits: seq<int>, cur: int, join: int, i: int)
  {
    0 <= i < |entries| && i < |exits| && cur < entries[i] <= exits[i] < join
  }

  /** Branch `i`'s end has the epsilon edge into the join (last) state as its
      last rule. */
  ghost predicate ExitJoins(rules: seq<seq<Rule>>, exits: seq<int>, i: int)
  {
    && 0 <= i < |exits| && 0 <= exits[i] < |rules|
    && |rules[exits[i]]| >= 1 && rules[exits[i]][|rules[exits[i]]| - 1] == Eps(|rules| - 1)
  }

  /** Rule `k` of state `q` leads into the join (last) state only when it is
      a branch end's final, plain epsilon rule. */
  ghost predicate IntoJoin(rules: seq<seq<Rule>>, exits: seq<int>, q: int, k: int)
  {
    && 0 <= q < |rules| && 0 <= k < |rules[q]|
    && (rules[q][k].dst == |rules| - 1 ==> q in exits && k == |rules[q]| - 1 && rules[q][k] == Eps(|rules| - 1))
  }

  /** State `q` after the join loop: a branch end got the epsilon edge into
      the join state `|mid|` at its back; any other state is as it was. */
  ghost predicate JoinedAt(mid: seq<seq<Rule>>, r1: seq<seq<Rule>>, exits: seq<int>, q: int)
  {
    && 0 <= q < |mid| && q < |r1|
    && r1[q] == if q in exits then mid[q] + [Eps(|mid|)] else mid[q]
  }

  /** What an enclosing item needs of an alternation: `cur` got the branch
      edges in front of its old rules `r0`, and states were added after it. */
  ghost predicate Entered(rules: seq<seq<Rule>>, r0: seq<Rule>, cur: int, entries: seq<int>)
  {
    0 <= cur < |rules| - 1 && rules[cur] == Fronts(entries) + r0
  }

  /** The connecting edge from the last state (still without rules) into a
      new state. */
  lemma ConnectLast(body: seq<seq<Rule>>, r: seq<seq<Rule>>)
    requires |body| >= 1 && body[|body| - 1] == []
    requires r == body[|body| - 1 := body[|body| - 1] + [Eps(|body|)]] + [[]]
    ensures r == body[|body| - 1 := [Eps(|body|)]] + [[]]
  {
    assert body[|body| - 1] + [Eps(|body|)] == [Eps(|body|)];
  }

  /** What the branch loop of `compileRegex` has laid from `cur` (rules
      `r0`, all rules `r00` before the loop) up to the rules `r`: each branch
      got its front-inserted entry edge, and the branches lie one after
      another, the last ending in the last state. */
  ghost predicate BranchesLaid(r00: seq<seq<Rule>>, r: seq<seq<Rule>>, cur: int, r0: seq<Rule>,
                               entries: seq<int>, stateList: seq<int>)
  {
    && Kept(r00, r) && cur == |r00| - 1 && 0 <= cur < |r|
    && |entries| == |stateList|
    && r[cur] == Fronts(entries) + r0
    && (forall j :: 0 <= j < |entries| ==> cur < entries[j] <= stateList[j] < |r|)
    && (forall j :: 0 < j < |entries| ==> After(stateList, entries, j))
    && (|entries| > 0 ==> stateList[|entries| - 1] == |r| - 1)
  }

  /** One more branch, compiled from rules `rb` to `ra` with its entry state
      `entry`, keeps `BranchesLaid`. */
  lemma BranchStep(r00: seq<seq<Rule>>, rb: seq<seq<Rule>>, ra: seq<seq<Rule>>, cur: int, r0: seq<Rule>,
                   entries: seq<int>, stateList: seq<int>, entry: int, e: int)
    requires BranchesLaid(r00, rb, cur, r0, entries, stateList)
    requires entry == |rb| < |ra| && e == |ra| - 1 && ra[e] == []
    requires 0 <= cur < |rb| && ra[cur] == [Eps(entry)] + rb[cur]
    requires forall q :: 0 <= q < |rb| && q != cur ==> ra[q] == rb[q]
    ensures BranchesLaid(r00, ra, cur, r0, entries + [entry], stateList + [e])
  {
    var (es, ss) := (entries + [entry], stateList + [e]);
    assert Kept(r00, ra) by {
      assert forall q :: 0 <= q < |r00| - 1 ==> ra[q] == rb[q];
    }
    assert ra[cur] == Fronts(es) + r0 by {
      assert es[..|entries|] == entries;
      assert Fronts(es) == [Eps(entry)] + Fronts(entries);
    }
    assert forall j :: 0 <= j < |entries| ==> es[j] == entries[j] && ss[j] == stateList[j];
    forall j | 0 <= j < |es|
      ensures cur < es[j] <= ss[j] < |ra|
    {
    }
    forall j | 0 < j < |es|
      ensures After(ss, es, j)
    {
      if j < |entries| {
        assert After(stateList, entries, j);
      }
    }
  }

  /** The branch ends rise. */
  lemma BranchesRising(r00: seq<seq<Rule>>, r: seq<seq<Rule>>, cur: int, r0: seq<Rule>,
                       entries: seq<int>, stateList: seq<int>)
    requires BranchesLaid(r00, r, cur, r0, entries, stateList)
    ensures Rising(stateList)
  {
    forall k | 0 < k < |stateList|
      ensures Above(stateList, k)
    {
      assert After(stateList, entries, k);
    }
  }

  /** The join loop turns the branch loop's result into `Alternation`. */
  lemma JoinShape(r0: seq<seq<Rule>>, mid: seq<seq<Rule>>, r1: seq<seq<Rule>>, cur: int, entries: seq<int>, exits: seq<int>)
    requires 0 <= cur == |r0| - 1 && BranchesLaid(r0, mid, cur, r0[cur], entries, exits) && RulesOk(mid, |mid|)
    requires |r1| == |mid| + 1 && r1[|mid|] == []
    requires forall q :: 0 <= q < |mid| ==> JoinedAt(mid, r1, exits, q)
    ensures Alternation(r1, r0[cur], cur, entries, exits)
    ensures Kept(r0, r1)
  {
    assert r1[cur] == mid[cur] by {
      assert JoinedAt(mid, r1, exits, cur);
      assert cur !in exits;
    }
    assert Kept(r0, r1) by {
      JoinKept(r0, mid, r1, exits);
    }
    var join := |r1| - 1;
    assert forall i :: 0 <= i < |entries| ==> Inside(entries, exits, cur, join, i);
    assert forall i :: 0 <= i < |exits| ==> ExitJoins(r1, exits, i) by {
      JoinExits(mid, r1, exits);
    }
    assert forall q, k :: 0 <= q < |r1| - 1 && 0 <= k < |r1[q]| ==> IntoJoin(r1, exits, q, k) by {
      JoinEnters(mid, r1, exits);
    }
  }

  lemma JoinKept(r0: seq<seq<Rule>>, mid: seq<seq<Rule>>, r1: seq<seq<Rule>>, exits: seq<int>)
    requires Kept(r0, mid) && 1 <= |r0|
    requires forall i :: 0 <= i < |exits| ==> |r0| - 1 < exits[i]
    requires |r1| == |mid| + 1 && r1[|mid|] == []
    requires forall q :: 0 <= q < |mid| ==> JoinedAt(mid, r1, exits, q)
    ensures Kept(r0, r1)
  {
    forall q | 0 <= q < |r0| - 1
      ensures r1[q] == r0[q]
    {
      assert JoinedAt(mid, r1, exits, q);
    }
  }

  lemma JoinEnters(mid: seq<seq<Rule>>, r1: seq<seq<Rule>>, exits: seq<int>)
    requires RulesOk(mid, |mid|) && |r1| == |mid| + 1
    requires forall q :: 0 <= q < |mid| ==> JoinedAt(mid, r1, exits, q)
    ensures forall q, k :: 0 <= q < |r1| - 1 && 0 <= k < |r1[q]| ==> IntoJoin(r1, exits, q, k)
  {
    forall q, k | 0 <= q < |r1| - 1 && 0 <= k < |r1[q]|
      ensures IntoJoin(r1, exits, q, k)
    {
      assert JoinedAt(mid, r1, exits, q);
      assert StateOk(StateAt(mid, q), |mid|);
      assert forall i :: 0 <= i < |mid[q]| ==> r1[q][i] == mid[q][i];
    }
  }

  lemma JoinExits(mid: seq<seq<Rule>>, r1: seq<seq<Rule>>, exits: seq<int>)
    requires forall i :: 0 <= i < |exits| ==> 0 <= exits[i] < |mid|
    requires |r1| == |mid| + 1
    requires forall q :: 0 <= q < |mid| ==> JoinedAt(mid, r1, exits, q)
    ensures forall i :: 0 <= i < |exits| ==> ExitJoins(r1, exits, i)
  {
    forall i | 0 <= i < |exits|
      ensures ExitJoins(r1, exits, i)
    {
      assert exits[i] in exits;
      assert JoinedAt(mid, r1, exits, exits[i]);
    }
  }

  /** The anchor rule: an epsilon rule tagged `^`, `$`, `b` or `B`. */
  function AnchorRule(a: AnchorKind, dst: int): (r: Rule)
    ensures r.kind == Epsilon && r.dst == dst && r.guard.sym != ""
  {
    Rule(dst, Epsilon, Guard(AnchorTag(a), "", []))
  }

  /** The block of `?`, `*` and `+` compiled from the current state `cur`
      of `r0`: `cur` keeps its rules and gets the entry edge, the body ends
      with an epsilon edge into `x` (the state before the last), `x` holds the
      connector into the last state, and the skip edge from `cur` to `x` and
      the repeat edge from `x` back to `cur` sit in front of the way on when
      greedy and behind it when lazy. */
  ghost predicate LoopBlock(r0: seq<seq<Rule>>, r: seq<seq<Rule>>, t: QuantifierType, lazy: bool)
  {
    var cur, x := |r0| - 1, |r| - 2;
    && Kept(r0, r)
    && 0 <= cur && cur + 2 < x
    && r[cur] == Edge(Skips(t) && !lazy, x) + r0[cur] + [Eps(cur + 1)] + Edge(Skips(t) && lazy, x)
    && r[x] == Edge(Repeats(t) && lazy, cur) + [Eps(x + 1)] + Edge(Repeats(t) && !lazy, cur)
    && |r[x - 1]| >= 1 && r[x - 1][|r[x - 1]| - 1] == Eps(x)
  }

  /** The rule lists `CompileLoop` leaves, from its three steps: the block
      (`r1`, body end `b`), the connector out of `x = b + 1` (`r2`), and the
      skip and repeat edges (`r3`). */
  lemma LoopShape(r0: seq<seq<Rule>>, r1: seq<seq<Rule>>, r2: seq<seq<Rule>>, r3: seq<seq<Rule>>,
                  cur: int, b: int, x: int, e: int, t: QuantifierType, lazy: bool)
    requires cur == |r0| - 1 && 0 <= cur && cur + 1 < b && x == b + 1 && e == b + 2
    requires Kept(r0, r1) && |r1| == e
    requires r1[cur] == r0[cur] + [Eps(cur + 1)]
    requires |r1[b]| >= 1 && r1[b][|r1[b]| - 1] == Eps(x)
    requires r2 == r1[x := r1[x] + [Eps(e)]] + [[]]
    requires |r3| == |r2|
    requires r3[cur] == Edge(Skips(t) && !lazy, x) + r2[cur] + Edge(Skips(t) && lazy, x)
    requires r3[x] == Edge(Repeats(t) && lazy, cur) + r2[x] + Edge(Repeats(t) && !lazy, cur)
    requires forall q :: 0 <= q < |r3| && q != cur && q != x ==> r3[q] == r2[q]
    ensures |r3| == b + 3 && LoopBlock(r0, r3, t, lazy)
  {
    assert r2[b + 1] == [] + [Eps(b + 2)];
    assert [] + [Eps(b + 2)] == [Eps(b + 2)];
    assert r2[cur] == r1[cur] && r3[b] == r2[b] == r1[b];
    var e1, e2 := Edge(Skips(t) && !lazy, b + 1), Edge(Skips(t) && lazy, b + 1);
    assert e1 + (r0[cur] + [Eps(cur + 1)]) + e2 == e1 + r0[cur] + [Eps(cur + 1)] + e2;
  }

  /** The entry state of a quantifier block: its old rules between the
      skip edge's two places and the entry edge. */
  lemma LoopEntry(r0: seq<seq<Rule>>, r: seq<seq<Rule>>, t: QuantifierType, lazy: bool, cur: int, x: int)
    requires LoopBlock(r0, r, t, lazy) && cur == |r0| - 1 && x == |r| - 2
    ensures r[cur] == Edge(Skips(t) && !lazy, x) + r0[cur] + ([Eps(cur + 1)] + Edge(Skips(t) && lazy, x))
  {
    var e1, e2 := Edge(Skips(t) && !lazy, x), Edge(Skips(t) && lazy, x);
    assert e1 + r0[cur] + [Eps(cur + 1)] + e2 == e1 + r0[cur] + ([Eps(cur + 1)] + e2);
  }

  /** The entry state of a range quantifier's first copy. */
  lemma RangeEntry(rules: seq<seq<Rule>>, base: seq<Rule>, stops: seq<int>, t: QuantifierType, lazy: bool)
    requires t.RangeQuantifier? && CopiesLaid(rules, base, stops, t, lazy) && |stops| > 1
    ensures var e := SkipTarget(t, stops[1]);
      rules[stops[0]] == Edge(0 >= t.lower && !lazy, e) + base + ([Eps(stops[0] + 1)] + Edge(0 >= t.lower && lazy, e))
  {
    assert CopyLaid(rules, base, stops, t, lazy, 0);
    var e := SkipTarget(t, stops[1]);
    var e1, e2 := Edge(0 >= t.lower && !lazy, e), Edge(0 >= t.lower && lazy, e);
    assert e1 + (base + []) + [Eps(stops[0] + 1)] + e2 == e1 + base + ([Eps(stops[0] + 1)] + e2);
  }

  // ----- the compiled automaton -----

  /** Rule lists that keep `RulesOk`, with one final flag per state, form a
      well-formed automaton. */
  lemma BuiltWellFormed(rules: seq<seq<Rule>>, isFinal: seq<bool>, flagM: bool, flagS: bool)
    requires |rules| > 0 && |isFinal| == |rules| && RulesOk(rules, |rules|)
    ensures WellFormed(Machine(rules, isFinal, flagM, flagS))
  {
    forall q, k | 0 <= q < |rules| && 0 <= k < |rules[q]|
      ensures RuleOk(rules[q][k], |rules|)
    {
      assert StateOk(StateAt(rules, q), |rules|);
    }
  }

  /** When the join state of the top-level alternation is the only final
      state, only epsilon rules enter a final state: the branch ends' edges
      into the join. */
  lemma JoinOnlyFinal(rules: seq<seq<Rule>>, isFinal: seq<bool>, flagM: bool, flagS: bool,
                      entries: seq<int>, exits: seq<int>)
    requires Alternation(rules, [], 0, entries, exits) && rules[|rules| - 1] == []
    requires |isFinal| == |rules| && forall q :: 0 <= q < |rules| ==> (isFinal[q] <==> q == |rules| - 1)
    requires WellFormed(Machine(rules, isFinal, flagM, flagS))
    ensures FinalEntryEps(Machine(rules, isFinal, flagM, flagS))
  {
    forall q, k | 0 <= q < |rules| && 0 <= k < |rules[q]| && isFinal[rules[q][k].dst]
      ensures rules[q][k].kind == Epsilon
    {
      assert q < |rules| - 1;
      assert IntoJoin(rules, exits, q, k);
    }
  }

  /** The occurrence lists of groups 0 .. n-1 (`nfa.group[i]`). */
  function SpansList(g: map<int, seq<(int, int)>>, n: nat): seq<seq<(int, int)>>
  {
    seq(n, i => SpansOf(g, i))
  }

  /** The rules an item without a quantifier leaves (from rules `r0` whose
      last state `cur` is current): a single's rule from `cur` and the
      connecting edge after it; or a group's alternation (`body`, entered
      from `cur` through `entries`) whose join gets the connecting edge. */
  ghost predicate PlainLaid(ni: NormalItem, r0: seq<seq<Rule>>, r: seq<seq<Rule>>, body: seq<seq<Rule>>, entries: seq<int>)
  {
    var cur := |r0| - 1;
    && 0 <= cur
    && (ni.SingleItem? ==> r == r0[cur := r0[cur] + [SingleRule(ni.single, cur + 1)]] + [[Eps(cur + 2)], []])
    && (ni.Group? ==>
          && |entries| == |ni.regex.expressions|
          && Entered(body, r0[cur], cur, entries)
          && r == body[|body| - 1 := [Eps(|body|)]] + [[]])
  }

  /** The rules a quantified item leaves, and the spans `sp` its capturing
      group records: for `?`, `*`, `+` the loop block and one span from the
      body's entry to its end; for a range quantifier the chain of copies
      between `stops` and one span per copy, from the copy's body entry. */
  ghost predicate QuantifiedLaid(ni: NormalItem, q: Quantifier, r0: seq<seq<Rule>>, r: seq<seq<Rule>>,
                                 sp: seq<(int, int)>, stops: seq<int>)
  {
    if q.qtype.RangeQuantifier? then
      && |r0| >= 1 && |stops| >= 1 && stops[0] == |r0| - 1 && stops[|stops| - 1] == |r| - 1
      && CopyChain(r, r0[|r0| - 1], stops, q.qtype, q.lazy)
      && (|stops| == 1 ==> r == r0)
      && (Capturing(ni) ==> SpansAt(sp, stops, Copies(q.qtype)))
    else
      && LoopBlock(r0, r, q.qtype, q.lazy)
      && (Capturing(ni) ==> sp == [(|r0|, |r| - 3)])
  }

  class Regex {
    const nfa: Nfa

    constructor ()
      ensures fresh(nfa)
      ensures nfa.rules == [] && nfa.numStates == 0 && nfa.isFinal == []
      ensures nfa.groupNum == 0 && nfa.group == map[] && nfa.p == 0 && nfa.visited == map[]
      ensures !nfa.flagM && !nfa.flagS
    {
      nfa := new Nfa();
    }

    /** What every compile step keeps: one rule list per state, destinations
        naming states, 129-slot group tables, and spans only under allocated
        group numbers, each naming two states, entry before exit. */
    ghost predicate Building()
      reads nfa`rules, nfa`numStates, nfa`groupNum, nfa`group
    {
      && 1 <= nfa.numStates == |nfa.rules|
      && RulesOk(nfa.rules, nfa.numStates)
      && 0 <= nfa.groupNum
      && (forall i :: i in nfa.group ==> 0 <= i < nfa.groupNum)
      && SpansIn(nfa.group, nfa.numStates)
    }

    // The source's recurring two-line idioms, each keeping `Building`.

    /** A rule from `q` into the next state, appended (or inserted at the
        front), then `num_states++`. */
    method Extend(q: int, r: Rule, front: bool)
      requires Building() && 0 <= q < nfa.numStates && r.dst == nfa.numStates
      requires r.kind == RuleType.Group ==> |r.guard.table| == 129
      modifies nfa`rules, nfa`numStates
      ensures Building() && nfa.numStates == old(nfa.numStates) + 1
      ensures nfa.rules == old(nfa.rules)[q := if front then [r] + old(nfa.rules)[q] else old(nfa.rules)[q] + [r]] + [[]]
    {
      if front {
        nfa.PushFront(q, r);
        assert [r] + old(nfa.rules)[q] + [] == [r] + old(nfa.rules)[q];
        RulesOkPut(old(nfa.rules), old(nfa.numStates), old(nfa.numStates) + 1, q, [r], []);
      } else {
        nfa.PushBack(q, r);
        assert [] + old(nfa.rules)[q] + [r] == old(nfa.rules)[q] + [r];
        RulesOkPut(old(nfa.rules), old(nfa.numStates), old(nfa.numStates) + 1, q, [], [r]);
      }
      nfa.AddState();
    }

    /** An epsilon rule from `q` into an existing state. */
    method Emit(q: int, dst: int, front: bool)
      requires Building() && 0 <= q < nfa.numStates && 0 <= dst < nfa.numStates
      modifies nfa`rules
      ensures Building()
      ensures nfa.rules == old(nfa.rules)[q := Edge(front, dst) + old(nfa.rules)[q] + Edge(!front, dst)]
    {
      if front {
        nfa.PushFront(q, Eps(dst));
        assert [Eps(dst)] + old(nfa.rules)[q] + [] == [Eps(dst)] + old(nfa.rules)[q];
      } else {
        nfa.PushBack(q, Eps(dst));
        assert [] + old(nfa.rules)[q] + [Eps(dst)] == old(nfa.rules)[q] + [Eps(dst)];
      }
      RulesOkPut(old(nfa.rules), nfa.numStates, nfa.numStates, q, Edge(front, dst), Edge(!front, dst));
    }

    /** `group_num++`. */
    method NextGroup()
      requires Building()
      modifies nfa`groupNum
      ensures Building() && nfa.groupNum == old(nfa.groupNum) + 1
    {
      nfa.groupNum := nfa.groupNum + 1;
    }

    /** `group_num++` when `on`. */
    method NextGroupIf(on: bool)
      requires Building()
      modifies nfa`groupNum
      ensures Building() && nfa.groupNum == old(nfa.groupNum) + (if on then 1 else 0)
    {
      if on {
        NextGroup();
      }
    }

    /** Appends an occurrence to the spans of group `i`, when `on`. */
    method RecordIf(on: bool, i: int, span: (int, int))
      requires Building() && (on ==> 0 <= i < nfa.groupNum && 0 <= span.0 < span.1 < nfa.numStates)
      modifies nfa`group
      ensures Building()
      ensures SpansOf(nfa.group, i) == SpansOf(old(nfa.group), i) + (if on then [span] else [])
      ensures forall j :: j != i ==> SpansOf(nfa.group, j) == SpansOf(old(nfa.group), j)
    {
      if on {
        Record(i, span);
      }
    }

    /** Appends an occurrence to the spans of an allocated group `i`. */
    method Record(i: int, span: (int, int))
      requires Building() && 0 <= i < nfa.groupNum && 0 <= span.0 < span.1 < nfa.numStates
      modifies nfa`group
      ensures Building()
      ensures nfa.group == old(nfa.group)[i := SpansOf(old(nfa.group), i) + [span]]
    {
      nfa.AddSpan(i, span);
    }

    /** The join loop of `compileRegex`: an epsilon rule from each branch end
        into the next state, then `num_states++`.  Nothing else enters the
        new state. */
    method Join(exits: seq<int>)
      requires Building()
      requires forall i :: 0 <= i < |exits| ==> 0 <= exits[i] < nfa.numStates
      requires Rising(exits)
      modifies nfa`rules, nfa`numStates
      ensures Building() && nfa.numStates == old(nfa.numStates) + 1
      ensures |nfa.rules| == old(nfa.numStates) + 1 && nfa.rules[old(nfa.numStates)] == []
      ensures forall q :: 0 <= q < old(nfa.numStates) ==> JoinedAt(old(nfa.rules), nfa.rules, exits, q)
    {
      ghost var mid := nfa.rules;
      var join := nfa.numStates;
      for i := 0 to |exits|
        invariant |nfa.rules| == |mid| == nfa.numStates == join
        invariant forall q :: 0 <= q < join ==>
          nfa.rules[q] == if q in exits[..i] then mid[q] + [Eps(join)] else mid[q]
      {
        forall j | 0 <= j < i
          ensures exits[j] < exits[i]
        {
          RisingOrdered(exits, j, i);
        }
        assert exits[i] !in exits[..i];
        nfa.PushBack(exits[i], Eps(join));
        assert forall q :: q in exits[..i + 1] <==> q in exits[..i] || q == exits[i];
      }
      assert exits[..|exits|] == exits;
      ghost var r := nfa.rules;
      nfa.AddState();
      forall q | 0 <= q < |nfa.rules|
        ensures StateOk(StateAt(nfa.rules, q), join + 1)
      {
        if q < join {
          assert StateOk(StateAt(mid, q), join);
        }
      }
      forall q | 0 <= q < join
        ensures JoinedAt(mid, nfa.rules, exits, q)
      {
        assert nfa.rules[q] == r[q];
      }
    }

    /** `compileSingle`: one rule from the current (last) state to a new state. */
    method CompileSingle(s: Single)
      requires Building() && SingleInTable(s)
      modifies nfa`rules, nfa`numStates
      ensures Building()
      ensures var cur := old(nfa.numStates) - 1;
        && nfa.numStates == cur + 2
        && nfa.rules == old(nfa.rules)[cur := old(nfa.rules)[cur] + [SingleRule(s, cur + 1)]] + [[]]
    {
      var r: Rule;
      match s {
        case CharSingle(t) =>
          r := Rule(nfa.numStates, Normal, Guard([Unescape(t)], "", []));
        case ClassSingle(kind) =>
          r := Rule(nfa.numStates, Special, Guard([kind.Letter()], "", []));
        case AnyCharacter =>
          r := Rule(nfa.numStates, Special, Guard(".", "", []));
        case CharacterGroup(negated, items) =>
          var table := BuildGroupTable(negated, items);
          r := Rule(nfa.numStates, RuleType.Group, Guard("", "", table));
      }
      Extend(nfa.numStates - 1, r, false);
    }

    /** `compileRegex`: from the current state `cur`, one front-inserted
        epsilon edge per branch into that branch's new entry state (so the
        first branch is listed last and tried first), and one epsilon edge
        from each branch's end into a new join state, which nothing else
        enters. */
    method CompileRegex(r: RegexTree.Regex) returns (ghost entries: seq<int>, ghost exits: seq<int>)
      requires Building() && RegexInTable(r)
      modifies nfa`rules, nfa`numStates, nfa`groupNum, nfa`group
      decreases r, 3
      ensures Building() && Kept(old(nfa.rules), nfa.rules)
      ensures SpansKept(old(nfa.groupNum), old(nfa.group), nfa.groupNum, nfa.group)
      ensures Counted(nfa.group, old(nfa.groupNum), nfa.groupNum, RegexCounts(r))
      ensures |entries| == |r.expressions|
      ensures Alternation(nfa.rules, old(nfa.rules)[old(nfa.numStates) - 1], old(nfa.numStates) - 1, entries, exits)
    {
      var cur := nfa.numStates - 1;
      var stateList;
      entries, stateList := CompileBranches(r);
      BranchesRising(old(nfa.rules), nfa.rules, cur, old(nfa.rules)[cur], entries, stateList);
      ghost var mid := nfa.rules;
      Join(stateList);
      exits := stateList;
      JoinShape(old(nfa.rules), mid, nfa.rules, cur, entries, exits);
    }

    /** The branch loop of `compileRegex`: it returns the branches' entry
        states and (as the source's `stateList`) their end states. */
    method CompileBranches(r: RegexTree.Regex) returns (ghost entries: seq<int>, stateList: seq<int>)
      requires Building() && RegexInTable(r)
      modifies nfa`rules, nfa`numStates, nfa`groupNum, nfa`group
      decreases r, 2
      ensures Building()
      ensures SpansKept(old(nfa.groupNum), old(nfa.group), nfa.groupNum, nfa.group)
      ensures Counted(nfa.group, old(nfa.groupNum), nfa.groupNum, RegexCounts(r))
      ensures |entries| == |r.expressions|
      ensures BranchesLaid(old(nfa.rules), nfa.rules, old(nfa.numStates) - 1, old(nfa.rules)[old(nfa.numStates) - 1],
                           entries, stateList)
    {
      var cur := nfa.numStates - 1;
      ghost var r0 := nfa.rules[cur];
      stateList := [];
      entries := [];
      assert Fronts(entries) + r0 == r0;
      for i := 0 to |r.expressions|
        invariant Building()
        invariant SpansKept(old(nfa.groupNum), old(nfa.group), nfa.groupNum, nfa.group)
        invariant Counted(nfa.group, old(nfa.groupNum), nfa.groupNum, BranchCounts(r, i))
        invariant |entries| == i
        invariant BranchesLaid(old(nfa.rules), nfa.rules, cur, r0, entries, stateList)
      {
        ghost var (r1, n0, g0) := (nfa.rules, nfa.groupNum, nfa.group);
        ghost var entry := CompileBranch(cur, r.expressions[i]);
        BranchStep(old(nfa.rules), r1, nfa.rules, cur, r0, entries, stateList, entry, nfa.numStates - 1);
        entries := entries + [entry];
        SpansKeptTrans(old(nfa.groupNum), old(nfa.group), n0, g0, nfa.groupNum, nfa.group);
        CountedSnoc(g0, nfa.group, old(nfa.groupNum), n0, nfa.groupNum, BranchCounts(r, i), ExpressionCounts(r.expressions[i]));
        stateList := stateList + [nfa.numStates - 1];
      }
    }

    /** One pass of the branch loop: an epsilon edge from `cur`, inserted at
        the front, into a new entry state, and the branch compiled from there. */
    method CompileBranch(cur: int, e: Expression) returns (ghost entry: int)
      requires Building() && ExpressionInTable(e) && 0 <= cur < nfa.numStates
      modifies nfa`rules, nfa`numStates, nfa`groupNum, nfa`group
      decreases e, 3
      ensures Building() && entry == old(nfa.numStates) < nfa.numStates
      ensures |nfa.rules| == nfa.numStates && nfa.rules[nfa.numStates - 1] == []
      ensures nfa.rules[cur] == [Eps(entry)] + old(nfa.rules)[cur]
      ensures forall q :: 0 <= q < old(nfa.numStates) && q != cur ==> nfa.rules[q] == old(nfa.rules)[q]
      ensures SpansKept(old(nfa.groupNum), old(nfa.group), nfa.groupNum, nfa.group)
      ensures Counted(nfa.group, old(nfa.groupNum), nfa.groupNum, ExpressionCounts(e))
    {
      Extend(cur, Eps(nfa.numStates), true);
      entry := nfa.numStates - 1;
      ghost var mid := nfa.rules;
      ghost var pre, post := CompileExpression(e);
    }

    /** `compileExpression`: the items in order, each from the state the
        previous one ended in; the current state keeps its old rules as one
        contiguous block. */
    method CompileExpression(e: Expression) returns (ghost pre: seq<Rule>, ghost post: seq<Rule>)
      requires Building() && ExpressionInTable(e)
      modifies nfa`rules, nfa`numStates, nfa`groupNum, nfa`group
      decreases e, 2
      ensures Building() && Kept(old(nfa.rules), nfa.rules)
      ensures SpansKept(old(nfa.groupNum), old(nfa.group), nfa.groupNum, nfa.group)
      ensures Counted(nfa.group, old(nfa.groupNum), nfa.groupNum, ExpressionCounts(e))
      ensures var cur := old(nfa.numStates) - 1;
        nfa.rules[cur] == pre + old(nfa.rules)[cur] + post
    {
      pre, post := [], [];
      var cur := nfa.numStates - 1;
      for i := 0 to |e.items|
        invariant Building() && Kept(old(nfa.rules), nfa.rules)
        invariant SpansKept(old(nfa.groupNum), old(nfa.group), nfa.groupNum, nfa.group)
        invariant Counted(nfa.group, old(nfa.groupNum), nfa.groupNum, ItemsCounts(e, i))
        invariant nfa.rules[cur] == pre + old(nfa.rules)[cur] + post
      {
        ghost var before := nfa.rules;
        ghost var (n0, g0) := (nfa.groupNum, nfa.group);
        ghost var p1, p2 := CompileItem(e.items[i]);
        KeptTrans(old(nfa.rules), before, nfa.rules);
        SpansKeptTrans(old(nfa.groupNum), old(nfa.group), n0, g0, nfa.groupNum, nfa.group);
        CountedSnoc(g0, nfa.group, old(nfa.groupNum), n0, nfa.groupNum, ItemsCounts(e, i), ItemCounts(e.items[i]));
        if |before| - 1 == cur {
          pre, post := p1 + pre, post + p2;
        }
      }
    }

    /** `compileExpressionItem` seen from `compileExpression`: what one item
        keeps and how it extends the current state's rules. */
    method CompileItem(ei: ExpressionItem) returns (ghost pre: seq<Rule>, ghost post: seq<Rule>)
      requires Building() && ItemInTable(ei)
      modifies nfa`rules, nfa`numStates, nfa`groupNum, nfa`group
      decreases ei, 2
      ensures Building() && Kept(old(nfa.rules), nfa.rules)
      ensures SpansKept(old(nfa.groupNum), old(nfa.group), nfa.groupNum, nfa.group)
      ensures Counted(nfa.group, old(nfa.groupNum), nfa.groupNum, ItemCounts(ei))
      ensures var cur := old(nfa.numStates) - 1;
        nfa.rules[cur] == pre + old(nfa.rules)[cur] + post
    {
      ghost var body, entries, stops;
      pre, post, body, entries, stops := CompileExpressionItem(ei);
    }

    /** `compileExpressionItem`: an anchor becomes one tagged epsilon rule
        into a new state; a normal item without a quantifier its single's rule
        or its group's alternation, then a connecting edge; a quantified item
        one of the quantifier blocks.  A capturing group records its spans
        under the next group number. */
    method CompileExpressionItem(ei: ExpressionItem)
      returns (ghost pre: seq<Rule>, ghost post: seq<Rule>, ghost body: seq<seq<Rule>>, ghost entries: seq<int>,
               ghost stops: seq<int>)
      requires Building() && ItemInTable(ei)
      modifies nfa`rules, nfa`numStates, nfa`groupNum, nfa`group
      decreases ei, 1
      ensures Building() && Kept(old(nfa.rules), nfa.rules)
      ensures SpansKept(old(nfa.groupNum), old(nfa.group), nfa.groupNum, nfa.group)
      ensures Counted(nfa.group, old(nfa.groupNum), nfa.groupNum, ItemCounts(ei))
      ensures var cur := old(nfa.numStates) - 1;
        nfa.rules[cur] == pre + old(nfa.rules)[cur] + post
      ensures ei.AnchorItem? ==>
        var cur := old(nfa.numStates) - 1;
        nfa.rules == old(nfa.rules)[cur := old(nfa.rules)[cur] + [AnchorRule(ei.anchor, cur + 1)]] + [[]]
      ensures ei.Item? && ei.quantifier.None? ==>
        && PlainLaid(ei.normal, old(nfa.rules), nfa.rules, body, entries)
        && (Capturing(ei.normal) ==> SpansOf(nfa.group, old(nfa.groupNum)) == [(old(nfa.numStates) - 1, nfa.numStates - 2)])
      ensures ei.Item? && ei.quantifier.Some? ==>
        QuantifiedLaid(ei.normal, ei.quantifier.value, old(nfa.rules), nfa.rules, SpansOf(nfa.group, old(nfa.groupNum)), stops)
    {
      var cur := nfa.numStates - 1;
      body, entries, stops := [], [], [];
      match ei {
        case AnchorItem(a) =>
          Extend(cur, AnchorRule(a, nfa.numStates), false);
          pre, post := [], [AnchorRule(a, cur + 1)];
        case Item(ni, None) =>
          pre, post, body, entries := CompilePlain(ni);
        case Item(ni, Some(q)) =>
          pre, post, stops := CompileQuantified(ni, q);
      }
    }

    /** An item with a quantifier: a range quantifier's copies, or the block
        of `?`, `*` or `+`. */
    method CompileQuantified(ni: NormalItem, q: Quantifier) returns (ghost pre: seq<Rule>, ghost post: seq<Rule>, ghost stops: seq<int>)
      requires Building() && NormalInTable(ni)
      modifies nfa`rules, nfa`numStates, nfa`groupNum, nfa`group
      decreases ni, 7
      ensures Building() && Kept(old(nfa.rules), nfa.rules)
      ensures SpansKept(old(nfa.groupNum), old(nfa.group), nfa.groupNum, nfa.group)
      ensures Counted(nfa.group, old(nfa.groupNum), nfa.groupNum, ItemCounts(Item(ni, Some(q))))
      ensures var cur := old(nfa.numStates) - 1;
        nfa.rules[cur] == pre + old(nfa.rules)[cur] + post
      ensures QuantifiedLaid(ni, q, old(nfa.rules), nfa.rules, SpansOf(nfa.group, old(nfa.groupNum)), stops)
    {
      if q.qtype.RangeQuantifier? {
        pre, post, stops := CompileRangeItem(ni, q);
      } else {
        pre, post := CompileLoopItem(ni, q);
        stops := [];
      }
    }

    method CompileRangeItem(ni: NormalItem, q: Quantifier) returns (ghost pre: seq<Rule>, ghost post: seq<Rule>, ghost stops: seq<int>)
      requires Building() && NormalInTable(ni) && q.qtype.RangeQuantifier?
      modifies nfa`rules, nfa`numStates, nfa`groupNum, nfa`group
      decreases ni, 6
      ensures Building() && Kept(old(nfa.rules), nfa.rules)
      ensures SpansKept(old(nfa.groupNum), old(nfa.group), nfa.groupNum, nfa.group)
      ensures Counted(nfa.group, old(nfa.groupNum), nfa.groupNum, RangeCounts(ni, q.qtype))
      ensures var cur := old(nfa.numStates) - 1;
        nfa.rules[cur] == pre + old(nfa.rules)[cur] + post
      ensures QuantifiedLaid(ni, q, old(nfa.rules), nfa.rules, SpansOf(nfa.group, old(nfa.groupNum)), stops)
    {
      var cur := nfa.numStates - 1;
      stops := CompileRange(ni, q);
      if |stops| > 1 {
        pre := Edge(0 >= q.qtype.lower && !q.lazy, SkipTarget(q.qtype, stops[1]));
        post := [Eps(cur + 1)] + Edge(0 >= q.qtype.lower && q.lazy, SkipTarget(q.qtype, stops[1]));
        RangeEntry(nfa.rules, old(nfa.rules)[cur], stops, q.qtype, q.lazy);
      } else {
        pre, post := [], [];
        assert [] + old(nfa.rules)[cur] + [] == old(nfa.rules)[cur];
      }
    }

    method CompileLoopItem(ni: NormalItem, q: Quantifier) returns (ghost pre: seq<Rule>, ghost post: seq<Rule>)
      requires Building() && NormalInTable(ni) && !q.qtype.RangeQuantifier?
      modifies nfa`rules, nfa`numStates, nfa`groupNum, nfa`group
      decreases ni, 6
      ensures Building() && Kept(old(nfa.rules), nfa.rules)
      ensures SpansKept(old(nfa.groupNum), old(nfa.group), nfa.groupNum, nfa.group)
      ensures Counted(nfa.group, old(nfa.groupNum), nfa.groupNum, NormalCounts(ni))
      ensures var cur := old(nfa.numStates) - 1;
        nfa.rules[cur] == pre + old(nfa.rules)[cur] + post
      ensures LoopBlock(old(nfa.rules), nfa.rules, q.qtype, q.lazy)
      ensures Capturing(ni) ==> SpansOf(nfa.group, old(nfa.groupNum)) == [(old(nfa.numStates), nfa.numStates - 3)]
    {
      var cur := nfa.numStates - 1;
      var p := nfa.groupNum;
      assert p !in nfa.group;
      CompileLoop(ni, p, q.qtype, q.lazy);
      CountedFront(Capturing(ni), nfa.group, p, nfa.groupNum, 1, InnerCounts(ni));
      SpansKeptBelow(p, p, old(nfa.group), nfa.groupNum, nfa.group, p, Capturing(ni));
      var x := nfa.numStates - 2;
      pre := Edge(Skips(q.qtype) && !q.lazy, x);
      post := [Eps(cur + 1)] + Edge(Skips(q.qtype) && q.lazy, x);
      LoopEntry(old(nfa.rules), nfa.rules, q.qtype, q.lazy, cur, x);
    }

    /** An item without a quantifier: a single's rule, or a group's
        alternation (a capturing group records (current state, join) under
        the next group number), then a connecting epsilon edge into a new
        state. */
    method CompilePlain(ni: NormalItem)
      returns (ghost pre: seq<Rule>, ghost post: seq<Rule>, ghost body: seq<seq<Rule>>, ghost entries: seq<int>)
      requires Building() && NormalInTable(ni)
      modifies nfa`rules, nfa`numStates, nfa`groupNum, nfa`group
      decreases ni, 1
      ensures Building() && Kept(old(nfa.rules), nfa.rules)
      ensures SpansKept(old(nfa.groupNum), old(nfa.group), nfa.groupNum, nfa.group)
      ensures Counted(nfa.group, old(nfa.groupNum), nfa.groupNum, NormalCounts(ni))
      ensures var cur := old(nfa.numStates) - 1;
        nfa.rules[cur] == pre + old(nfa.rules)[cur] + post
      ensures PlainLaid(ni, old(nfa.rules), nfa.rules, body, entries)
      ensures Capturing(ni) ==> SpansOf(nfa.group, old(nfa.groupNum)) == [(old(nfa.numStates) - 1, nfa.numStates - 2)]
    {
      var cur := nfa.numStates - 1;
      match ni {
        case SingleItem(s) =>
          body, entries := [], [];
          CompileUnquantifiedSingle(s);
          pre, post := [], [SingleRule(s, cur + 1)];
        case Group(nonCapturing, r) =>
          body, entries := CompileUnquantifiedGroup(nonCapturing, r);
          pre, post := Fronts(entries), [];
      }
    }

    method CompileUnquantifiedSingle(s: Single)
      requires Building() && SingleInTable(s)
      modifies nfa`rules, nfa`numStates
      ensures Building() && Kept(old(nfa.rules), nfa.rules)
      ensures var cur := old(nfa.numStates) - 1;
        nfa.rules == old(nfa.rules)[cur := old(nfa.rules)[cur] + [SingleRule(s, cur + 1)]] + [[Eps(cur + 2)], []]
    {
      var cur := nfa.numStates - 1;
      CompileSingle(s);
      ghost var r1 := nfa.rules;
      ghost var r0 := old(nfa.rules)[cur := old(nfa.rules)[cur] + [SingleRule(s, cur + 1)]];
      assert r1 == r0 + [[]];
      Extend(nfa.numStates - 1, Eps(nfa.numStates), false);
      ConnectLast(r1, nfa.rules);
      assert r1[cur + 1 := [Eps(cur + 2)]] == r0 + [[Eps(cur + 2)]];
      assert r0 + [[Eps(cur + 2)]] + [[]] == r0 + [[Eps(cur + 2)], []];
    }

    /** A group: a capturing one takes the next group number, the group's
        alternation is compiled from the current state (its span, current
        state to join, recorded under that number), and the join gets the
        connecting edge into a new state. */
    method CompileUnquantifiedGroup(nonCapturing: bool, r: RegexTree.Regex)
      returns (ghost body: seq<seq<Rule>>, ghost entries: seq<int>)
      requires Building() && RegexInTable(r)
      modifies nfa`rules, nfa`numStates, nfa`groupNum, nfa`group
      decreases r, 4
      ensures Building() && Kept(old(nfa.rules), nfa.rules)
      ensures SpansKept(old(nfa.groupNum), old(nfa.group), nfa.groupNum, nfa.group)
      ensures Counted(nfa.group, old(nfa.groupNum), nfa.groupNum, NormalCounts(NormalItem.Group(nonCapturing, r)))
      ensures |entries| == |r.expressions|
      ensures Entered(body, old(nfa.rules)[old(nfa.numStates) - 1], old(nfa.numStates) - 1, entries)
      ensures nfa.rules == body[|body| - 1 := [Eps(|body|)]] + [[]]
      ensures !nonCapturing ==>
        nfa.groupNum > old(nfa.groupNum) && SpansOf(nfa.group, old(nfa.groupNum)) == [(old(nfa.numStates) - 1, nfa.numStates - 2)]
    {
      var cur := nfa.numStates - 1;
      var p := nfa.groupNum;
      NextGroupIf(!nonCapturing);
      ghost var (n1, g1) := (nfa.groupNum, nfa.group);
      ghost var exits;
      entries, exits := CompileRegex(r);
      body := nfa.rules;
      ghost var (n2, g2) := (nfa.groupNum, nfa.group);
      RecordIf(!nonCapturing, p, (cur, nfa.numStates - 1));
      GroupOpened(!nonCapturing, p, old(nfa.group), n1, n2, g2, nfa.group, (cur, nfa.numStates - 1), RegexCounts(r));
      assert NormalCounts(NormalItem.Group(nonCapturing, r)) == (if !nonCapturing then [1] else []) + RegexCounts(r);
      Extend(nfa.numStates - 1, Eps(nfa.numStates), false);
      ConnectLast(body, nfa.rules);
      KeptTrans(old(nfa.rules), body, nfa.rules);
    }

    /** `?`, `*` and `+` (and the repeatable copy of `{m,}`, which compiles
        as `*`): the block, then a connector out of the state `x` after it;
        the skip edge into `x` sits on the entry state and the repeat edge
        back to it on `x`: in front of the way on when greedy, behind it when
        lazy.  A capturing group takes a new group number and records its
        span under `p`. */
    method CompileLoop(ni: NormalItem, p: int, t: QuantifierType, lazy: bool)
      requires Building() && NormalInTable(ni) && !t.RangeQuantifier?
      requires Capturing(ni) ==> 0 <= p <= nfa.groupNum
      modifies nfa`rules, nfa`numStates, nfa`groupNum, nfa`group
      decreases ni, 2
      ensures Building() && LoopBlock(old(nfa.rules), nfa.rules, t, lazy)
      ensures Counted(nfa.group, old(nfa.groupNum) + (if Capturing(ni) then 1 else 0), nfa.groupNum, InnerCounts(ni))
      ensures Capturing(ni) && p != old(nfa.groupNum) ==> SpansOf(nfa.group, old(nfa.groupNum)) == []
      ensures forall i :: 0 <= i < old(nfa.groupNum) && !(Capturing(ni) && i == p) ==>
        SpansOf(nfa.group, i) == SpansOf(old(nfa.group), i)
      ensures Capturing(ni) ==>
        SpansOf(nfa.group, p) == SpansOf(old(nfa.group), p) + [(old(nfa.numStates), nfa.numStates - 3)]
    {
      var cur := nfa.numStates - 1;
      ghost var b := CompileCopy(ni, p, true);
      ghost var r1 := nfa.rules;
      var x := nfa.numStates - 1;
      ghost var e := nfa.numStates;
      Extend(x, Eps(nfa.numStates), false);
      ghost var r2 := nfa.rules;
      PlaceEdges(cur, x, t, lazy);
      LoopShape(old(nfa.rules), r1, r2, nfa.rules, cur, b, x, e, t, lazy);
    }

    /** The skip edge `tmp3` from `cur` to `x` and the repeat edge `tmp4`
        from `x` back to `cur`, each where the quantifier's greediness puts
        it. */
    method PlaceEdges(cur: int, x: int, t: QuantifierType, lazy: bool)
      requires Building() && 0 <= cur < x < nfa.numStates && !t.RangeQuantifier?
      modifies nfa`rules
      ensures Building()
      ensures |nfa.rules| == |old(nfa.rules)|
      ensures nfa.rules[cur] == Edge(Skips(t) && !lazy, x) + old(nfa.rules)[cur] + Edge(Skips(t) && lazy, x)
      ensures nfa.rules[x] == Edge(Repeats(t) && lazy, cur) + old(nfa.rules)[x] + Edge(Repeats(t) && !lazy, cur)
      ensures forall q :: 0 <= q < |nfa.rules| && q != cur && q != x ==> nfa.rules[q] == old(nfa.rules)[q]
    {
      match t {
        case ZeroOrOne =>
          Emit(cur, x, !lazy);
          assert [] + old(nfa.rules)[x] + [] == old(nfa.rules)[x];
        case ZeroOrMore =>
          Emit(cur, x, !lazy);
          Emit(x, cur, lazy);
        case OneOrMore =>
          Emit(x, cur, lazy);
          assert [] + old(nfa.rules)[cur] + [] == old(nfa.rules)[cur];
      }
    }

    /** The block every quantifier repeats: an entry edge from the current
        state `nc` into a new state, the body from there, and an exit edge
        from the body's end `b` into a new state.  With `bump`, a capturing
        group takes a new group number first; its span (body entry, `b`) is
        recorded under `p`. */
    method CompileCopy(ni: NormalItem, p: int, bump: bool) returns (ghost b: int)
      requires Building() && NormalInTable(ni)
      requires Capturing(ni) ==> 0 <= p && (if bump then p <= nfa.groupNum else p < nfa.groupNum)
      modifies nfa`rules, nfa`numStates, nfa`groupNum, nfa`group
      decreases ni, 1
      ensures Building() && Kept(old(nfa.rules), nfa.rules)
      ensures var nc := old(nfa.numStates) - 1;
        && nc + 1 < b && nfa.numStates == b + 2
        && nfa.rules[nc] == old(nfa.rules)[nc] + [Eps(nc + 1)]
        && |nfa.rules[b]| >= 1 && nfa.rules[b][|nfa.rules[b]| - 1] == Eps(b + 1)
      ensures Counted(nfa.group, old(nfa.groupNum) + (if bump && Capturing(ni) then 1 else 0), nfa.groupNum, InnerCounts(ni))
      ensures bump && Capturing(ni) && p != old(nfa.groupNum) ==> SpansOf(nfa.group, old(nfa.groupNum)) == []
      ensures forall i :: 0 <= i < old(nfa.groupNum) && !(Capturing(ni) && i == p) ==>
        SpansOf(nfa.group, i) == SpansOf(old(nfa.group), i)
      ensures Capturing(ni) ==> SpansOf(nfa.group, p) == SpansOf(old(nfa.group), p) + [(old(nfa.numStates), b)]
    {
      var nc := nfa.numStates - 1;
      Extend(nc, Eps(nfa.numStates), false);
      ghost var r1 := nfa.rules;
      CompileBody(ni, p, bump);
      assert nfa.rules[nc] == r1[nc];
      var last := nfa.numStates - 1;
      b := last;
      Extend(last, Eps(nfa.numStates), false);
    }

    /** The body of a quantifier block, from the current state: a single's
        rule, or a group's alternation whose span (current state, join) a
        capturing group records under `p`. */
    method CompileBody(ni: NormalItem, p: int, bump: bool)
      requires Building() && NormalInTable(ni)
      requires Capturing(ni) ==> 0 <= p && (if bump then p <= nfa.groupNum else p < nfa.groupNum)
      modifies nfa`rules, nfa`numStates, nfa`groupNum, nfa`group
      decreases ni, 0
      ensures Building() && Kept(old(nfa.rules), nfa.rules) && old(nfa.numStates) < nfa.numStates
      ensures Counted(nfa.group, old(nfa.groupNum) + (if bump && Capturing(ni) then 1 else 0), nfa.groupNum, InnerCounts(ni))
      ensures bump && Capturing(ni) && p != old(nfa.groupNum) ==> SpansOf(nfa.group, old(nfa.groupNum)) == []
      ensures forall i :: 0 <= i < old(nfa.groupNum) && !(Capturing(ni) && i == p) ==>
        SpansOf(nfa.group, i) == SpansOf(old(nfa.group), i)
      ensures Capturing(ni) ==>
        SpansOf(nfa.group, p) == SpansOf(old(nfa.group), p) + [(old(nfa.numStates) - 1, nfa.numStates - 1)]
    {
      var cur := nfa.numStates - 1;
      match ni {
        case SingleItem(s) =>
          CompileSingle(s);
        case Group(nonCapturing, r) =>
          if bump && !nonCapturing {
            NextGroup();
          }
          ghost var entries, exits := CompileRegex(r);
          if !nonCapturing {
            ghost var g2 := nfa.group;
            Record(p, (cur, nfa.numStates - 1));
            assert forall i :: i != p ==> SpansOf(nfa.group, i) == SpansOf(g2, i);
            CountedKept(g2, nfa.group, old(nfa.groupNum) + (if bump then 1 else 0), nfa.groupNum, InnerCounts(ni));
          }
      }
    }

    /** `{m}`, `{m,n}` and `{m,}`: a capturing group takes the next group
        number, then `m` forced copies, then `n-m` optional ones or (`{m,}`)
        one copy compiled as `*`, which allocates a second group number of its
        own.  The group records one span per copy, from the copy's body
        entry. */
    method CompileRange(ni: NormalItem, q: Quantifier) returns (ghost stops: seq<int>)
      requires Building() && NormalInTable(ni) && q.qtype.RangeQuantifier?
      modifies nfa`rules, nfa`numStates, nfa`groupNum, nfa`group
      decreases ni, 5
      ensures Building() && Kept(old(nfa.rules), nfa.rules)
      ensures SpansKept(old(nfa.groupNum), old(nfa.group), nfa.groupNum, nfa.group)
      ensures Counted(nfa.group, old(nfa.groupNum), nfa.groupNum, RangeCounts(ni, q.qtype))
      ensures |stops| >= 1 && stops[0] == old(nfa.numStates) - 1 && stops[|stops| - 1] == nfa.numStates - 1
      ensures CopyChain(nfa.rules, old(nfa.rules)[old(nfa.numStates) - 1], stops, q.qtype, q.lazy)
      ensures |stops| == 1 ==> nfa.rules == old(nfa.rules)
      ensures Capturing(ni) ==> SpansAt(SpansOf(nfa.group, old(nfa.groupNum)), stops, Copies(q.qtype))
    {
      var p := nfa.groupNum;
      NextGroupIf(Capturing(ni));
      ghost var (n1, g1) := (nfa.groupNum, nfa.group);
      stops := LayRange(ni, p, q.lazy, q.qtype);
      ghost var rest := Repeat(InnerCounts(ni), Bounded(q.qtype)) + StarCounts(ni, q.qtype);
      CountedFront(Capturing(ni), nfa.group, p, nfa.groupNum, Copies(q.qtype), rest);
      assert RangeCounts(ni, q.qtype) == (if Capturing(ni) then [Copies(q.qtype)] else []) + rest;
    }

    /** The copies of a range quantifier, once a capturing group has taken
        its number `p`: the bounded copies, then for `{m,}` the `*` copy. */
    method LayRange(ni: NormalItem, p: int, lazy: bool, t: QuantifierType) returns (ghost stops: seq<int>)
      requires Building() && NormalInTable(ni) && t.RangeQuantifier?
      requires Capturing(ni) ==> 0 <= p < nfa.groupNum && SpansOf(nfa.group, p) == []
      modifies nfa`rules, nfa`numStates, nfa`groupNum, nfa`group
      decreases ni, 4
      ensures Building() && Kept(old(nfa.rules), nfa.rules)
      ensures forall i :: 0 <= i < old(nfa.groupNum) && !(Capturing(ni) && i == p) ==>
        SpansOf(nfa.group, i) == SpansOf(old(nfa.group), i)
      ensures Counted(nfa.group, old(nfa.groupNum), nfa.groupNum, Repeat(InnerCounts(ni), Bounded(t)) + StarCounts(ni, t))
      ensures |stops| >= 1 && stops[0] == old(nfa.numStates) - 1 && stops[|stops| - 1] == nfa.numStates - 1
      ensures CopyChain(nfa.rules, old(nfa.rules)[old(nfa.numStates) - 1], stops, t, lazy)
      ensures |stops| == 1 ==> nfa.rules == old(nfa.rules)
      ensures Capturing(ni) ==> SpansAt(SpansOf(nfa.group, p), stops, Copies(t))
    {
      stops := LayCopies(ni, p, Bounded(t), lazy, t);
      if t.delimiter && t.upper.None? {
        ghost var (r2, n2, g2) := (nfa.rules, nfa.groupNum, nfa.group);
        stops := LayStar(ni, p, lazy, t, old(nfa.rules)[old(nfa.numStates) - 1], stops);
        RangeStarJoin(ni, p, t, lazy, old(nfa.rules), r2, nfa.rules, old(nfa.groupNum), old(nfa.group), n2, g2,
                      nfa.groupNum, nfa.group, old(nfa.rules)[old(nfa.numStates) - 1], stops);
      } else {
        ChainBounded(nfa.rules, old(nfa.rules)[old(nfa.numStates) - 1], stops, t, lazy);
        assert Copies(t) == Bounded(t);
        assert Repeat(InnerCounts(ni), Bounded(t)) + StarCounts(ni, t) == Repeat(InnerCounts(ni), Bounded(t));
      }
    }

    /** The repeatable copy of `{m,}`, compiled as `*` after the `m` laid
        copies. */
    method LayStar(ni: NormalItem, p: int, lazy: bool, t: QuantifierType, ghost base: seq<Rule>, ghost stops: seq<int>)
      returns (ghost stops': seq<int>)
      requires Building() && NormalInTable(ni) && t.RangeQuantifier? && t.delimiter && t.upper.None?
      requires CopiesLaid(nfa.rules, base, stops, t, lazy) && |stops| == Bounded(t) + 1
      requires stops[Bounded(t)] == nfa.numStates - 1
      requires nfa.rules[nfa.numStates - 1] == if Bounded(t) == 0 then base else []
      requires Capturing(ni) ==> 0 <= p < nfa.groupNum && SpansAt(SpansOf(nfa.group, p), stops, Bounded(t))
      modifies nfa`rules, nfa`numStates, nfa`groupNum, nfa`group
      decreases ni, 3, 0
      ensures Building() && Kept(old(nfa.rules), nfa.rules)
      ensures stops' == stops + [nfa.numStates - 1]
      ensures |stops'| == |stops| + 1 && stops'[0] == stops[0] && stops'[|stops'| - 1] == nfa.numStates - 1
      ensures CopyChain(nfa.rules, base, stops', t, lazy)
      ensures Counted(nfa.group, old(nfa.groupNum), nfa.groupNum, StarCounts(ni, t))
      ensures forall i :: 0 <= i < old(nfa.groupNum) && !(Capturing(ni) && i == p) ==>
        SpansOf(nfa.group, i) == SpansOf(old(nfa.group), i)
      ensures Capturing(ni) ==>
        SpansOf(nfa.group, p) == SpansOf(old(nfa.group), p) + [(old(nfa.numStates), nfa.numStates - 3)]
      ensures Capturing(ni) ==> SpansAt(SpansOf(nfa.group, p), stops', Copies(t))
    {
      CompileLoop(ni, p, ZeroOrMore, lazy);
      stops' := stops + [nfa.numStates - 1];
      StarStep(ni, p, t, lazy, base, stops, old(nfa.rules), nfa.rules, old(nfa.groupNum), nfa.groupNum, old(nfa.group),
               nfa.group, old(nfa.numStates) - 1, old(nfa.numStates), nfa.numStates - 3, nfa.numStates - 1, stops');
    }

    /** The copy loops of `{m}` and `{m,n}`: `n` blocks one after the other
        from the current state, the ones from number `m` on optional. */
    method LayCopies(ni: NormalItem, p: int, n: nat, lazy: bool, t: QuantifierType)
      returns (ghost stops: seq<int>)
      requires Building() && NormalInTable(ni) && t.RangeQuantifier?
      requires n > t.lower ==> t.upper.Some?
      requires Capturing(ni) ==> 0 <= p < nfa.groupNum && SpansOf(nfa.group, p) == []
      modifies nfa`rules, nfa`numStates, nfa`groupNum, nfa`group
      decreases ni, 3, 1
      ensures Building() && Kept(old(nfa.rules), nfa.rules)
      ensures |stops| == n + 1 && stops[0] == old(nfa.numStates) - 1 && stops[n] == nfa.numStates - 1
      ensures CopiesLaid(nfa.rules, old(nfa.rules)[old(nfa.numStates) - 1], stops, t, lazy)
      ensures nfa.rules[nfa.numStates - 1] == if n == 0 then old(nfa.rules)[old(nfa.numStates) - 1] else []
      ensures n == 0 ==> nfa.rules == old(nfa.rules)
      ensures Counted(nfa.group, old(nfa.groupNum), nfa.groupNum, Repeat(InnerCounts(ni), n))
      ensures forall i :: 0 <= i < old(nfa.groupNum) && !(Capturing(ni) && i == p) ==>
        SpansOf(nfa.group, i) == SpansOf(old(nfa.group), i)
      ensures Capturing(ni) ==> SpansAt(SpansOf(nfa.group, p), stops, n)
    {
      var cur := nfa.numStates - 1;
      stops := [cur];
      for i := 0 to n
        invariant Building() && Kept(old(nfa.rules), nfa.rules)
        invariant |stops| == i + 1 && stops[0] == cur && stops[i] == nfa.numStates - 1
        invariant CopiesLaid(nfa.rules, old(nfa.rules)[cur], stops, t, lazy)
        invariant nfa.rules[nfa.numStates - 1] == if i == 0 then old(nfa.rules)[cur] else []
        invariant i == 0 ==> nfa.rules == old(nfa.rules)
        invariant Counted(nfa.group, old(nfa.groupNum), nfa.groupNum, Repeat(InnerCounts(ni), i))
        invariant forall k :: 0 <= k < old(nfa.groupNum) && !(Capturing(ni) && k == p) ==>
          SpansOf(nfa.group, k) == SpansOf(old(nfa.group), k)
        invariant Capturing(ni) ==> SpansAt(SpansOf(nfa.group, p), stops, i)
      {
        stops := LayNext(ni, p, i, lazy, t, old(nfa.rules)[cur], old(nfa.rules), cur, old(nfa.groupNum), old(nfa.group), stops);
      }
    }

    /** Pass `i` of the copy loops of `{m}` and `{m,n}`, from the loop's
        start (rules `rs`, `base` at `cur`; group table `gs` from `m`): what
        the loop knows after `i` passes it knows after `i + 1`. */
    method LayNext(ni: NormalItem, p: int, i: nat, lazy: bool, t: QuantifierType, ghost base: seq<Rule>,
                   ghost rs: seq<seq<Rule>>, ghost cur: int, ghost m: int, ghost gs: map<int, seq<(int, int)>>,
                   ghost stops: seq<int>)
      returns (ghost stops': seq<int>)
      requires Building() && NormalInTable(ni) && t.RangeQuantifier? && (i >= t.lower ==> t.upper.Some?)
      requires 0 <= m && (Capturing(ni) ==> 0 <= p < m)
      requires Kept(rs, nfa.rules)
      requires |stops| == i + 1 && stops[0] == cur && stops[i] == nfa.numStates - 1
      requires CopiesLaid(nfa.rules, base, stops, t, lazy)
      requires nfa.rules[nfa.numStates - 1] == if i == 0 then base else []
      requires Counted(nfa.group, m, nfa.groupNum, Repeat(InnerCounts(ni), i))
      requires forall k :: 0 <= k < m && !(Capturing(ni) && k == p) ==> SpansOf(nfa.group, k) == SpansOf(gs, k)
      requires Capturing(ni) ==> SpansAt(SpansOf(nfa.group, p), stops, i)
      modifies nfa`rules, nfa`numStates, nfa`groupNum, nfa`group
      decreases ni, 3, 0
      ensures Building() && Kept(rs, nfa.rules)
      ensures |stops'| == i + 2 && stops'[0] == cur && stops'[i + 1] == nfa.numStates - 1
      ensures CopiesLaid(nfa.rules, base, stops', t, lazy)
      ensures nfa.rules[nfa.numStates - 1] == []
      ensures Counted(nfa.group, m, nfa.groupNum, Repeat(InnerCounts(ni), i + 1))
      ensures forall k :: 0 <= k < m && !(Capturing(ni) && k == p) ==> SpansOf(nfa.group, k) == SpansOf(gs, k)
      ensures Capturing(ni) ==> SpansAt(SpansOf(nfa.group, p), stops', i + 1)
    {
      ghost var (r0, n0, g0, y) := (nfa.rules, nfa.groupNum, nfa.group, nfa.numStates);
      stops' := LayCopy(ni, p, i, lazy, i >= t.lower, base, stops, t);
      CopiesNext(ni, p, i, rs, r0, nfa.rules, m, gs, n0, g0, nfa.groupNum, nfa.group, stops, stops', y,
                 nfa.numStates - 2, nfa.numStates - 1);
    }

    /** One pass of the copy loops of `{m}` and `{m,n}`: a block from the
        last copy's end, optional (with its skip edge) from copy number `m`
        on. */
    method LayCopy(ni: NormalItem, p: int, ghost i: nat, lazy: bool, optional: bool,
                   ghost base: seq<Rule>, ghost stops: seq<int>, ghost t: QuantifierType)
      returns (ghost stops': seq<int>)
      requires Building() && NormalInTable(ni) && t.RangeQuantifier?
      requires optional == (i >= t.lower) && (optional ==> t.upper.Some?)
      requires Capturing(ni) ==> 0 <= p < nfa.groupNum
      requires CopiesLaid(nfa.rules, base, stops, t, lazy) && |stops| == i + 1 && stops[i] == nfa.numStates - 1
      requires nfa.rules[nfa.numStates - 1] == if i == 0 then base else []
      modifies nfa`rules, nfa`numStates, nfa`groupNum, nfa`group
      decreases ni, 2
      ensures Building() && Kept(old(nfa.rules), nfa.rules)
      ensures stops' == stops + [nfa.numStates - 1] && nfa.rules[nfa.numStates - 1] == []
      ensures CopiesLaid(nfa.rules, base, stops', t, lazy)
      ensures Counted(nfa.group, old(nfa.groupNum), nfa.groupNum, InnerCounts(ni))
      ensures forall k :: 0 <= k < old(nfa.groupNum) && !(Capturing(ni) && k == p) ==>
        SpansOf(nfa.group, k) == SpansOf(old(nfa.group), k)
      ensures Capturing(ni) ==>
        SpansOf(nfa.group, p) == SpansOf(old(nfa.group), p) + [(old(nfa.numStates), nfa.numStates - 2)]
    {
      var nc := nfa.numStates - 1;
      ghost var b := CompileCopy(ni, p, false);
      ghost var r1 := nfa.rules;
      var e := nfa.numStates - 1;
      PlaceSkip(nc, e, optional, lazy);
      CopyStep(old(nfa.rules), r1, nfa.rules, base, stops, t, lazy, optional, i, nc, e);
      stops' := stops + [e];
    }

    /** The skip edge `tmp3` of an optional copy from `nc` to `e`, when `on`:
        at the front when greedy, at the back when lazy. */
    method PlaceSkip(nc: int, e: int, on: bool, lazy: bool)
      requires Building() && 0 <= nc < nfa.numStates && 0 <= e < nfa.numStates
      modifies nfa`rules
      ensures Building()
      ensures nfa.rules == old(nfa.rules)[nc := Edge(on && !lazy, e) + old(nfa.rules)[nc] + Edge(on && lazy, e)]
    {
      if on {
        Emit(nc, e, !lazy);
      } else {
        assert [] + old(nfa.rules)[nc] + [] == old(nfa.rules)[nc];
      }
    }

    // ----- compile and the match layer -----

    /** `compile`: the `m` and `s` flags, state 0 alone, the alternation of
        the whole tree from it, and its join state as the one final state.
        The result is an automaton the executor accepts: well formed, state 0
        not final, and final states entered by epsilon rules only.  The group
        table holds the numbers `RegexCounts(tree)` allocates, each with its
        count of spans, and every span names two states, entry before exit. */
    method Compile(flags: string, tree: RegexTree.Regex) returns (ghost entries: seq<int>, ghost exits: seq<int>)
      requires RegexInTable(tree) && nfa.rules == [] && nfa.groupNum == 0 && nfa.group == map[]
      modifies nfa`rules, nfa`numStates, nfa`groupNum, nfa`group, nfa`isFinal, nfa`flagM, nfa`flagS
      ensures nfa.flagM == (old(nfa.flagM) || 'm' in flags) && nfa.flagS == (old(nfa.flagS) || 's' in flags)
      ensures Building() && 2 <= nfa.numStates && Compiled(nfa.AsMachine())
      ensures |entries| == |tree.expressions| && Alternation(nfa.rules, [], 0, entries, exits)
      ensures |nfa.isFinal| == nfa.numStates
      ensures forall q :: 0 <= q < nfa.numStates ==> (nfa.isFinal[q] <==> q == nfa.numStates - 1)
      ensures Counted(nfa.group, 0, nfa.groupNum, RegexCounts(tree))
    {
      if 'm' in flags {
        nfa.flagM := true;
      }
      if 's' in flags {
        nfa.flagS := true;
      }
      nfa.numStates := 1;
      nfa.rules := [[]];
      entries, exits := CompileRegex(tree);
      var n := nfa.numStates;
      nfa.isFinal := seq(n, i => i == n - 1);
      BuiltWellFormed(nfa.rules, nfa.isFinal, nfa.flagM, nfa.flagS);
      JoinOnlyFinal(nfa.rules, nfa.isFinal, nfa.flagM, nfa.flagS, entries, exits);
    }

    /** The group loop of `match`, `matchAll` and `replaceAll`: for each
        group number, its occurrences from the last recorded one down, the
        first found on the path giving the group's text, or "" when none is
        found.  (The source tests `states[k] != x` before `k >= 0`, and
        `states[l] != x` before `l < size`: those reads fall outside the path,
        and the model tests the bound first.) */
    method GroupsOf(path: Path) returns (res: seq<string>)
      requires Spaced(path) && 0 <= nfa.groupNum
      ensures res == Groups(path, SpansList(nfa.group, nfa.groupNum))
    {
      res := [];
      for i := 0 to nfa.groupNum
        invariant |res| == i && forall i' :: 0 <= i' < i ==> res[i'] == GroupText(path, SpansOf(nfa.group, i'))
      {
        var spans := nfa.Spans(i);
        var j := |spans| - 1;
        assert spans[..j + 1] == spans;
        while j >= 0
          invariant -1 <= j < |spans| && |res| == i
          invariant GroupText(path, spans[..j + 1]) == GroupText(path, spans)
          decreases j
        {
          assert spans[..j + 1][..j] == spans[..j] && spans[..j + 1][j] == spans[j];
          var k := LastIndexOf(path.states, spans[j].0);
          if k < 0 {
            j := j - 1;
          } else {
            var l := FirstIndexFrom(path.states, spans[j].1, k);
            if l >= |path.states| {
              j := j - 1;
            } else {
              var str0 := JoinPieces(path.consumes, k, l);
              res := res + [str0];
              break;
            }
          }
        }
        if j < 0 {
          res := res + [""];
        }
      }
    }

    /** The row of an accepted path: the matched text (the pieces joined)
        followed by the text of each group. */
    method RowOf(path: Path) returns (row: seq<string>)
      requires Spaced(path) && 0 <= nfa.groupNum
      ensures row == [Concat(path.consumes)] + Groups(path, SpansList(nfa.group, nfa.groupNum))
    {
      var str := JoinPieces(path.consumes, 0, |path.consumes|);
      assert path.consumes[0..|path.consumes|] == path.consumes;
      var groups := GroupsOf(path);
      row := [str] + groups;
    }

    /** One `exec` from `p`, as `ExecResult` describes it. */
    method ExecAt(text: string, ghost m: Machine) returns (path: Path)
      requires m == nfa.AsMachine() && Fits(m, text) && 0 <= nfa.p <= |text| && !m.isFinal[0]
      modifies nfa`p, nfa`visited, nfa`fullText
      ensures (path, nfa.p, nfa.visited) == ExecResult(m, text, old(nfa.visited), old(nfa.p))
    {
      ghost var v, p := nfa.visited, nfa.p;
      path := nfa.Exec(text);
      ExecResultOf(m, text, v, p, path, nfa.p, nfa.visited);
    }

    /** The row `match` returns for an accepted `exec` from `p`. */
    method RowAt(text: string, path: Path, ghost m: Machine, ghost spans: seq<seq<(int, int)>>, ghost v: Visited, ghost p: int)
      returns (row: seq<string>)
      requires WellFormed(m) && Ascii(text) && !m.isFinal[0] && 0 <= p < |text|
      requires 0 <= nfa.groupNum && spans == SpansList(nfa.group, nfa.groupNum)
      requires ExecResult(m, text, v, p) == (path, nfa.p, nfa.visited) && path.states != []
      ensures row == FirstMatch(m, text, spans, v, p)
    {
      FirstMatchHit(m, text, spans, v, p, path, nfa.p, nfa.visited);
      row := RowOf(path);
    }

    /** One pass of the loop of `match`: `exec` from `p`; an accepted path
        gives the row (the matched text and the group texts), a rejected one
        moves `p` on by one. */
    method MatchStep(text: string, ghost m: Machine, ghost spans: seq<seq<(int, int)>>) returns (found: bool, result: seq<string>)
      requires m == nfa.AsMachine() && WellFormed(m) && !m.isFinal[0] && Ascii(text) && 0 <= nfa.p < |text|
      requires 0 <= nfa.groupNum && spans == SpansList(nfa.group, nfa.groupNum)
      modifies nfa`p, nfa`visited, nfa`fullText
      ensures found ==> result == FirstMatch(m, text, spans, old(nfa.visited), old(nfa.p))
      ensures !found ==> nfa.p == old(nfa.p) + 1
      ensures !found ==> FirstMatch(m, text, spans, nfa.visited, nfa.p) == FirstMatch(m, text, spans, old(nfa.visited), old(nfa.p))
    {
      ghost var v, p := nfa.visited, nfa.p;
      var path := ExecAt(text, m);
      found := path.states != [];
      if found {
        result := RowAt(text, path, m, spans, v, p);
      } else {
        FirstMatchMiss(m, text, spans, v, p, nfa.visited);
        nfa.p := nfa.p + 1;
        result := [];
      }
    }

    /** `match`: `exec` from offsets 0, 1, ... until one accepts; the row is
        the matched text followed by the group texts, and no match gives the
        empty row. */
    method Match(text: string) returns (result: seq<string>)
      requires WellFormed(nfa.AsMachine()) && !nfa.isFinal[0] && Ascii(text) && 0 <= nfa.groupNum
      modifies nfa`p, nfa`visited, nfa`fullText
      ensures result == FirstMatch(nfa.AsMachine(), text, SpansList(nfa.group, nfa.groupNum), old(nfa.visited), 0)
    {
      ghost var m, spans := nfa.AsMachine(), SpansList(nfa.group, nfa.groupNum);
      ghost var goal := FirstMatch(m, text, spans, nfa.visited, 0);
      nfa.p := 0;
      while nfa.p < |text|
        invariant 0 <= nfa.p <= |text| && m == nfa.AsMachine() && spans == SpansList(nfa.group, nfa.groupNum)
        invariant FirstMatch(m, text, spans, nfa.visited, nfa.p) == goal
        decreases |text| - nfa.p
      {
        var found;
        found, result := MatchStep(text, m, spans);
        if found {
          return;
        }
      }
      return [];
    }

    /** One pass of the scan loop of `matchAll` and `replaceAll`: `exec` from
        `p`; an accepted path is recorded and the next search starts at its
        end, a rejected one moves `p` on by one. */
    method FindStep(text: string, ghost m: Machine, ghost spans: seq<seq<(int, int)>>, fs: seq<Found>)
      returns (fs': seq<Found>)
      requires m == nfa.AsMachine() && Compiled(m) && Ascii(text) && 0 <= nfa.p < |text|
      requires 0 <= nfa.groupNum && spans == SpansList(nfa.group, nfa.groupNum)
      modifies nfa`p, nfa`visited, nfa`fullText
      ensures old(nfa.p) <= nfa.p <= |text|
      ensures nfa.p == old(nfa.p) ==> Unvisited(m, text, nfa.visited) < Unvisited(m, text, old(nfa.visited))
      ensures fs' + AllMatches(m, text, spans, nfa.visited, nfa.p) == fs + AllMatches(m, text, spans, old(nfa.visited), old(nfa.p))
    {
      ghost var v, p := nfa.visited, nfa.p;
      var path := ExecAt(text, m);
      if path.states != [] {
        var f := FoundOf(text, path, m, spans, v, p);
        fs' := fs + [f];
        assert fs' + AllMatches(m, text, spans, nfa.visited, nfa.p) == fs + ([f] + AllMatches(m, text, spans, nfa.visited, nfa.p));
      } else {
        AllMatchesMiss(m, text, spans, v, p, nfa.visited);
        nfa.p := nfa.p + 1;
        fs' := fs;
      }
    }

    /** The match an accepted `exec` from `p` records: its start (the
        source's `match_index`, `p` after the call less the matched length),
        its end and its row. */
    method FoundOf(text: string, path: Path, ghost m: Machine, ghost spans: seq<seq<(int, int)>>, ghost v: Visited, ghost p: int)
      returns (f: Found)
      requires Compiled(m) && Ascii(text) && 0 <= p < |text| && 0 <= nfa.groupNum && spans == SpansList(nfa.group, nfa.groupNum)
      requires ExecResult(m, text, v, p) == (path, nfa.p, nfa.visited) && path.states != []
      ensures p <= nfa.p <= |text|
      ensures Unvisited(m, text, nfa.visited) < Unvisited(m, text, v)
      ensures [f] + AllMatches(m, text, spans, nfa.visited, nfa.p) == AllMatches(m, text, spans, v, p)
    {
      ExecShrinks(m, text, v, p);
      AllMatchesHit(m, text, spans, v, p, path, nfa.p, nfa.visited);
      var row := RowOf(path);
      f := Found(nfa.p - |row[0]|, nfa.p, row);
    }

    /** The scan loop of `matchAll` and `replaceAll`: every match, in text
        order. */
    method FindAll(text: string) returns (fs: seq<Found>)
      requires Compiled(nfa.AsMachine()) && Ascii(text) && 0 <= nfa.groupNum
      modifies nfa`p, nfa`visited, nfa`fullText
      ensures fs == AllMatches(nfa.AsMachine(), text, SpansList(nfa.group, nfa.groupNum), old(nfa.visited), 0)
    {
      ghost var m, spans := nfa.AsMachine(), SpansList(nfa.group, nfa.groupNum);
      ghost var goal := AllMatches(m, text, spans, nfa.visited, 0);
      fs := [];
      nfa.p := 0;
      while nfa.p < |text|
        invariant 0 <= nfa.p <= |text| && m == nfa.AsMachine() && spans == SpansList(nfa.group, nfa.groupNum)
        invariant fs + AllMatches(m, text, spans, nfa.visited, nfa.p) == goal
        decreases |text| - nfa.p, Unvisited(m, text, nfa.visited)
      {
        fs := FindStep(text, m, spans, fs);
      }
    }

    /** `matchAll`: the rows of all matches, in text order. */
    method MatchAll(text: string) returns (result: seq<seq<string>>)
      requires Compiled(nfa.AsMachine()) && Ascii(text) && 0 <= nfa.groupNum
      modifies nfa`p, nfa`visited, nfa`fullText
      ensures result == Rows(AllMatches(nfa.AsMachine(), text, SpansList(nfa.group, nfa.groupNum), old(nfa.visited), 0))
    {
      var fs := FindAll(text);
      result := Rows(fs);
    }

    /** `replaceAll`: all matches found as `matchAll` finds them, then, from
        the last to the first, the matched text replaced by the template
        substituted with that match's row. */
    method ReplaceAll(text: string, replacement: string) returns (r: string)
      requires Compiled(nfa.AsMachine()) && Ascii(text) && 0 <= nfa.groupNum
      modifies nfa`p, nfa`visited, nfa`fullText
      ensures r == ReplaceAllSpec(nfa.AsMachine(), text, SpansList(nfa.group, nfa.groupNum), old(nfa.visited), replacement)
    {
      ghost var spans := SpansList(nfa.group, nfa.groupNum);
      var fs := FindAll(text);
      r := SpliceAll(text, spans, fs, replacement);
    }
  }
}
