/** The compiler of the second version (regex.cpp of the second stage).  It
    walks the same parse tree as the final version, but it continues from
    the state `nfa.last` names, appends the branch edges of an alternation in
    source order, reserves a greedy quantifier's exit state before the
    quantified body, and builds a character group's table by flipping slots.
    It compiles no anchors, no capture tables and no `{m,n}` unrolling. */
module Regex2 {
  import opened Automaton
  import opened RegexTree
  import Regex3

  // ----- character groups -----

  /** Whether a group member's loop flips the slot of `c`: a character
      member its own character (the text's second character when escaped, so
      `\n` stands for `n`), a class member its class, a range everything
      between the first characters of its ends' texts. */
  predicate Covers(item: CharacterGroupItem, c: char)
  {
    match item
    case CharInGroup(t) => c == t.c
    case ClassInGroup(kind) => Regex3.ClassHas(kind, c)
    case CharacterRange(lo, hi) => lo.Text()[0] <= c <= hi.Text()[0]
  }

  /** How many members cover `c`. */
  function CoverCount(items: seq<CharacterGroupItem>, c: char): nat
  {
    if items == [] then 0
    else CoverCount(items[..|items| - 1], c) + (if Covers(items[|items| - 1], c) then 1 else 0)
  }

  predicate Odd(n: nat) { n % 2 == 1 }

  /** The membership table the source builds: a slot starts at the negation
      flag and is flipped once per member covering it. */
  function XorTable(negated: bool, items: seq<CharacterGroupItem>): (t: seq<bool>)
    ensures |t| == 129
  {
    seq(129, j requires 0 <= j < 129 => negated != Odd(CoverCount(items, j as char)))
  }

  /** The table loops of `compileSingle`: every slot starts at `negated`,
      then each member flips the slots it covers. */
  method BuildXorTable(negated: bool, items: seq<CharacterGroupItem>) returns (t: seq<bool>)
    requires forall k :: 0 <= k < |items| ==> GroupItemInTable(items[k])
    ensures t == XorTable(negated, items)
  {
    var table := new bool[129];
    for j := 0 to 129
      invariant forall c :: 0 <= c < j ==> table[c] == negated
    {
      table[j] := negated;
    }
    for i := 0 to |items|
      invariant forall c :: 0 <= c < 129 ==> table[c] == (negated != Odd(CoverCount(items[..i], c as char)))
    {
      assert items[..i + 1][..i] == items[..i];
      FlipMember(table, items[i]);
    }
    t := table[..];
    assert items[..|items|] == items;
  }

  /** One member's loop: it flips every slot the member covers. */
  method FlipMember(table: array<bool>, item: CharacterGroupItem)
    requires table.Length == 129 && GroupItemInTable(item)
    modifies table
    ensures forall c :: 0 <= c < 129 ==> table[c] == (old(table[c]) != Covers(item, c as char))
  {
    match item
    case CharInGroup(tok) =>
      table[tok.c as int] := !table[tok.c as int];
    case ClassInGroup(kind) =>
      for j := 0 to 129
        invariant forall c :: 0 <= c < 129 ==>
          table[c] == (old(table[c]) != (c < j && Regex3.ClassHas(kind, c as char)))
      {
        if Regex3.ClassHas(kind, j as char) {
          table[j] := !table[j];
        }
      }
    case CharacterRange(lo, hi) =>
      var start := lo.Text()[0] as int;
      var end := hi.Text()[0] as int;
      var j := start;
      while j <= end
        invariant start <= j <= if start <= end then end + 1 else start
        invariant forall c :: 0 <= c < 129 ==> table[c] == (old(table[c]) != (start <= c < j))
      {
        table[j] := !table[j];
        j := j + 1;
      }
  }

  lemma {:induction false} CoverCountPositive(items: seq<CharacterGroupItem>, c: char)
    ensures CoverCount(items, c) > 0 <==> exists k :: 0 <= k < |items| && Covers(items[k], c)
    decreases |items|
  {
    if items != [] {
      var d := items[..|items| - 1];
      CoverCountPositive(d, c);
      if exists k :: 0 <= k < |items| && Covers(items[k], c) {
        var k :| 0 <= k < |items| && Covers(items[k], c);
        if k < |d| {
          assert d[k] == items[k];
        }
      }
      if exists k :: 0 <= k < |d| && Covers(d[k], c) {
        var k :| 0 <= k < |d| && Covers(d[k], c);
        assert items[k] == d[k];
      }
    }
  }

  /** Overlapping members cancel: a slot two members cover keeps the
      negation flag, so `[\w\d]` leaves out the digits and `[aa-c]` leaves
      out `a`. */
  lemma OverlapCancels(negated: bool)
    ensures XorTable(negated, [ClassInGroup(AnyWord), ClassInGroup(AnyDecimalDigit)])['5' as int] == negated
    ensures XorTable(negated, [ClassInGroup(AnyWord), ClassInGroup(AnyDecimalDigit)])['x' as int] == !negated
    ensures XorTable(negated, [CharInGroup(Plain('a')), CharacterRange(Plain('a'), Plain('c'))])['a' as int] == negated
    ensures XorTable(negated, [CharInGroup(Plain('a')), CharacterRange(Plain('a'), Plain('c'))])['b' as int] == !negated
  {
    var w := [ClassInGroup(AnyWord), ClassInGroup(AnyDecimalDigit)];
    assert w[..1][..0] == [] && w[..1] == [ClassInGroup(AnyWord)];
    assert CoverCount(w, '5') == 2 && CoverCount(w, 'x') == 1;
    var a := [CharInGroup(Plain('a')), CharacterRange(Plain('a'), Plain('c'))];
    assert a[..1][..0] == [] && a[..1] == [CharInGroup(Plain('a'))];
    assert CoverCount(a, 'a') == 2 && CoverCount(a, 'b') == 1;
  }

  /** `XorAgreesWithFinal` holds in one direction only: three copies of `a`
      overlap, yet the odd number of flips leaves `a` as exp3 sets it; `\n`
      alone overlaps nothing, yet exp2 flips the letter `n` where exp3 sets
      the newline. */
  lemma XorAgreementOneWay()
    ensures var aaa := [CharInGroup(Plain('a')), CharInGroup(Plain('a')), CharInGroup(Plain('a'))];
      && !Disjoint(aaa)
      && XorTable(false, aaa)['a' as int] == Regex3.GroupTable(false, aaa)['a' as int]
    ensures var nl := [CharInGroup(Escaped('n'))];
      && Disjoint(nl)
      && XorTable(false, nl)['n' as int] != Regex3.GroupTable(false, nl)['n' as int]
  {
    var aaa := [CharInGroup(Plain('a')), CharInGroup(Plain('a')), CharInGroup(Plain('a'))];
    assert aaa[..1][..0] == [] && aaa[..2][..1] == aaa[..1] && aaa[..|aaa| - 1] == aaa[..2];
    assert CoverCount(aaa[..1], 'a') == 1 && CoverCount(aaa[..2], 'a') == 2 && CoverCount(aaa, 'a') == 3;
    assert Regex3.ItemCovers(aaa[0], 'a');
    var nl := [CharInGroup(Escaped('n'))];
    assert nl[..0] == [];
    forall c: char | (c as int) < 129
      ensures CoverCount(nl, c) <= 1
    {
    }
    assert CoverCount(nl, 'n') == 1;
  }

  /** Character-group members that mean the same in both versions: no
      member is an escaped control character, which the final version
      decodes and this one takes literally. */
  predicate NoControlEscape(items: seq<CharacterGroupItem>)
  {
    forall k :: 0 <= k < |items| && items[k].CharInGroup? && items[k].token.Escaped? ==>
      items[k].token.c !in {'f', 'n', 'r', 't', 'v'}
  }

  /** No slot is covered by two members. */
  predicate Disjoint(items: seq<CharacterGroupItem>)
  {
    forall c: char :: (c as int) < 129 ==> CoverCount(items, c) <= 1
  }

  /** When no two members overlap, flipping is setting: the table is the
      final version's, in which a slot is `!negated` exactly when some member
      covers it. */
  lemma XorAgreesWithFinal(negated: bool, items: seq<CharacterGroupItem>)
    requires Disjoint(items) && NoControlEscape(items)
    ensures XorTable(negated, items) == Regex3.GroupTable(negated, items)
  {
    forall j | 0 <= j < 129
      ensures XorTable(negated, items)[j] == Regex3.GroupTable(negated, items)[j]
    {
      var c := j as char;
      CoverCountPositive(items, c);
      forall k | 0 <= k < |items|
        ensures Covers(items[k], c) == Regex3.ItemCovers(items[k], c)
      {
      }
      assert Odd(CoverCount(items, c)) <==> Regex3.InGroup(items, c);
    }
  }

  // ----- single items -----

  /** The rule `compileSingle` creates for `s`, into `dst`: a character
      keeps its escape letter as written (`\n` becomes `n`), a class its
      letter, `.` is SPECIAL `.`, a group gets the flipped table. */
  function SingleRule(s: Single, dst: int): (r: Rule)
    ensures r.dst == dst && r.kind != Epsilon
    ensures r.kind == RuleType.Group ==> |r.guard.table| == 129
  {
    match s
    case CharSingle(t) => Rule(dst, Normal, Guard([t.c], "", []))
    case ClassSingle(kind) => Rule(dst, Special, Guard([kind.Letter()], "", []))
    case AnyCharacter => Rule(dst, Special, Guard(".", "", []))
    case CharacterGroup(negated, items) => Rule(dst, RuleType.Group, Guard("", "", XorTable(negated, items)))
  }

  /** What `compileSingle` adds to the current state: its rule, or nothing
      for an empty group `[]`. */
  function SingleEdges(s: Single, dst: int): seq<Rule>
  {
    if s.CharacterGroup? && s.items == [] then [] else [SingleRule(s, dst)]
  }

  /** Against the final version's rule: the same, except that this version
      keeps an escaped control character as its letter and flips
      overlapping group members. */
  lemma SingleAgreesWithFinal(s: Single, dst: int)
    requires s.CharSingle? && s.token.Escaped? ==> s.token.c !in {'f', 'n', 'r', 't', 'v'}
    requires s.CharacterGroup? ==> Disjoint(s.items) && NoControlEscape(s.items)
    ensures SingleRule(s, dst) == Regex3.SingleRule(s, dst)
  {
    if s.CharacterGroup? {
      XorAgreesWithFinal(s.negated, s.items);
    }
  }

  // ----- the shapes the compiler lays -----

  /** The epsilon edges of the branch loop into the entry states `es`, each
      appended, so in source order. */
  function Backs(es: seq<int>): (rs: seq<Rule>)
    ensures |rs| == |es| && forall i :: 0 <= i < |es| ==> rs[i] == Eps(es[i])
  {
    if es == [] then [] else Backs(es[..|es| - 1]) + [Eps(es[|es| - 1])]
  }

  lemma UpdateAppend<T>(s: seq<T>, q: int, v: T, t: T)
    requires 0 <= q < |s|
    ensures (s + [t])[q := v] == s[q := v] + [t]
  {
  }

  lemma BacksAppend(es: seq<int>, e: int)
    ensures Backs(es + [e]) == Backs(es) + [Eps(e)]
  {
    assert (es + [e])[..|es|] == es;
  }

  /** States only get added, and the states before the current (last) one
      keep their rules. */
  ghost predicate Grown(r0: seq<seq<Rule>>, r1: seq<seq<Rule>>)
  {
    |r0| <= |r1| && forall q :: 0 <= q < |r0| - 1 ==> r1[q] == r0[q]
  }

  lemma GrownTrans(a: seq<seq<Rule>>, b: seq<seq<Rule>>, c: seq<seq<Rule>>)
    requires Grown(a, b) && Grown(b, c) && |a| >= 1
    ensures Grown(a, c)
  {
  }

  /** The shape `compileRegex` leaves from `cur`: one epsilon edge per branch
      into its entry state, in source order; the branches one after another
      between `cur` and the join state (the last state); each branch end with
      an epsilon edge into the join as its last rule, and no other rule
      entering the join. */
  ghost predicate Alternation(rules: seq<seq<Rule>>, cur: int, entries: seq<int>, exits: seq<int>)
  {
    var join := |rules| - 1;
    && 0 <= cur < join
    && |entries| == |exits|
    && rules[cur] == Backs(entries)
    && (forall i :: 0 <= i < |entries| ==> Regex3.Inside(entries, exits, cur, join, i))
    && (forall i :: 0 < i < |entries| ==> Regex3.After(exits, entries, i))
    && (forall i :: 0 <= i < |exits| ==> Regex3.ExitJoins(rules, exits, i))
    && (forall q, k :: 0 <= q < join && 0 <= k < |rules[q]| ==> Regex3.IntoJoin(rules, exits, q, k))
  }

  /** Priority: the source's stack-based search pops the rule listed last
      first (regex.cpp:95 of this version), and the edge listed last from
      the alternation's state is the LAST branch's, whose entry is above
      every other branch's. */
  lemma LastBranchFirst(rules: seq<seq<Rule>>, cur: int, entries: seq<int>, exits: seq<int>)
    requires Alternation(rules, cur, entries, exits) && |entries| > 0
    ensures |rules[cur]| == |entries|
    ensures rules[cur][|rules[cur]| - 1] == Eps(entries[|entries| - 1])
    ensures forall i :: 0 <= i < |entries| - 1 ==> entries[i] < entries[|entries| - 1]
  {
    forall k | 0 <= k < |entries|
      ensures entries[k] <= exits[k]
    {
      assert Regex3.Inside(entries, exits, cur, |rules| - 1, k);
    }
    forall i | 0 <= i < |entries| - 1
      ensures entries[i] < entries[|entries| - 1]
    {
      OrderedEntries(entries, exits, i, |entries| - 1);
    }
  }

  lemma {:induction false} OrderedEntries(entries: seq<int>, exits: seq<int>, i: int, j: int)
    requires |entries| == |exits|
    requires forall k :: 0 <= k < |entries| ==> entries[k] <= exits[k]
    requires forall k :: 0 < k < |entries| ==> Regex3.After(exits, entries, k)
    requires 0 <= i < j < |entries|
    ensures exits[i] < entries[j]
    decreases j - i
  {
    assert Regex3.After(exits, entries, j);
    if i + 1 < j {
      OrderedEntries(entries, exits, i, j - 1);
    }
  }

  /** What the branch loop has laid from `cur` (all rules `r00` before the
      loop, `cur` the last of them and still without rules) up to the rules
      `r`. */
  ghost predicate BranchesLaid(r00: seq<seq<Rule>>, r: seq<seq<Rule>>, cur: int, entries: seq<int>, stateList: seq<int>)
  {
    && Grown(r00, r) && cur == |r00| - 1 && 0 <= cur < |r|
    && |entries| == |stateList|
    && r[cur] == Backs(entries)
    && (forall j :: 0 <= j < |entries| ==> cur < entries[j] <= stateList[j] < |r|)
    && (forall j :: 0 < j < |entries| ==> Regex3.After(stateList, entries, j))
    && (|entries| > 0 ==> stateList[|entries| - 1] == |r| - 1)
  }

  /** One more branch, with entry state `entry` and end state `e`, keeps
      `BranchesLaid`. */
  lemma BranchStep(r00: seq<seq<Rule>>, rb: seq<seq<Rule>>, ra: seq<seq<Rule>>, cur: int,
                   entries: seq<int>, stateList: seq<int>, entry: int, e: int)
    requires BranchesLaid(r00, rb, cur, entries, stateList)
    requires entry == |rb| <= e == |ra| - 1
    requires ra[cur] == rb[cur] + [Eps(entry)]
    requires forall q :: 0 <= q < |rb| && q != cur ==> ra[q] == rb[q]
    ensures BranchesLaid(r00, ra, cur, entries + [entry], stateList + [e])
  {
    var (es, ss) := (entries + [entry], stateList + [e]);
    BacksAppend(entries, entry);
    assert Grown(r00, ra) by {
      forall q | 0 <= q < |r00| - 1
        ensures ra[q] == r00[q]
      {
        assert ra[q] == rb[q];
      }
    }
    forall j | 0 <= j < |es|
      ensures cur < es[j] <= ss[j] < |ra|
    {
      if j < |entries| {
        assert es[j] == entries[j] && ss[j] == stateList[j];
      }
    }
    forall j | 0 < j < |es|
      ensures Regex3.After(ss, es, j)
    {
      if j < |entries| {
        assert Regex3.After(stateList, entries, j);
      }
    }
  }

  lemma BranchesRising(r00: seq<seq<Rule>>, r: seq<seq<Rule>>, cur: int, entries: seq<int>, stateList: seq<int>)
    requires BranchesLaid(r00, r, cur, entries, stateList)
    ensures Regex3.Rising(stateList)
  {
    forall k | 0 < k < |stateList|
      ensures Regex3.Above(stateList, k)
    {
      assert Regex3.After(stateList, entries, k);
    }
  }

  /** The join loop turns the branch loop's result into `Alternation`. */
  lemma JoinShape(r00: seq<seq<Rule>>, mid: seq<seq<Rule>>, r1: seq<seq<Rule>>, cur: int, entries: seq<int>, exits: seq<int>)
    requires BranchesLaid(r00, mid, cur, entries, exits) && Regex3.RulesOk(mid, |mid|)
    requires |r1| == |mid| + 1 && r1[|mid|] == []
    requires forall q :: 0 <= q < |mid| ==> Regex3.JoinedAt(mid, r1, exits, q)
    ensures Alternation(r1, cur, entries, exits) && Grown(r00, r1)
  {
    assert r1[cur] == mid[cur] by {
      assert Regex3.JoinedAt(mid, r1, exits, cur);
      assert cur !in exits;
    }
    forall q | 0 <= q < |r00| - 1
      ensures r1[q] == r00[q]
    {
      assert Regex3.JoinedAt(mid, r1, exits, q);
      assert q !in exits;
    }
    var join := |r1| - 1;
    assert forall i :: 0 <= i < |entries| ==> Regex3.Inside(entries, exits, cur, join, i);
    Regex3.JoinExits(mid, r1, exits);
    Regex3.JoinEnters(mid, r1, exits);
  }

  /** `?` and `*` can skip the body, `*` and every other quantifier (`+`, and
      a `{m,n}` this version has no case for) repeat it. */
  predicate Skips(t: QuantifierType) { t.ZeroOrOne? || t.ZeroOrMore? }

  predicate Loops(t: QuantifierType) { !t.ZeroOrOne? }

  predicate Greedy(ei: ExpressionItem)
  {
    ei.Item? && ei.quantifier.Some? && !ei.quantifier.value.lazy
  }

  /** The rules of a quantified item's exit state before the connector: the
      repeat edge back to the item's start `s`. */
  function LoopRules(ei: ExpressionItem, s: int): seq<Rule>
  {
    if ei.Item? && ei.quantifier.Some? then Regex3.Edge(Loops(ei.quantifier.value.qtype), s) else []
  }

  /** An item's exit state once the connector into the next item's start `y`
      is added: in front of the repeat edge after a greedy item, behind it
      otherwise. */
  function ExitRules(ei: ExpressionItem, s: int, y: int): seq<Rule>
  {
    if Greedy(ei) then [Eps(y)] + LoopRules(ei, s) else LoopRules(ei, s) + [Eps(y)]
  }

  /** Priority on entry to a quantified item, as `compileExpressionItem`
      lays it from `cur`, under the last-listed-first search: a greedy item
      enters its body `b` before skipping to its exit `last`, a lazy one
      skips before entering; the edge listed first is tried last. */
  lemma QuantifierPriority(ei: ExpressionItem, rules: seq<seq<Rule>>, cur: int, last: int, b: int, be: int, entries: seq<int>)
    requires ei.Item? && ei.quantifier.Some?
    requires ItemLaid(ei, rules, cur, last, b, be, entries)
    ensures var t, r := ei.quantifier.value.qtype, rules[cur];
      && |r| == (if Skips(t) then 2 else 1)
      && r[|r| - 1] == (if Greedy(ei) || !Skips(t) then Eps(b) else Eps(last))
      && (Skips(t) ==> r[0] == (if Greedy(ei) then Eps(last) else Eps(b)))
  {
  }

  /** Priority on leaving a quantified item `i` of a compiled expression,
      at its end state: a greedy item repeats (back to its start) before it
      goes on to the next item, a lazy one goes on before it repeats. */
  lemma RepeatPriority(items: seq<ExpressionItem>, rules: seq<seq<Rule>>, starts: seq<int>, ends: seq<int>, i: int)
    requires Chained(items, rules, starts, ends) && 0 <= i < |items|
    requires items[i].Item? && items[i].quantifier.Some?
    ensures var t, r := items[i].quantifier.value.qtype, rules[ends[i]];
      && |r| == (if Loops(t) then 2 else 1)
      && r[|r| - 1] == (if Greedy(items[i]) && Loops(t) then Eps(starts[i]) else Eps(starts[i + 1]))
      && (Loops(t) ==> r[0] == (if Greedy(items[i]) then Eps(starts[i + 1]) else Eps(starts[i])))
  {
  }

  /** What the rules of the state a normal item starts from become: the
      single's rule into `dst`, or the alternation's branch edges. */
  function NormalEdges(ni: NormalItem, dst: int, entries: seq<int>): seq<Rule>
  {
    if ni.SingleItem? then SingleEdges(ni.single, dst) else Backs(entries)
  }

  ghost predicate NormalLaid(ni: NormalItem, rules: seq<seq<Rule>>, b: int, entries: seq<int>)
  {
    && 0 <= b < |rules|
    && rules[b] == NormalEdges(ni, b + 1, entries)
    && (ni.Group? ==> |entries| == |ni.regex.expressions| && forall i :: 0 <= i < |entries| ==> b < entries[i] < |rules|)
  }

  /** What `compileExpressionItem` lays from `cur`, when the state after the
      last one was `n0 == cur + 1` and it ends with `last`: the body at `b`
      and, for a quantified item, the edge from the body's end `be` into
      the item's exit.  A greedy item's exit is the reserved state `n0`, its
      body starts at `n0 + 1`; a lazy item's body starts at `n0` and its exit
      is the state after the body's end. */
  ghost predicate ItemLaid(ei: ExpressionItem, rules: seq<seq<Rule>>, cur: int, last: int, b: int, be: int, entries: seq<int>)
    requires ei.Item?
  {
    var n0 := cur + 1;
    && 0 <= cur < |rules| && 0 <= last < |rules|
    && NormalLaid(ei.normal, rules, b, entries)
    && if ei.quantifier.None? then b == cur
       else
         var t := ei.quantifier.value.qtype;
         && b < be < |rules|
         && if !ei.quantifier.value.lazy then
              && last == n0 && b == n0 + 1
              && rules[cur] == Regex3.Edge(Skips(t), n0) + [Eps(b)]
              && rules[be] == [Eps(n0)]
            else
              && b == n0 && be == last - 1
              && rules[cur] == [Eps(b)] + Regex3.Edge(Skips(t), last)
              && rules[be] == [Eps(last)]
  }

  /** What `compileExpression` lays: item `i` starts at `starts[i]` and
      ends at `ends[i]`, whose rules carry the connector into `starts[i + 1]`. */
  ghost predicate Chained(items: seq<ExpressionItem>, rules: seq<seq<Rule>>, starts: seq<int>, ends: seq<int>)
  {
    && |starts| == |items| + 1 && |ends| == |items|
    && forall i :: 0 <= i < |items| ==>
         && 0 <= starts[i] < ends[i] < starts[i + 1] && ends[i] < |rules|
         && rules[ends[i]] == ExitRules(items[i], starts[i], starts[i + 1])
  }

  lemma ChainStep(items: seq<ExpressionItem>, i: nat, r0: seq<seq<Rule>>, r1: seq<seq<Rule>>, starts: seq<int>, ends: seq<int>, x: int, y: int)
    requires i < |items| && Chained(items[..i], r0, starts, ends)
    requires |starts| >= 1 && 0 <= starts[i] == |r0| - 1 && Grown(r0, r1)
    requires starts[i] < x < y < |r1| && r1[x] == ExitRules(items[i], starts[i], y)
    ensures Chained(items[..i + 1], r1, starts + [y], ends + [x])
  {
    var (s, e) := (starts + [y], ends + [x]);
    forall j | 0 <= j < i + 1
      ensures 0 <= s[j] < e[j] < s[j + 1] && e[j] < |r1|
      ensures r1[e[j]] == ExitRules(items[..i + 1][j], s[j], s[j + 1])
    {
      if j < i {
        assert items[..i + 1][j] == items[..i][j];
        assert ends[j] < starts[j + 1] <= starts[i] by {
          if j + 1 < i {
            ChainedRising(items[..i], r0, starts, ends, j + 1, i);
          }
        }
      }
    }
  }

  lemma {:induction false} ChainedRising(items: seq<ExpressionItem>, rules: seq<seq<Rule>>, starts: seq<int>, ends: seq<int>, j: int, k: int)
    requires Chained(items, rules, starts, ends) && 0 <= j <= k <= |items|
    ensures starts[j] <= starts[k]
    decreases k - j
  {
    if j < k {
      ChainedRising(items, rules, starts, ends, j + 1, k);
    }
  }

  /** The second version's `NFA`, as far as the compiler fills it. */
  class Nfa {
    var rules: seq<seq<Rule>>
    var numStates: int
    var isFinal: seq<bool>
    var last: int

    constructor ()
      ensures rules == [] && numStates == 0 && isFinal == [] && last == 0
    {
      rules := [];
      numStates := 0;
      isFinal := [];
      last := 0;
    }
  }

  class Regex {
    const nfa: Nfa

    constructor ()
      ensures fresh(nfa) && nfa.rules == [] && nfa.numStates == 0 && nfa.isFinal == [] && nfa.last == 0
    {
      nfa := new Nfa();
    }

    /** What every compile step keeps: one rule list per state, destinations
        naming states, 129-slot group tables, and `last` naming a state. */
    ghost predicate Building()
      reads nfa`rules, nfa`numStates, nfa`last
    {
      && 1 <= nfa.numStates == |nfa.rules|
      && Regex3.RulesOk(nfa.rules, nfa.numStates)
      && 0 <= nfa.last < nfa.numStates
    }

    /** Where every `compile*` call starts and (but for a greedy item) ends:
        `last` is the newest state, still without rules. */
    ghost predicate Fresh()
      reads nfa`rules, nfa`numStates, nfa`last
    {
      Building() && nfa.last == nfa.numStates - 1 && nfa.rules[nfa.last] == []
    }

    /** `last = num_states++`: a new state without rules becomes current. */
    method NewState()
      requires Building()
      modifies nfa`rules, nfa`numStates, nfa`last
      ensures Fresh() && nfa.numStates == old(nfa.numStates) + 1
      ensures nfa.rules == old(nfa.rules) + [[]] && nfa.last == old(nfa.numStates)
    {
      Regex3.RulesOkPut(nfa.rules, nfa.numStates, nfa.numStates + 1, 0, [], []);
      assert [] + nfa.rules[0] + [] == nfa.rules[0];
      assert nfa.rules[0 := [] + nfa.rules[0] + []] == nfa.rules;
      nfa.rules := nfa.rules + [[]];
      nfa.last := nfa.numStates;
      nfa.numStates := nfa.numStates + 1;
    }

    /** Appends `r` to the rules of state `q`. */
    method Push(q: int, r: Rule)
      requires Building() && 0 <= q < nfa.numStates && Regex3.RuleOk(r, nfa.numStates)
      modifies nfa`rules
      ensures Building() && nfa.rules == old(nfa.rules)[q := old(nfa.rules)[q] + [r]]
    {
      Regex3.RulesOkPut(nfa.rules, nfa.numStates, nfa.numStates, q, [], [r]);
      assert [] + nfa.rules[q] + [r] == nfa.rules[q] + [r];
      nfa.rules := nfa.rules[q := nfa.rules[q] + [r]];
    }

    /** Inserts `r` in front of the rules of state `q`. */
    method PushFront(q: int, r: Rule)
      requires Building() && 0 <= q < nfa.numStates && Regex3.RuleOk(r, nfa.numStates)
      modifies nfa`rules
      ensures Building() && nfa.rules == old(nfa.rules)[q := [r] + old(nfa.rules)[q]]
    {
      Regex3.RulesOkPut(nfa.rules, nfa.numStates, nfa.numStates, q, [r], []);
      assert [r] + nfa.rules[q] + [] == [r] + nfa.rules[q];
      nfa.rules := nfa.rules[q := [r] + nfa.rules[q]];
    }

    /** `compileSingle`: the single's rule from the current state into a new
        state, which becomes current; an empty group `[]` only allocates the
        new state, so nothing leads into it. */
    method CompileSingle(s: Single)
      requires Fresh() && SingleInTable(s)
      modifies nfa`rules, nfa`numStates, nfa`last
      ensures Fresh() && nfa.numStates == old(nfa.numStates) + 1
      ensures nfa.rules == old(nfa.rules)[old(nfa.last) := SingleEdges(s, old(nfa.numStates))] + [[]]
    {
      var cur := nfa.last;
      var r: Rule;
      match s {
        case CharSingle(t) =>
          r := Rule(nfa.numStates, Normal, Guard([t.c], "", []));
        case ClassSingle(kind) =>
          r := Rule(nfa.numStates, Special, Guard([kind.Letter()], "", []));
        case AnyCharacter =>
          r := Rule(nfa.numStates, Special, Guard(".", "", []));
        case CharacterGroup(negated, items) =>
          if items == [] {
            NewState();
            assert old(nfa.rules)[cur := []] == old(nfa.rules);
            return;
          }
          var table := BuildXorTable(negated, items);
          r := Rule(nfa.numStates, RuleType.Group, Guard("", "", table));
      }
      NewState();
      Push(cur, r);
      assert nfa.rules == old(nfa.rules)[cur := [r]] + [[]] by {
        assert old(nfa.rules)[cur] == [] && [] + [r] == [r];
        UpdateAppend(old(nfa.rules), cur, [r], []);
      }
    }

    /** `compileRegex`: from the current state `cur`, one appended epsilon
        edge per branch into that branch's new entry state (so the first
        branch is listed first), and an epsilon edge from each branch's end
        into a new join state, which becomes current and which nothing else
        enters. */
    method CompileRegex(r: RegexTree.Regex) returns (ghost entries: seq<int>, ghost exits: seq<int>)
      requires Fresh() && RegexInTable(r) && RegexAnchorFree(r)
      modifies nfa`rules, nfa`numStates, nfa`last
      decreases r, 2
      ensures Fresh() && Grown(old(nfa.rules), nfa.rules)
      ensures |entries| == |r.expressions|
      ensures Alternation(nfa.rules, old(nfa.last), entries, exits)
    {
      var cur := nfa.last;
      var stateList;
      entries, stateList := Branches(r);
      BranchesRising(old(nfa.rules), nfa.rules, cur, entries, stateList);
      ghost var mid := nfa.rules;
      Join(stateList);
      exits := stateList;
      JoinShape(old(nfa.rules), mid, nfa.rules, cur, entries, exits);
    }

    /** The branch loop of `compileRegex`, which collects the branch ends in
        `stateList`. */
    method Branches(r: RegexTree.Regex) returns (ghost entries: seq<int>, stateList: seq<int>)
      requires Fresh() && RegexInTable(r) && RegexAnchorFree(r)
      modifies nfa`rules, nfa`numStates, nfa`last
      decreases r, 1
      ensures Fresh() && |entries| == |r.expressions|
      ensures BranchesLaid(old(nfa.rules), nfa.rules, old(nfa.last), entries, stateList)
    {
      var cur := nfa.last;
      ghost var r00 := nfa.rules;
      stateList := [];
      entries := [];
      for i := 0 to |r.expressions|
        invariant Fresh() && |entries| == i
        invariant BranchesLaid(r00, nfa.rules, cur, entries, stateList)
      {
        ghost var entry := AddBranch(cur, r.expressions[i], r00, entries, stateList);
        entries := entries + [entry];
        stateList := stateList + [nfa.last];
      }
    }

    /** One turn of the branch loop of `compileRegex`: a new entry state,
        the edge into it from `cur`, and the branch from it. */
    method AddBranch(cur: int, e: Expression, ghost r00: seq<seq<Rule>>, ghost entries: seq<int>, ghost stateList: seq<int>)
      returns (ghost entry: int)
      requires Fresh() && ExpressionInTable(e) && ExpressionAnchorFree(e)
      requires BranchesLaid(r00, nfa.rules, cur, entries, stateList)
      modifies nfa`rules, nfa`numStates, nfa`last
      decreases e, 3
      ensures Fresh() && BranchesLaid(r00, nfa.rules, cur, entries + [entry], stateList + [nfa.last])
    {
      ghost var rb := nfa.rules;
      NewState();
      Push(cur, Eps(nfa.last));
      entry := nfa.last;
      ghost var r1 := nfa.rules;
      ghost var starts, ends := CompileExpression(e);
      assert forall q :: 0 <= q < |r1| - 1 ==> nfa.rules[q] == r1[q];
      BranchStep(r00, rb, nfa.rules, cur, entries, stateList, entry, nfa.last);
    }

    /** The join loop of `compileRegex`: an epsilon rule from each branch end
        into one new state, which becomes current. */
    method Join(exits: seq<int>)
      requires Building()
      requires forall i :: 0 <= i < |exits| ==> 0 <= exits[i] < nfa.numStates
      requires Regex3.Rising(exits)
      modifies nfa`rules, nfa`numStates, nfa`last
      ensures Fresh() && nfa.numStates == old(nfa.numStates) + 1
      ensures forall q :: 0 <= q < old(nfa.numStates) ==> Regex3.JoinedAt(old(nfa.rules), nfa.rules, exits, q)
    {
      ghost var mid := nfa.rules;
      NewState();
      var join := nfa.last;
      for i := 0 to |exits|
        invariant Building() && nfa.last == join && |nfa.rules| == join + 1 && nfa.rules[join] == []
        invariant forall q :: 0 <= q < join ==>
          nfa.rules[q] == if q in exits[..i] then mid[q] + [Eps(join)] else mid[q]
      {
        forall j | 0 <= j < i
          ensures exits[j] < exits[i]
        {
          Regex3.RisingOrdered(exits, j, i);
        }
        assert exits[i] !in exits[..i];
        Push(exits[i], Eps(join));
        assert forall q :: q in exits[..i + 1] <==> q in exits[..i] || q == exits[i];
      }
      assert exits[..|exits|] == exits;
    }

    /** `compileExpression`: the items in order, each from the state the
        previous connector created, each followed by the connector: an
        epsilon edge from the item's end into a new state, inserted at the
        front when the item's end is not the newest state (after a greedy
        item) and appended otherwise. */
    method CompileExpression(e: Expression) returns (ghost starts: seq<int>, ghost ends: seq<int>)
      requires Fresh() && ExpressionInTable(e) && ExpressionAnchorFree(e)
      modifies nfa`rules, nfa`numStates, nfa`last
      decreases e, 2
      ensures Fresh() && Grown(old(nfa.rules), nfa.rules)
      ensures Chained(e.items, nfa.rules, starts, ends)
      ensures starts[0] == old(nfa.last) && starts[|e.items|] == nfa.last
      ensures e.items == [] ==> nfa.rules == old(nfa.rules) && nfa.last == old(nfa.last)
    {
      ghost var (r00, l0) := (nfa.rules, nfa.last);
      starts, ends := [nfa.last], [];
      for i := 0 to |e.items|
        invariant Fresh() && Grown(r00, nfa.rules)
        invariant Chained(e.items[..i], nfa.rules, starts, ends)
        invariant starts[0] == l0 && starts[i] == nfa.last
        invariant i == 0 ==> nfa.rules == r00 && nfa.last == l0
      {
        ghost var rb := nfa.rules;
        ghost var b, be, ents := CompileExpressionItem(e.items[i]);
        ghost var x := nfa.last;
        ghost var ri := nfa.rules;
        Connect();
        assert nfa.rules[x] == ExitRules(e.items[i], starts[i], nfa.last);
        assert Grown(rb, nfa.rules) by {
          forall q | 0 <= q < |rb| - 1
            ensures nfa.rules[q] == rb[q]
          {
            assert ri[q] == rb[q];
          }
        }
        ChainStep(e.items, i, rb, nfa.rules, starts, ends, x, nfa.last);
        GrownTrans(r00, rb, nfa.rules);
        starts, ends := starts + [nfa.last], ends + [x];
      }
      assert e.items[..|e.items|] == e.items;
    }

    /** The connector after an item. */
    method Connect()
      requires Building()
      modifies nfa`rules, nfa`numStates, nfa`last
      ensures Fresh() && nfa.numStates == old(nfa.numStates) + 1 && nfa.last == old(nfa.numStates)
      ensures var x := old(nfa.last);
        nfa.rules == old(nfa.rules)[x := if x != old(nfa.numStates) - 1 then [Eps(nfa.last)] + old(nfa.rules)[x]
                                         else old(nfa.rules)[x] + [Eps(nfa.last)]] + [[]]
    {
      var x := nfa.last;
      var front := x != nfa.numStates - 1;
      NewState();
      if front {
        PushFront(x, Eps(nfa.last));
      } else {
        Push(x, Eps(nfa.last));
      }
    }

    /** `compileExpressionItem`: a normal item without a quantifier is its
        single's rule or its group's alternation.  A greedy quantifier
        reserves its exit `end` and the body's start `end + 1`, puts the skip
        edge (for `?` and `*`) before the edge into the body on the current
        state and the repeat edge (for `*` and `+`) on `end`; a lazy one
        enters the body first, then adds its exit after the body's end, and
        puts the skip edge after the body edge and the repeat edge on the
        exit.  The current state afterwards is the item's exit; it is not the
        newest state exactly after a greedy item. */
    method CompileExpressionItem(ei: ExpressionItem) returns (ghost b: int, ghost be: int, ghost entries: seq<int>)
      requires Fresh() && ItemInTable(ei) && ItemAnchorFree(ei)
      modifies nfa`rules, nfa`numStates, nfa`last
      decreases ei, 2
      ensures Building() && Grown(old(nfa.rules), nfa.rules)
      ensures old(nfa.numStates) <= nfa.last < nfa.numStates
      ensures nfa.last != nfa.numStates - 1 <==> Greedy(ei)
      ensures nfa.rules[nfa.last] == LoopRules(ei, old(nfa.last))
      ensures ItemLaid(ei, nfa.rules, old(nfa.last), nfa.last, b, be, entries)
    {
      if ei.quantifier.None? {
        b := nfa.last;
        entries := CompileNormal(ei.normal);
        be := nfa.last;
      } else if !ei.quantifier.value.lazy {
        b, be, entries := CompileGreedy(ei);
      } else {
        b, be, entries := CompileLazy(ei);
      }
    }

    /** The greedy case of `compileExpressionItem`.  The source adds the skip
        and repeat edges before it counts the two reserved states; here the
        states come first, which leaves the same rules. */
    method CompileGreedy(ei: ExpressionItem) returns (ghost b: int, ghost be: int, ghost entries: seq<int>)
      requires Fresh() && ItemInTable(ei) && ItemAnchorFree(ei) && Greedy(ei)
      modifies nfa`rules, nfa`numStates, nfa`last
      decreases ei, 1
      ensures Building() && Grown(old(nfa.rules), nfa.rules)
      ensures old(nfa.numStates) == nfa.last < nfa.numStates - 1
      ensures nfa.rules[nfa.last] == LoopRules(ei, old(nfa.last))
      ensures ItemLaid(ei, nfa.rules, old(nfa.last), nfa.last, b, be, entries)
    {
      var cur := nfa.last;
      var t := ei.quantifier.value.qtype;
      var end := Reserve(t);
      ghost var r1 := nfa.rules;
      b := nfa.last;
      entries := CompileNormal(ei.normal);
      be := nfa.last;
      ghost var r2 := nfa.rules;
      assert r2[cur] == r1[cur] && r2[end] == r1[end];
      Push(cur, Eps(end + 1));
      Push(nfa.last, Eps(end));
      nfa.last := end;
      assert nfa.rules[b] == r2[b] && nfa.rules[end] == r1[end];
      assert nfa.rules[be] == [Eps(end)];
      assert nfa.rules[cur] == Regex3.Edge(Skips(t), end) + [Eps(b)];
    }

    /** The greedy quantifier's two reserved states, the exit `end` and the
        body's start after it, with the skip edge on the current state and
        the repeat edge on the exit. */
    method Reserve(t: QuantifierType) returns (end: int)
      requires Fresh()
      modifies nfa`rules, nfa`numStates, nfa`last
      ensures Fresh() && end == old(nfa.numStates) && nfa.numStates == end + 2 && nfa.last == end + 1
      ensures nfa.rules == old(nfa.rules)[old(nfa.last) := Regex3.Edge(Skips(t), end)] + [Regex3.Edge(Loops(t), old(nfa.last)), []]
    {
      var cur := nfa.last;
      end := nfa.numStates;
      NewState();
      NewState();
      if Skips(t) {
        Push(cur, Eps(end));
      }
      if Loops(t) {
        Push(end, Eps(cur));
      }
      ghost var want := old(nfa.rules)[cur := Regex3.Edge(Skips(t), end)] + [Regex3.Edge(Loops(t), cur), []];
      assert old(nfa.rules)[cur] == [] && [] + [Eps(end)] == [Eps(end)] && [] + [Eps(cur)] == [Eps(cur)];
      assert nfa.rules[cur] == want[cur] && nfa.rules[end] == want[end];
      assert forall q :: 0 <= q < |want| ==> nfa.rules[q] == want[q];
    }

    /** The lazy case of `compileExpressionItem`: the body first, then the
        exit after it, then the skip and repeat edges. */
    method CompileLazy(ei: ExpressionItem) returns (ghost b: int, ghost be: int, ghost entries: seq<int>)
      requires Fresh() && ItemInTable(ei) && ItemAnchorFree(ei)
      requires ei.Item? && ei.quantifier.Some? && ei.quantifier.value.lazy
      modifies nfa`rules, nfa`numStates, nfa`last
      decreases ei, 1
      ensures Building() && Grown(old(nfa.rules), nfa.rules)
      ensures old(nfa.numStates) <= nfa.last == nfa.numStates - 1
      ensures nfa.rules[nfa.last] == LoopRules(ei, old(nfa.last))
      ensures ItemLaid(ei, nfa.rules, old(nfa.last), nfa.last, b, be, entries)
    {
      var cur := nfa.last;
      var t := ei.quantifier.value.qtype;
      NewState();
      Push(cur, Eps(nfa.last));
      b := nfa.last;
      ghost var r1 := nfa.rules;
      entries := CompileNormal(ei.normal);
      be := nfa.last;
      ghost var r2 := nfa.rules;
      assert r2[cur] == r1[cur] == [Eps(b)];
      LazyExit(cur, t);
      assert nfa.rules[b] == r2[b];
    }

    /** After a lazy item's body: the exit state, the edge into it from the
        body's end, the skip edge from the item's start `cur` and the repeat
        edge from the exit. */
    method LazyExit(cur: int, t: QuantifierType)
      requires Fresh() && 0 <= cur < nfa.last
      modifies nfa`rules, nfa`numStates, nfa`last
      ensures Building() && nfa.last == nfa.numStates - 1 && nfa.numStates == old(nfa.numStates) + 1 && nfa.last == old(nfa.numStates)
      ensures nfa.rules == old(nfa.rules)[cur := old(nfa.rules)[cur] + Regex3.Edge(Skips(t), nfa.last)]
                                         [old(nfa.last) := [Eps(nfa.last)]] + [Regex3.Edge(Loops(t), cur)]
    {
      var bodyEnd := nfa.last;
      NewState();
      Push(bodyEnd, Eps(nfa.last));
      var exit := nfa.last;
      if Skips(t) {
        Push(cur, Eps(exit));
      }
      if Loops(t) {
        Push(exit, Eps(cur));
      }
      ghost var want := old(nfa.rules)[cur := old(nfa.rules)[cur] + Regex3.Edge(Skips(t), exit)][bodyEnd := [Eps(exit)]] + [Regex3.Edge(Loops(t), cur)];
      assert old(nfa.rules)[bodyEnd] == [] && [] + [Eps(exit)] == [Eps(exit)] && [] + [Eps(cur)] == [Eps(cur)];
      assert old(nfa.rules)[cur] + [] == old(nfa.rules)[cur];
      assert nfa.rules[cur] == want[cur] && nfa.rules[exit] == want[exit] && nfa.rules[bodyEnd] == want[bodyEnd];
      assert forall q :: 0 <= q < |want| ==> nfa.rules[q] == want[q];
    }

    /** The body of an item: `compileSingle`, or `compileRegex` on the
        group's alternation. */
    method CompileNormal(ni: NormalItem) returns (ghost entries: seq<int>)
      requires Fresh() && NormalInTable(ni) && NormalAnchorFree(ni)
      modifies nfa`rules, nfa`numStates, nfa`last
      decreases ni, 1
      ensures Fresh() && Grown(old(nfa.rules), nfa.rules) && old(nfa.last) < nfa.last
      ensures NormalLaid(ni, nfa.rules, old(nfa.last), entries)
    {
      match ni {
        case SingleItem(s) =>
          CompileSingle(s);
          entries := [];
        case Group(_, r) =>
          ghost var exits;
          entries, exits := CompileRegex(r);
          forall i | 0 <= i < |entries|
            ensures old(nfa.last) < entries[i] < |nfa.rules|
          {
            assert Regex3.Inside(entries, exits, old(nfa.last), |nfa.rules| - 1, i);
          }
      }
    }

    /** `compile`: state 0 is the start, the tree's alternation is laid from
        it, and the last state, the join, is the only final state. */
    method Compile(r: RegexTree.Regex) returns (ghost entries: seq<int>, ghost exits: seq<int>)
      requires RegexInTable(r) && RegexAnchorFree(r)
      modifies nfa`rules, nfa`numStates, nfa`last, nfa`isFinal
      ensures nfa.numStates == |nfa.rules| == |nfa.isFinal| && nfa.numStates >= 2
      ensures forall q :: 0 <= q < nfa.numStates ==> (nfa.isFinal[q] <==> q == nfa.numStates - 1)
      ensures DstBelow(nfa.rules, nfa.numStates)
      ensures |entries| == |r.expressions| && Alternation(nfa.rules, 0, entries, exits)
      ensures nfa.rules[nfa.numStates - 1] == []
    {
      nfa.last := 0;
      nfa.numStates := 1;
      nfa.rules := [[]];
      assert Regex3.StateOk(Regex3.StateAt(nfa.rules, 0), 1);
      entries, exits := CompileRegex(r);
      var n := nfa.numStates;
      nfa.isFinal := seq(n, q requires 0 <= q < n => q == n - 1);
      forall q, k | 0 <= q < |nfa.rules| && 0 <= k < |nfa.rules[q]|
        ensures 0 <= nfa.rules[q][k].dst < nfa.numStates
      {
        assert Regex3.StateOk(Regex3.StateAt(nfa.rules, q), nfa.numStates);
      }
    }

    /** `match`: the automaton is run on `text[i..]` for `i = 0, 1, ...`
        below the text's length, and the first run whose path has states
        gives the one-element result, the concatenation of what its steps
        consumed; an empty text, or one no suffix of which matches, gives
        the empty result.  The executor is not part of this model: `exec`
        stands for it. */
    method Match(text: string, exec: (seq<seq<Rule>>, seq<bool>, string) -> Path) returns (result: seq<string>)
      ensures result == [] <==> forall i :: 0 <= i < |text| ==> exec(nfa.rules, nfa.isFinal, text[i..]).states == []
      ensures result != [] ==> exists i :: 0 <= i < |text| && FirstMatch(text, exec, nfa.rules, nfa.isFinal, i, result)
    {
      for i := 0 to |text|
        invariant forall j :: 0 <= j < i ==> exec(nfa.rules, nfa.isFinal, text[j..]).states == []
      {
        var path := exec(nfa.rules, nfa.isFinal, text[i..]);
        if path.states != [] {
          var whole := Joined(path.consumes);
          assert FirstMatch(text, exec, nfa.rules, nfa.isFinal, i, [whole]);
          return [whole];
        }
      }
      return [];
    }
  }

  /** The run on `text[i..]` is the first with states, and `result` holds
      what it consumed. */
  predicate FirstMatch(text: string, exec: (seq<seq<Rule>>, seq<bool>, string) -> Path,
                       rules: seq<seq<Rule>>, isFinal: seq<bool>, i: int, result: seq<string>)
    requires 0 <= i < |text|
  {
    && exec(rules, isFinal, text[i..]).states != []
    && (forall j :: 0 <= j < i ==> exec(rules, isFinal, text[j..]).states == [])
    && result == [Concat(exec(rules, isFinal, text[i..]).consumes)]
  }

  /** The loop that appends a path's consumed pieces. */
  method Joined(parts: seq<string>) returns (s: string)
    ensures s == Concat(parts)
  {
    s := "";
    for k := 0 to |parts|
      invariant s == Concat(parts[..k])
    {
      assert parts[..k + 1][..k] == parts[..k];
      s := s + parts[k];
    }
    assert parts[..|parts|] == parts;
  }
}
