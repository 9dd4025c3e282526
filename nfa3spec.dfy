/** The executor of the final version (nfa.cpp of the third stage) stated as
    functions: the character classes, `Rule::match`, the anchor conditions, and
    the depth-first search of `exec` as a function `Run` over an explicit stack,
    together with what the search guarantees about the path it returns. */
module Nfa3Spec {
  import opened Automaton

  const FormFeed: char := '\U{000C}'
  const VerticalTab: char := '\U{000B}'

  // ----- character classes -----

  predicate IsDigit(a: char) { '0' <= a <= '9' }

  predicate IsSpace(a: char)
  {
    a == ' ' || a == FormFeed || a == '\n' || a == '\r' || a == '\t' || a == VerticalTab
  }

  predicate IsWord(a: char)
  {
    a == '_' || ('a' <= a <= 'z') || ('A' <= a <= 'Z') || ('0' <= a <= '9')
  }

  /** `D`, `S`, `W`: the complements of `d`, `s`, `w`. */
  predicate NotDigit(a: char) { !IsDigit(a) }

  predicate NotSpace(a: char) { !IsSpace(a) }

  predicate NotWord(a: char) { !IsWord(a) }

  /** The space character is blank, and a word character is never blank. */
  lemma ClassFacts(a: char)
    ensures IsSpace(' ')
    ensures IsWord(a) ==> !IsSpace(a)
    ensures IsDigit(a) ==> IsWord(a)
  {
  }

  // ----- Rule::match -----

  /** Whether a consuming rule accepts character `a`; `flagS` is dot-all mode.
      Any kind other than NORMAL, RANGE and SPECIAL reads the group table. */
  function Matches(r: Rule, a: char, flagS: bool): bool
    requires r.kind == Group || r.kind == Epsilon ==> (a as int) < |r.guard.table|
  {
    if r.kind == Normal then a == At0(r.guard.sym)
    else if r.kind == Range then InRange(At0(r.guard.sym), At0(r.guard.hi), a)
    else if r.kind == Special then
      if r.guard.sym == "." then (if !flagS then a != '\n' && a != '\r' else true)
      else if r.guard.sym == "d" then IsDigit(a)
      else if r.guard.sym == "s" then IsSpace(a)
      else if r.guard.sym == "w" then IsWord(a)
      else if r.guard.sym == "D" then NotDigit(a)
      else if r.guard.sym == "S" then NotSpace(a)
      else NotWord(a)
    else r.guard.table[a as int]
  }

  /** RANGE compares signed `char`s.  On ASCII bounds and characters it is
      the interval of codes; a high end from 128 to 255 is negative and so
      below an ASCII low end, leaving the range empty. */
  lemma MatchesRange(dst: int, lo: char, hi: char, a: char, flagS: bool)
    ensures (lo as int) < 128 && (hi as int) < 128 && (a as int) < 128 ==>
      (Matches(Rule(dst, Range, Guard([lo], [hi], [])), a, flagS) <==> lo <= a <= hi)
    ensures (lo as int) < 128 && 128 <= (hi as int) < 256 ==> !Matches(Rule(dst, Range, Guard([lo], [hi], [])), a, flagS)
  {
  }

  /** The SPECIAL rules: `D`, `S`, `W` take exactly the characters `d`, `s`,
      `w` refuse, and so does every class letter besides `.`, `d`, `s`, `w`,
      `D`, `S` (read as `W`); `.` refuses only `\n` and `\r`, and nothing in
      dot-all mode; `s` takes the space. */
  lemma MatchesClasses(dst: int, sym: string, a: char, flagS: bool)
    ensures Matches(ClassRule(dst, "D"), a, flagS) == !Matches(ClassRule(dst, "d"), a, flagS)
    ensures Matches(ClassRule(dst, "S"), a, flagS) == !Matches(ClassRule(dst, "s"), a, flagS)
    ensures Matches(ClassRule(dst, "W"), a, flagS) == !Matches(ClassRule(dst, "w"), a, flagS)
    ensures sym !in {".", "d", "s", "w", "D", "S"} ==>
      Matches(ClassRule(dst, sym), a, flagS) == !Matches(ClassRule(dst, "w"), a, flagS)
    ensures Matches(ClassRule(dst, "."), a, false) <==> a != '\n' && a != '\r'
    ensures Matches(ClassRule(dst, "."), a, true)
    ensures Matches(ClassRule(dst, "s"), ' ', flagS)
  {
  }

  // ----- anchors -----

  /** The `b` condition at offset `index`: exactly one side of the offset is
      a word character, the missing side of either text end counting as a
      non-word character. */
  predicate WordBoundary(index: int, text: string)
    requires 0 <= index <= |text| && |text| > 0
  {
    || (index == 0 && IsWord(text[0]))
    || (index == |text| && IsWord(text[|text| - 1]))
    || (index != 0 && index != |text| && IsWord(text[index]) != IsWord(text[index - 1]))
  }

  /** Whether an epsilon rule tagged `tag` may be taken at offset `index`. */
  function AnchorOk(tag: string, index: int, text: string, flagM: bool): bool
    requires 0 <= index <= |text|
    requires tag == "b" || tag == "B" ==> |text| > 0
  {
    if tag == "^" then (!flagM && index == 0) || (flagM && (index == 0 || text[index - 1] == '\n'))
    else if tag == "$" then (!flagM && index == |text|) || (flagM && (index == |text| || text[index] == '\n'))
    else if tag == "b" then WordBoundary(index, text)
    else if tag == "B" then !WordBoundary(index, text)
    else true
  }

  /** Whether the character at offset `i` is a word character, with offsets
      outside the text reading as non-word. */
  predicate WordAt(text: string, i: int)
  {
    0 <= i < |text| && IsWord(text[i])
  }

  /** What the anchors mean.  Without multiline mode `^` holds only at 0 and
      `$` only at the end; with it, also just after (`^`) or at (`$`) a
      newline.  `b` holds exactly where the characters on the two sides of
      the offset differ in being word characters, and `B` exactly where `b`
      does not.  Any other tag never blocks. */
  lemma AnchorFacts(tag: string, index: int, text: string)
    requires 0 <= index <= |text|
    ensures AnchorOk("^", index, text, false) <==> index == 0
    ensures AnchorOk("$", index, text, false) <==> index == |text|
    ensures AnchorOk("^", index, text, true) <==> index == 0 || text[index - 1] == '\n'
    ensures AnchorOk("$", index, text, true) <==> index == |text| || text[index] == '\n'
    ensures |text| > 0 ==> forall flagM :: AnchorOk("B", index, text, flagM) == !AnchorOk("b", index, text, flagM)
    ensures |text| > 0 ==> (WordBoundary(index, text) <==> WordAt(text, index - 1) != WordAt(text, index))
    ensures tag !in {"^", "$", "b", "B"} ==> forall flagM :: AnchorOk(tag, index, text, flagM)
  {
  }

  // ----- the automaton the search runs on -----

  datatype Machine = Machine(rules: seq<seq<Rule>>, isFinal: seq<bool>, flagM: bool, flagS: bool)

  /** State 0 exists, every destination is a state, and group tables have
      their 129 slots. */
  ghost predicate WellFormed(m: Machine)
  {
    && |m.rules| > 0
    && |m.isFinal| == |m.rules|
    && DstBelow(m.rules, |m.rules|)
    && (forall q, k :: 0 <= q < |m.rules| && 0 <= k < |m.rules[q]| && m.rules[q][k].kind == Group ==>
          |m.rules[q][k].guard.table| == 129)
  }

  /** Every character of `text` indexes a group table: read as a signed
      `char`, only 0 to 127 are non-negative. */
  predicate Ascii(text: string)
  {
    forall i :: 0 <= i < |text| ==> (text[i] as int) < 128
  }

  ghost predicate HasBoundaryAnchor(m: Machine)
  {
    exists q, k :: 0 <= q < |m.rules| && 0 <= k < |m.rules[q]| &&
      m.rules[q][k].kind == Epsilon && (m.rules[q][k].guard.sym == "b" || m.rules[q][k].guard.sym == "B")
  }

  /** What a search over `text` needs: a well-formed automaton, characters that
      index a group table, and a non-empty text whenever a `b`/`B` anchor can
      look at its last character. */
  ghost predicate Fits(m: Machine, text: string)
  {
    WellFormed(m) && Ascii(text) && (|text| == 0 ==> !HasBoundaryAnchor(m))
  }

  /** Every rule into a final state is an epsilon rule. */
  ghost predicate FinalEntryEps(m: Machine)
    requires WellFormed(m)
  {
    forall q, k :: 0 <= q < |m.rules| && 0 <= k < |m.rules[q]| && m.isFinal[m.rules[q][k].dst] ==>
      m.rules[q][k].kind == Epsilon
  }

  // ----- search state -----

  /** The source's `Set` array: for each state the offsets already pushed
      into it (see `Seen`). */
  type Visited = map<int, set<int>>

  /** A stack element: state, text offset, and depth in the search. */
  datatype Frame = Frame(q: int, index: int, step: nat)

  /** A path-buffer element: state and text offset. */
  datatype Trace = Trace(q: int, index: int)

  datatype Search = Search(stack: seq<Frame>, visited: Visited)

  /** What rule `k` of state `f.q` does for popped frame `f`: an epsilon rule
      is skipped when its destination already saw this offset or its anchor
      fails, and otherwise pushed at the same offset; a consuming rule is
      pushed one offset further when a character remains and it matches.
      Every push records its (state, offset) pair. */
  function ApplyRule(m: Machine, text: string, f: Frame, k: nat, s: Search): Search
    requires Fits(m, text)
    requires 0 <= f.q < |m.rules| && k < |m.rules[f.q]| && 0 <= f.index <= |text|
  {
    var r := m.rules[f.q][k];
    if r.kind == Epsilon then
      if f.index in Seen(s.visited, r.dst) then s
      else if r.guard.sym != "" && !AnchorOk(r.guard.sym, f.index, text, m.flagM) then s
      else Search(s.stack + [Frame(r.dst, f.index, f.step + 1)], Insert(s.visited, r.dst, f.index))
    else if f.index < |text| && Matches(r, text[f.index], m.flagS) then
      Search(s.stack + [Frame(r.dst, f.index + 1, f.step + 1)], Insert(s.visited, r.dst, f.index + 1))
    else s
  }

  /** The first `j` rules of state `f.q`, applied in list order. */
  function Expand(m: Machine, text: string, f: Frame, j: nat, s: Search): Search
    requires Fits(m, text)
    requires 0 <= f.q < |m.rules| && j <= |m.rules[f.q]| && 0 <= f.index <= |text|
    decreases j
  {
    if j == 0 then s else ApplyRule(m, text, f, j - 1, Expand(m, text, f, j - 1, s))
  }

  /** Frame `g` names a state and an offset inside the text, at a depth of
      at most `n`. */
  ghost predicate FrameOk(m: Machine, text: string, g: Frame, n: int)
  {
    0 <= g.q < |m.rules| && 0 <= g.index <= |text| && g.step <= n
  }

  /** Every frame on the stack is in range for the path buffer `buf`. */
  ghost predicate StackOk(m: Machine, text: string, stack: seq<Frame>, buf: seq<Trace>)
  {
    forall i :: 0 <= i < |stack| ==> FrameOk(m, text, stack[i], |buf|)
  }

  datatype Outcome = Accepted(buffer: seq<Trace>, step: nat) | Rejected

  // ----- termination measure -----

  ghost function Pow(b: nat, e: nat): (r: nat)
    ensures b > 0 ==> r > 0
  {
    if e == 0 then 1 else b * Pow(b, e - 1)
  }

  ghost function MaxLen(rules: seq<seq<Rule>>): (n: nat)
    ensures forall q :: 0 <= q < |rules| ==> |rules[q]| <= n
  {
    if rules == [] then 0
    else
      var n := MaxLen(rules[..|rules| - 1]);
      assert forall q :: 0 <= q < |rules| - 1 ==> rules[q] == rules[..|rules| - 1][q];
      if |rules[|rules| - 1]| > n then |rules[|rules| - 1]| else n
  }

  /** One more than the longest rule list: no frame has that many children. */
  ghost function Base(m: Machine): nat
  {
    MaxLen(m.rules) + 1
  }

  ghost function Height(text: string, f: Frame): nat
  {
    if 0 <= f.index <= |text| then |text| - f.index else 0
  }

  /** Each frame weighs Base^(characters left); a popped frame's children each
      weigh at most 1/Base of it or were pushed into a new (state, offset) pair. */
  ghost function Weight(m: Machine, text: string, stack: seq<Frame>): nat
  {
    if stack == [] then 0
    else Weight(m, text, stack[..|stack| - 1]) + Pow(Base(m), Height(text, stack[|stack| - 1]))
  }

  ghost function Pairs(m: Machine, text: string, v: Visited): set<(int, int)>
  {
    set q, i | 0 <= q < |m.rules| && 0 <= i <= |text| && i !in Seen(v, q) :: (q, i)
  }

  /** The (state, offset) pairs not yet recorded. */
  ghost function Unvisited(m: Machine, text: string, v: Visited): nat
  {
    |Pairs(m, text, v)|
  }

  lemma UnvisitedInsert(m: Machine, text: string, v: Visited, q: int, i: int)
    ensures Unvisited(m, text, Insert(v, q, i)) <= Unvisited(m, text, v)
    ensures 0 <= q < |m.rules| && 0 <= i <= |text| && i !in Seen(v, q) ==>
      Unvisited(m, text, Insert(v, q, i)) < Unvisited(m, text, v)
  {
    var a := Pairs(m, text, v);
    var b := Pairs(m, text, Insert(v, q, i));
    forall p | p in b
      ensures p in a && p != (q, i)
    {
    }
    forall p | p in a && p != (q, i)
      ensures p in b
    {
    }
    assert b == a - {(q, i)};
  }

  lemma {:induction false} WeightAppend(m: Machine, text: string, s: seq<Frame>, t: seq<Frame>)
    ensures Weight(m, text, s + t) == Weight(m, text, s) + Weight(m, text, t)
    decreases |t|
  {
    if t == [] {
      assert s + t == s;
    } else {
      var n := |t| - 1;
      assert (s + t)[..|s + t| - 1] == s + t[..n];
      WeightAppend(m, text, s, t[..n]);
    }
  }

  // ----- what a step of the search means -----

  /** Rule `k` of state `x.q` leads from `x` to `y`. */
  ghost predicate RuleStep(m: Machine, text: string, x: Trace, k: int, y: Trace)
    requires Fits(m, text)
    requires 0 <= x.q < |m.rules| && 0 <= k < |m.rules[x.q]| && 0 <= x.index <= |text|
  {
    var r := m.rules[x.q][k];
    r.dst == y.q &&
    if r.kind == Epsilon then
      y.index == x.index && (r.guard.sym != "" ==> AnchorOk(r.guard.sym, x.index, text, m.flagM))
    else
      x.index < |text| && y.index == x.index + 1 && Matches(r, text[x.index], m.flagS)
  }

  /** Some rule of `x.q` leads from `x` to `y`. */
  ghost predicate StepOk(m: Machine, text: string, x: Trace, y: Trace)
  {
    && Fits(m, text)
    && 0 <= x.q < |m.rules| && 0 <= x.index <= |text|
    && exists k :: 0 <= k < |m.rules[x.q]| && RuleStep(m, text, x, k, y)
  }

  ghost predicate Chain(m: Machine, text: string, c: seq<Trace>)
  {
    forall i :: 0 <= i < |c| - 1 ==> StepOk(m, text, c[i], c[i + 1])
  }

  /** A run of the automaton from state 0 at offset `p0`. */
  ghost predicate ChainFrom(m: Machine, text: string, p0: int, c: seq<Trace>)
  {
    |c| >= 1 && c[0] == Trace(0, p0) && Chain(m, text, c)
  }

  /** What one rule does: either nothing, or it pushes one frame one step
      deeper, one rule away from `f`; unless that records a new (state, offset)
      pair the rule consumed a character (so, when final states are entered
      only by epsilon rules, the pushed state is not final). */
  lemma ApplyRuleFacts(m: Machine, text: string, f: Frame, k: nat, s: Search)
    requires Fits(m, text)
    requires 0 <= f.q < |m.rules| && k < |m.rules[f.q]| && 0 <= f.index <= |text|
    ensures var e := ApplyRule(m, text, f, k, s);
      e == s || (PushedOne(m, text, f, s, e) && e.stack[|s.stack|].q == m.rules[f.q][k].dst)
  {
    var e := ApplyRule(m, text, f, k, s);
    if e != s {
      var r := m.rules[f.q][k];
      var g := e.stack[|s.stack|];
      assert e.stack == s.stack + [g];
      assert 0 <= r.dst < |m.rules|;
      assert RuleStep(m, text, Trace(f.q, f.index), k, Trace(g.q, g.index));
      UnvisitedInsert(m, text, s.visited, r.dst, g.index);
    }
  }

  /** `e` is `s` with one child of `f` pushed, and unless a new (state,
      offset) pair was recorded that child consumed a character. */
  ghost predicate PushedOne(m: Machine, text: string, f: Frame, s: Search, e: Search)
    requires WellFormed(m)
  {
    && |e.stack| == |s.stack| + 1 && e.stack == s.stack + [e.stack[|s.stack|]]
    && Child(m, text, f, e.stack[|s.stack|])
    && Unvisited(m, text, e.visited) <= Unvisited(m, text, s.visited)
    && (Unvisited(m, text, e.visited) == Unvisited(m, text, s.visited) ==>
          Consuming(m, f, e.stack[|s.stack|]))
  }

  /** A frame pushed for popped frame `f`. */
  ghost predicate Child(m: Machine, text: string, f: Frame, g: Frame)
  {
    && g.step == f.step + 1
    && 0 <= g.q < |m.rules|
    && f.index <= g.index <= |text|
    && StepOk(m, text, Trace(f.q, f.index), Trace(g.q, g.index))
  }

  /** A frame pushed by a consuming rule. */
  ghost predicate Consuming(m: Machine, f: Frame, g: Frame)
    requires WellFormed(m) && 0 <= g.q < |m.rules|
  {
    g.index == f.index + 1 && (FinalEntryEps(m) ==> !m.isFinal[g.q])
  }

  /** What applying the first `j` rules of `f.q` does: it only pushes, at most
      one frame per rule, each a child of `f`, and unless a new (state, offset)
      pair was recorded every push consumed a character. */
  lemma {:induction false} ExpandFacts(m: Machine, text: string, f: Frame, j: nat, s: Search)
    requires Fits(m, text)
    requires 0 <= f.q < |m.rules| && j <= |m.rules[f.q]| && 0 <= f.index <= |text|
    ensures Grows(m, text, f, j, s, Expand(m, text, f, j, s))
    decreases j
  {
    if j > 0 {
      ExpandFacts(m, text, f, j - 1, s);
      GrowsStep(m, text, f, j, s);
    }
  }

  /** What `Expand` promises for `s` to `e` after `j` rules. */
  ghost predicate Grows(m: Machine, text: string, f: Frame, j: nat, s: Search, e: Search)
    requires WellFormed(m)
  {
    Extends(s.stack, e.stack, j) && ChildrenOf(m, text, f, s, e)
  }

  /** `e` is `s` followed by at most `j` more frames. */
  ghost predicate Extends(s: seq<Frame>, e: seq<Frame>, j: nat)
  {
    |s| <= |e| <= |s| + j && e[..|s|] == s
  }

  /** The frames `e` has above `s` are children of `f`, the `Set` only grew,
      and unless it grew they all consumed a character. */
  ghost predicate ChildrenOf(m: Machine, text: string, f: Frame, s: Search, e: Search)
    requires WellFormed(m)
  {
    && (forall i :: |s.stack| <= i < |e.stack| ==> Child(m, text, f, e.stack[i]))
    && Unvisited(m, text, e.visited) <= Unvisited(m, text, s.visited)
    && (Unvisited(m, text, e.visited) == Unvisited(m, text, s.visited) ==>
          forall i :: |s.stack| <= i < |e.stack| ==> Consuming(m, f, e.stack[i]))
  }

  /** Applying rule `j - 1`, which pushes at most one child, keeps `Grows`. */
  lemma GrowsStep(m: Machine, text: string, f: Frame, j: nat, s: Search)
    requires Fits(m, text)
    requires 0 <= f.q < |m.rules| && 0 < j <= |m.rules[f.q]| && 0 <= f.index <= |text|
    requires Grows(m, text, f, j - 1, s, Expand(m, text, f, j - 1, s))
    ensures Grows(m, text, f, j, s, Expand(m, text, f, j, s))
  {
    var s1 := Expand(m, text, f, j - 1, s);
    var e := ApplyRule(m, text, f, j - 1, s1);
    ApplyRuleFacts(m, text, f, j - 1, s1);
    assert Expand(m, text, f, j, s) == e;
    if e != s1 {
      assert e.stack[..|s.stack|] == s1.stack[..|s.stack|];
      forall i | |s.stack| <= i < |e.stack|
        ensures Child(m, text, f, e.stack[i])
      {
        if i < |s1.stack| {
          assert e.stack[i] == s1.stack[i];
        }
      }
      if Unvisited(m, text, e.visited) == Unvisited(m, text, s.visited) {
        forall i | |s.stack| <= i < |e.stack|
          ensures Consuming(m, f, e.stack[i])
        {
          if i < |s1.stack| {
            assert e.stack[i] == s1.stack[i];
          }
        }
      }
    }
  }

  /** The search loop of `exec`: pop the top frame, record it at its depth in
      the path buffer, stop at the first final state popped, and otherwise
      push what the popped state's rules allow, in list order.  An empty stack
      rejects. */
  function Run(m: Machine, text: string, s: Search, buf: seq<Trace>): (Outcome, Visited)
    requires Fits(m, text) && StackOk(m, text, s.stack, buf)
    decreases Unvisited(m, text, s.visited), Weight(m, text, s.stack), 1
  {
    if s.stack == [] then (Rejected, s.visited) else Pop(m, text, s, buf)
  }

  /** One iteration of the loop on a non-empty stack, and the rest of the
      run. */
  function Pop(m: Machine, text: string, s: Search, buf: seq<Trace>): (Outcome, Visited)
    requires Fits(m, text) && StackOk(m, text, s.stack, buf) && s.stack != []
    decreases Unvisited(m, text, s.visited), Weight(m, text, s.stack), 0
  {
    var f := s.stack[|s.stack| - 1];
    var rest := s.stack[..|s.stack| - 1];
    var buf' := Write(buf, f.step, Trace(f.q, f.index));
    if m.isFinal[f.q] then (Accepted(buf', f.step), s.visited)
    else
      var e := Expand(m, text, f, |m.rules[f.q]|, Search(rest, s.visited));
      LoopStep(m, text, s, buf);
      Run(m, text, e, buf')
  }

  /** The frame `f` the loop pops is in range, and a final `f` accepts at
      its depth. */
  lemma RunAccept(m: Machine, text: string, s: Search, buf: seq<Trace>)
    requires Fits(m, text) && StackOk(m, text, s.stack, buf) && s.stack != []
    ensures var f := s.stack[|s.stack| - 1];
      && FrameOk(m, text, f, |buf|)
      && (m.isFinal[f.q] ==>
            Run(m, text, s, buf) == (Accepted(Write(buf, f.step, Trace(f.q, f.index)), f.step), s.visited))
  {
    assert Run(m, text, s, buf) == Pop(m, text, s, buf);
  }

  /** A non-final popped frame `f`: the loop goes on from `f`'s expansion,
      with the frames in range and the measure lower. */
  lemma RunNext(m: Machine, text: string, s: Search, buf: seq<Trace>)
    requires Fits(m, text) && StackOk(m, text, s.stack, buf) && s.stack != []
    requires !m.isFinal[s.stack[|s.stack| - 1].q]
    ensures var f := s.stack[|s.stack| - 1];
      var buf' := Write(buf, f.step, Trace(f.q, f.index));
      var e := Expand(m, text, f, |m.rules[f.q]|, Search(s.stack[..|s.stack| - 1], s.visited));
      && StackOk(m, text, e.stack, buf')
      && Run(m, text, s, buf) == Run(m, text, e, buf')
      && (Unvisited(m, text, e.visited) < Unvisited(m, text, s.visited)
          || (Unvisited(m, text, e.visited) == Unvisited(m, text, s.visited)
              && Weight(m, text, e.stack) < Weight(m, text, s.stack)))
  {
    LoopStep(m, text, s, buf);
    assert Run(m, text, s, buf) == Pop(m, text, s, buf);
  }

  /** One non-accepting iteration of the loop keeps the frames in range and
      lowers the measure. */
  lemma LoopStep(m: Machine, text: string, s: Search, buf: seq<Trace>)
    requires Fits(m, text) && StackOk(m, text, s.stack, buf) && s.stack != []
    ensures var f := s.stack[|s.stack| - 1];
      var rest := s.stack[..|s.stack| - 1];
      var buf' := Write(buf, f.step, Trace(f.q, f.index));
      var e := Expand(m, text, f, |m.rules[f.q]|, Search(rest, s.visited));
      && StackOk(m, text, e.stack, buf')
      && (Unvisited(m, text, e.visited) < Unvisited(m, text, s.visited)
          || (Unvisited(m, text, e.visited) == Unvisited(m, text, s.visited)
              && Weight(m, text, e.stack) < Weight(m, text, s.stack)))
  {
    var f := s.stack[|s.stack| - 1];
    var rest := s.stack[..|s.stack| - 1];
    var buf' := Write(buf, f.step, Trace(f.q, f.index));
    var e := Expand(m, text, f, |m.rules[f.q]|, Search(rest, s.visited));
    ExpandFacts(m, text, f, |m.rules[f.q]|, Search(rest, s.visited));
    RunStepDecreases(m, text, f, s, e);
    assert |buf| <= |buf'| && f.step < |buf'|;
    forall i | 0 <= i < |e.stack|
      ensures FrameOk(m, text, e.stack[i], |buf'|)
    {
      if i < |rest| {
        assert e.stack[i] == s.stack[i];
      }
    }
  }

  /** One non-accepting iteration lowers the measure. */
  lemma RunStepDecreases(m: Machine, text: string, f: Frame, s: Search, e: Search)
    requires Fits(m, text) && s.stack != [] && f == s.stack[|s.stack| - 1]
    requires 0 <= f.q < |m.rules| && 0 <= f.index <= |text|
    requires var rest := s.stack[..|s.stack| - 1];
      && |rest| <= |e.stack| <= |rest| + |m.rules[f.q]|
      && e.stack[..|rest|] == rest
      && Unvisited(m, text, e.visited) <= Unvisited(m, text, s.visited)
      && (forall i :: |rest| <= i < |e.stack| ==> e.stack[i].index <= |text|)
      && (Unvisited(m, text, e.visited) == Unvisited(m, text, s.visited) ==>
            forall i :: |rest| <= i < |e.stack| ==> e.stack[i].index == f.index + 1)
    ensures Unvisited(m, text, e.visited) < Unvisited(m, text, s.visited)
         || (Unvisited(m, text, e.visited) == Unvisited(m, text, s.visited)
             && Weight(m, text, e.stack) < Weight(m, text, s.stack))
  {
    var rest := s.stack[..|s.stack| - 1];
    if Unvisited(m, text, e.visited) == Unvisited(m, text, s.visited) {
      var news := e.stack[|rest|..];
      assert e.stack == rest + news;
      assert s.stack == rest + [f];
      forall i | 0 <= i < |news|
        ensures news[i].index == f.index + 1 <= |text|
      {
        assert news[i] == e.stack[|rest| + i];
      }
      assert |m.rules[f.q]| <= MaxLen(m.rules);
      WeightDrops(m, text, rest, news, f);
    }
  }

  /** Replacing the top frame `f` by fewer than Base children one character
      further on lowers the weight. */
  lemma WeightDrops(m: Machine, text: string, rest: seq<Frame>, news: seq<Frame>, f: Frame)
    requires 0 <= f.index <= |text| && |news| < Base(m)
    requires forall i :: 0 <= i < |news| ==> news[i].index == f.index + 1 <= |text|
    ensures Weight(m, text, rest + news) < Weight(m, text, rest + [f])
  {
    var b := Base(m);
    var h := Height(text, f);
    assert Weight(m, text, rest + [f]) == Weight(m, text, rest) + Pow(b, h) by {
      assert (rest + [f])[..|rest|] == rest;
    }
    assert Weight(m, text, news) < Pow(b, h) by {
      if news != [] {
        assert news[0].index == f.index + 1;
        WeightOfChildren(m, text, news, f.index + 1, h - 1);
        ChildrenLighter(|news|, b, h);
      }
    }
    WeightAppend(m, text, rest, news);
  }

  /** Fewer than `b` children of weight b^(h-1) weigh less than one frame of
      weight b^h. */
  lemma ChildrenLighter(n: nat, b: nat, h: nat)
    requires n < b && h >= 1
    ensures n * Pow(b, h - 1) < Pow(b, h)
  {
    var p := Pow(b, h - 1);
    assert Pow(b, h) == b * p;
    assert n * p < b * p;
  }

  lemma MulSucc(n: nat, p: nat)
    ensures (n + 1) * p == n * p + p
  {
  }

  lemma {:induction false} WeightOfChildren(m: Machine, text: string, news: seq<Frame>, idx: int, h: nat)
    requires forall i :: 0 <= i < |news| ==> news[i].index == idx
    requires 0 <= idx <= |text| && h == |text| - idx
    ensures Weight(m, text, news) == |news| * Pow(Base(m), h)
    decreases |news|
  {
    if news != [] {
      var d := news[..|news| - 1];
      var p := Pow(Base(m), h);
      assert forall i :: 0 <= i < |d| ==> d[i].index == idx by {
        assert forall i :: 0 <= i < |d| ==> d[i] == news[i];
      }
      WeightOfChildren(m, text, d, idx, h);
      assert Weight(m, text, news) == Weight(m, text, d) + p by {
        assert Height(text, news[|news| - 1]) == h;
      }
      MulSucc(|d|, p);
    }
  }

  /** What `exec` computes from the start offset `p` and the `Set` contents
      left by earlier calls: the start frame (state 0, offset `p`, depth 0)
      is recorded and pushed, then the loop runs. */
  function ExecSpec(m: Machine, text: string, v: Visited, p: int): (Outcome, Visited)
    requires Fits(m, text) && 0 <= p <= |text|
  {
    Run(m, text, Search([Frame(0, p, 0)], Insert(v, 0, p)), [])
  }

  // ----- soundness of the search -----

  lemma ChainExtend(m: Machine, text: string, c: seq<Trace>, t: Trace)
    requires Chain(m, text, c) && |c| >= 1 && StepOk(m, text, c[|c| - 1], t)
    ensures Chain(m, text, c + [t])
  {
    var d := c + [t];
    forall i | 0 <= i < |d| - 1
      ensures StepOk(m, text, d[i], d[i + 1])
    {
      if i < |c| - 1 {
        assert d[i] == c[i] && d[i + 1] == c[i + 1];
      }
    }
  }

  /** A non-empty prefix of a run from `p0` is a run from `p0`. */
  lemma ChainFromPrefix(m: Machine, text: string, p0: int, c: seq<Trace>, n: nat)
    requires ChainFrom(m, text, p0, c) && 1 <= n <= |c|
    ensures ChainFrom(m, text, p0, c[..n])
  {
    ChainPrefix(m, text, c, n);
  }

  lemma ChainPrefix(m: Machine, text: string, c: seq<Trace>, n: nat)
    requires Chain(m, text, c) && n <= |c|
    ensures Chain(m, text, c[..n])
  {
    forall i | 0 <= i < n - 1
      ensures StepOk(m, text, c[..n][i], c[..n][i + 1])
    {
      assert c[..n][i] == c[i] && c[..n][i + 1] == c[i + 1];
    }
  }

  /** The frame a stack element stands for extends the run below it. */
  ghost predicate Rooted(m: Machine, text: string, p0: int, g: Frame, buf: seq<Trace>)
  {
    && g.step <= |buf|
    && (g.step == 0 ==> g.q == 0 && g.index == p0)
    && (g.step > 0 ==> ChainFrom(m, text, p0, buf[..g.step]) && StepOk(m, text, buf[g.step - 1], Trace(g.q, g.index)))
  }

  /** Recording a popped frame at its depth completes a run ending in it. */
  lemma RecordFrame(m: Machine, text: string, p0: int, g: Frame, buf: seq<Trace>)
    requires Rooted(m, text, p0, g, buf)
    ensures ChainFrom(m, text, p0, Write(buf, g.step, Trace(g.q, g.index))[..g.step + 1])
  {
    var b := Write(buf, g.step, Trace(g.q, g.index));
    assert b[..g.step + 1] == b[..g.step] + [Trace(g.q, g.index)];
    if g.step > 0 {
      assert b[..g.step] == buf[..g.step];
      ChainExtend(m, text, buf[..g.step], Trace(g.q, g.index));
    }
  }

  /** A frame deeper in the stack stays rooted after the top frame is recorded. */
  lemma RootedAfterWrite(m: Machine, text: string, p0: int, g: Frame, f: Frame, buf: seq<Trace>)
    requires Rooted(m, text, p0, g, buf) && g.step <= f.step <= |buf|
    ensures Rooted(m, text, p0, g, Write(buf, f.step, Trace(f.q, f.index)))
  {
    var b := Write(buf, f.step, Trace(f.q, f.index));
    assert b[..g.step] == buf[..g.step];
    if g.step > 0 {
      assert b[g.step - 1] == buf[g.step - 1];
    }
  }

  /** An accepting outcome: the path buffer up to the accepting depth is a
      run of the automaton from state 0 at offset `p0` that ends in a final
      state. */
  ghost predicate Found(m: Machine, text: string, p0: int, o: Outcome)
    requires o.Accepted?
  {
    && o.step < |o.buffer|
    && ChainFrom(m, text, p0, o.buffer[..o.step + 1])
    && 0 <= o.buffer[o.step].q < |m.rules| && o.buffer[o.step].q < |m.isFinal|
    && m.isFinal[o.buffer[o.step].q]
  }

  /** What holds of every search state the loop reaches from `exec`'s start:
      the frames are in range and rooted in the buffer, depths grow towards
      the top, and `u0` bounds the unrecorded pairs, strictly so once a final
      frame above depth 0 is on the stack (when final states are entered only
      by epsilon rules). */
  ghost predicate Invariant(m: Machine, text: string, p0: int, s: Search, buf: seq<Trace>, u0: nat)
  {
    && Fits(m, text) && StackOk(m, text, s.stack, buf)
    && (forall i :: 0 <= i < |s.stack| ==> Rooted(m, text, p0, s.stack[i], buf))
    && (forall i, j :: 0 <= i < j < |s.stack| ==> s.stack[i].step <= s.stack[j].step)
    && Unvisited(m, text, s.visited) <= u0
    && (FinalEntryEps(m) ==>
          forall i :: 0 <= i < |s.stack| && FinalAbove(m, s.stack[i]) ==> Unvisited(m, text, s.visited) < u0)
  }

  /** Frame `g` is a final state above depth 0. */
  ghost predicate FinalAbove(m: Machine, g: Frame)
  {
    g.step > 0 && 0 <= g.q < |m.rules| && g.q < |m.isFinal| && m.isFinal[g.q]
  }

  /** One non-accepting iteration keeps the invariant. */
  lemma ExpandKeeps(m: Machine, text: string, p0: int, s: Search, buf: seq<Trace>, u0: nat)
    requires Invariant(m, text, p0, s, buf, u0) && s.stack != []
    requires var f := s.stack[|s.stack| - 1]; 0 <= f.q < |m.rules| && !m.isFinal[f.q]
    ensures var f := s.stack[|s.stack| - 1];
      var e := Expand(m, text, f, |m.rules[f.q]|, Search(s.stack[..|s.stack| - 1], s.visited));
      Invariant(m, text, p0, e, Write(buf, f.step, Trace(f.q, f.index)), u0)
  {
    var f := s.stack[|s.stack| - 1];
    var rest := s.stack[..|s.stack| - 1];
    var buf' := Write(buf, f.step, Trace(f.q, f.index));
    RecordFrame(m, text, p0, f, buf);
    var e := Expand(m, text, f, |m.rules[f.q]|, Search(rest, s.visited));
    ExpandFacts(m, text, f, |m.rules[f.q]|, Search(rest, s.visited));
    assert e.stack == rest + e.stack[|rest|..];
    forall i | 0 <= i < |e.stack|
      ensures FrameOk(m, text, e.stack[i], |buf'|)
      ensures Rooted(m, text, p0, e.stack[i], buf')
      ensures i < |rest| ==> e.stack[i].step <= f.step
      ensures i >= |rest| ==> e.stack[i].step == f.step + 1
    {
      KeepFrame(m, text, p0, s, buf, e, i);
    }
    if FinalEntryEps(m) {
      forall i | 0 <= i < |e.stack| && FinalAbove(m, e.stack[i])
        ensures Unvisited(m, text, e.visited) < u0
      {
        if i < |rest| {
          assert e.stack[i] == s.stack[i];
        }
      }
    }
  }

  lemma KeepFrame(m: Machine, text: string, p0: int, s: Search, buf: seq<Trace>, e: Search, i: int)
    requires Fits(m, text) && s.stack != [] && StackOk(m, text, s.stack, buf)
    requires forall k :: 0 <= k < |s.stack| ==> Rooted(m, text, p0, s.stack[k], buf)
    requires forall k, l :: 0 <= k < l < |s.stack| ==> s.stack[k].step <= s.stack[l].step
    requires var f := s.stack[|s.stack| - 1];
      && 0 <= f.q < |m.rules| && 0 <= f.index <= |text|
      && |s.stack| - 1 <= |e.stack| && e.stack[..|s.stack| - 1] == s.stack[..|s.stack| - 1]
      && (forall k :: |s.stack| - 1 <= k < |e.stack| ==> Child(m, text, f, e.stack[k]))
    requires 0 <= i < |e.stack|
    ensures var f := s.stack[|s.stack| - 1];
      var buf' := Write(buf, f.step, Trace(f.q, f.index));
      && FrameOk(m, text, e.stack[i], |buf'|)
      && Rooted(m, text, p0, e.stack[i], buf')
      && (i < |s.stack| - 1 ==> e.stack[i].step <= f.step)
      && (i >= |s.stack| - 1 ==> e.stack[i].step == f.step + 1)
  {
    var f := s.stack[|s.stack| - 1];
    var buf' := Write(buf, f.step, Trace(f.q, f.index));
    var g := e.stack[i];
    if i < |s.stack| - 1 {
      assert g == s.stack[..|s.stack| - 1][i] == s.stack[i];
      assert s.stack[i].step <= s.stack[|s.stack| - 1].step;
      RootedAfterWrite(m, text, p0, g, f, buf);
    } else {
      RecordFrame(m, text, p0, f, buf);
      assert Child(m, text, f, g);
      assert buf'[..g.step] == buf'[..f.step + 1];
      assert buf'[g.step - 1] == Trace(f.q, f.index);
    }
  }

  /** What `Run` returns: only runs that end in a final state, with the count
      of unrecorded (state, offset) pairs never growing past `u0`; accepting
      above depth 0, when final states are entered only by epsilon rules, it
      is strictly below `u0`. */
  lemma {:induction false} RunSound(m: Machine, text: string, p0: int, s: Search, buf: seq<Trace>, u0: nat)
    requires Invariant(m, text, p0, s, buf, u0)
    ensures var (o, v) := Run(m, text, s, buf);
      && Unvisited(m, text, v) <= u0
      && (o.Accepted? ==> Found(m, text, p0, o) && (o.step > 0 && FinalEntryEps(m) ==> Unvisited(m, text, v) < u0))
    decreases Unvisited(m, text, s.visited), Weight(m, text, s.stack)
  {
    if s.stack != [] {
      assert Run(m, text, s, buf) == Pop(m, text, s, buf);
      var f := s.stack[|s.stack| - 1];
      var rest := s.stack[..|s.stack| - 1];
      var buf' := Write(buf, f.step, Trace(f.q, f.index));
      if m.isFinal[f.q] {
        RecordFrame(m, text, p0, f, buf);
      } else {
        var e := Expand(m, text, f, |m.rules[f.q]|, Search(rest, s.visited));
        ExpandFacts(m, text, f, |m.rules[f.q]|, Search(rest, s.visited));
        RunStepDecreases(m, text, f, s, e);
        ExpandKeeps(m, text, p0, s, buf, u0);
        assert Run(m, text, s, buf) == Run(m, text, e, buf');
        RunSound(m, text, p0, e, buf', u0);
      }
    }
  }

  /** What `exec` returns, for an automaton whose start state is not final:
      an accepting run from (state 0, offset `p`) of at least one step whose
      last element is final; `Set` only grows, and when final states are
      entered only by epsilon rules an acceptance records at least one new
      (state, offset) pair and the accepting frame sits at the offset of the
      frame before it. */
  lemma ExecSound(m: Machine, text: string, v: Visited, p: int)
    requires Fits(m, text) && 0 <= p <= |text| && !m.isFinal[0]
    ensures var (o, v') := ExecSpec(m, text, v, p);
      && Unvisited(m, text, v') <= Unvisited(m, text, v)
      && (o.Accepted? ==>
            && 1 <= o.step < |o.buffer|
            && Found(m, text, p, o)
            && (FinalEntryEps(m) ==>
                  && Unvisited(m, text, v') < Unvisited(m, text, v)
                  && o.buffer[o.step].index == o.buffer[o.step - 1].index))
  {
    var s := Search([Frame(0, p, 0)], Insert(v, 0, p));
    StartInvariant(m, text, v, p);
    RunSound(m, text, p, s, [], Unvisited(m, text, v));
    var (o, v') := ExecSpec(m, text, v, p);
    if o.Accepted? {
      FoundDepth(m, text, p, o);
    }
  }

  /** The start of the search, state 0 at `p` pushed and recorded, meets the
      invariant. */
  lemma StartInvariant(m: Machine, text: string, v: Visited, p: int)
    requires Fits(m, text) && 0 <= p <= |text| && !m.isFinal[0]
    ensures Invariant(m, text, p, Search([Frame(0, p, 0)], Insert(v, 0, p)), [], Unvisited(m, text, v))
  {
    UnvisitedInsert(m, text, v, 0, p);
  }

  /** An accepting run that starts in a non-final state 0 has at least one
      step, and its last step is an epsilon step when final states are
      entered only by epsilon rules. */
  lemma FoundDepth(m: Machine, text: string, p: int, o: Outcome)
    requires Fits(m, text) && !m.isFinal[0] && o.Accepted? && Found(m, text, p, o)
    ensures 1 <= o.step < |o.buffer|
    ensures FinalEntryEps(m) ==> o.buffer[o.step].index == o.buffer[o.step - 1].index
  {
    var c := o.buffer[..o.step + 1];
    assert c[0] == Trace(0, p);
    assert o.step >= 1;
    if FinalEntryEps(m) {
      assert StepOk(m, text, c[o.step - 1], c[o.step]);
      var k :| 0 <= k < |m.rules[c[o.step - 1].q]| && RuleStep(m, text, c[o.step - 1], k, c[o.step]);
      assert m.rules[c[o.step - 1].q][k].kind == Epsilon;
    }
  }

  /** An accepting search stops at depth 1 or deeper, inside the buffer. */
  lemma ExecDepth(m: Machine, text: string, v: Visited, p: int)
    requires Fits(m, text) && 0 <= p <= |text| && !m.isFinal[0]
    ensures var (o, _) := ExecSpec(m, text, v, p);
      o.Accepted? ==> 1 <= o.step <= |o.buffer|
  {
    ExecSound(m, text, v, p);
  }

  /** What `exec` hands back, for an automaton whose start state is not
      final: `Set` only grows, and an accepted path starts in state 0, has one
      consumed string per step, and spells the text from `p` to the offset of
      its last element. */
  lemma ExecOutcome(m: Machine, text: string, v: Visited, p: int)
    requires Fits(m, text) && 0 <= p <= |text| && !m.isFinal[0]
    ensures var (o, v') := ExecSpec(m, text, v, p);
      && Unvisited(m, text, v') <= Unvisited(m, text, v)
      && (o.Accepted? ==>
            && 1 <= o.step <= |o.buffer|
            && var path := BacktracePath(text, o.buffer[..o.step]);
            && |path.states| >= 1 && path.states[0] == 0
            && |path.consumes| == |path.states| - 1
            && p <= o.buffer[o.step - 1].index <= |text|
            && Concat(path.consumes) == text[p..o.buffer[o.step - 1].index])
  {
    ExecSound(m, text, v, p);
    var (o, v') := ExecSpec(m, text, v, p);
    if o.Accepted? {
      AcceptedPath(m, text, p, o);
    }
  }

  /** Rule `k` of `f.q` pushes a frame during the expansion of `f`. */
  ghost predicate Pushes(m: Machine, text: string, f: Frame, k: nat, s: Search)
    requires Fits(m, text)
    requires 0 <= f.q < |m.rules| && k < |m.rules[f.q]| && 0 <= f.index <= |text|
  {
    ApplyRule(m, text, f, k, Expand(m, text, f, k, s)) != Expand(m, text, f, k, s)
  }

  /** Rule `k` pushed the top frame of `e`, and no rule after it below `j` pushed. */
  ghost predicate LastPusher(m: Machine, text: string, f: Frame, j: nat, s: Search, e: Search, k: nat)
    requires Fits(m, text)
    requires 0 <= f.q < |m.rules| && j <= |m.rules[f.q]| && 0 <= f.index <= |text|
  {
    && k < j && Pushes(m, text, f, k, s)
    && |e.stack| > 0 && e.stack[|e.stack| - 1].q == m.rules[f.q][k].dst
    && (forall k' :: k < k' < j ==> !Pushes(m, text, f, k', s))
  }

  /** Priority: after a state's rules are pushed in list order, the top of
      the stack, which the loop pops next, is the frame of the LAST rule in
      the list that pushed anything. */
  lemma {:induction false} LastRuleFirst(m: Machine, text: string, f: Frame, j: nat, s: Search)
    requires Fits(m, text)
    requires 0 <= f.q < |m.rules| && j <= |m.rules[f.q]| && 0 <= f.index <= |text|
    ensures var e := Expand(m, text, f, j, s);
      |e.stack| > |s.stack| ==> exists k :: LastPusher(m, text, f, j, s, e, k)
    decreases j
  {
    if j > 0 {
      var e1 := Expand(m, text, f, j - 1, s);
      var e := Expand(m, text, f, j, s);
      assert e == ApplyRule(m, text, f, j - 1, e1);
      if e != e1 {
        assert Pushes(m, text, f, j - 1, s);
        ApplyRuleFacts(m, text, f, j - 1, e1);
        assert LastPusher(m, text, f, j, s, e, j - 1);
      } else if |e.stack| > |s.stack| {
        LastRuleFirst(m, text, f, j - 1, s);
        var k :| LastPusher(m, text, f, j - 1, s, e1, k);
        assert !Pushes(m, text, f, j - 1, s);
        NoPushKeeps(m, text, f, j, s, e, k);
      }
    }
  }

  /** Rule `j - 1` pushing nothing keeps the last pusher below `j - 1` the
      last one below `j`. */
  lemma NoPushKeeps(m: Machine, text: string, f: Frame, j: nat, s: Search, e: Search, k: nat)
    requires Fits(m, text)
    requires 0 <= f.q < |m.rules| && 0 < j <= |m.rules[f.q]| && 0 <= f.index <= |text|
    requires LastPusher(m, text, f, j - 1, s, e, k) && !Pushes(m, text, f, j - 1, s)
    ensures LastPusher(m, text, f, j, s, e, k)
  {
    forall k' | k < k' < j
      ensures !Pushes(m, text, f, k', s)
    {
      if k' < j - 1 {
      }
    }
  }

  // ----- backtrace -----

  /** What one path step consumed: "" when both offsets agree, otherwise the
      character at the earlier offset (nothing when that lies past the end). */
  function Hop(text: string, x: Trace, y: Trace): seq<string>
  {
    if x.index == y.index then [""]
    else if 0 <= x.index < |text| then [[text[x.index]]]
    else []
  }

  function Consumes(text: string, c: seq<Trace>): seq<string>
    decreases |c|
  {
    if |c| < 2 then [] else Consumes(text, c[..|c| - 1]) + Hop(text, c[|c| - 2], c[|c| - 1])
  }

  function StatesOf(c: seq<Trace>): seq<int>
  {
    seq(|c|, i requires 0 <= i < |c| => c[i].q)
  }

  /** The path `backtrace` builds from the first elements `c` of the buffer. */
  function BacktracePath(text: string, c: seq<Trace>): Path
  {
    Path(StatesOf(c), Consumes(text, c))
  }

  /** Along a run each step keeps or advances the offset by one, inside the text. */
  lemma {:induction false} ConsumesOfChain(m: Machine, text: string, p0: int, c: seq<Trace>)
    requires ChainFrom(m, text, p0, c) && 0 <= p0 <= |text|
    ensures p0 <= c[|c| - 1].index <= |text|
    ensures |Consumes(text, c)| == |c| - 1
    ensures Concat(Consumes(text, c)) == text[p0..c[|c| - 1].index]
    decreases |c|
  {
    if |c| >= 2 {
      var d := c[..|c| - 1];
      ChainPrefix(m, text, c, |c| - 1);
      assert d[0] == c[0];
      ConsumesOfChain(m, text, p0, d);
      assert d[|d| - 1] == c[|c| - 2];
      assert StepOk(m, text, c[|c| - 2], c[|c| - 1]);
      StepAdvance(m, text, c[|c| - 2], c[|c| - 1]);
      ConsumesSnoc(text, p0, d, c[|c| - 1]);
      assert d + [c[|c| - 1]] == c;
    }
  }

  /** A step keeps the offset or, inside the text, advances it by one. */
  lemma StepAdvance(m: Machine, text: string, x: Trace, y: Trace)
    requires StepOk(m, text, x, y)
    ensures 0 <= x.index <= |text|
    ensures y.index == x.index || (x.index < |text| && y.index == x.index + 1)
  {
    var k :| 0 <= k < |m.rules[x.q]| && RuleStep(m, text, x, k, y);
  }

  /** One more path element one step on extends what the path consumed by
      the text between the two offsets. */
  lemma ConsumesSnoc(text: string, p0: int, d: seq<Trace>, y: Trace)
    requires |d| >= 1 && 0 <= p0 <= d[|d| - 1].index <= |text|
    requires y.index == d[|d| - 1].index || (d[|d| - 1].index < |text| && y.index == d[|d| - 1].index + 1)
    requires |Consumes(text, d)| == |d| - 1 && Concat(Consumes(text, d)) == text[p0..d[|d| - 1].index]
    ensures p0 <= y.index <= |text|
    ensures |Consumes(text, d + [y])| == |d|
    ensures Concat(Consumes(text, d + [y])) == text[p0..y.index]
  {
    var c := d + [y];
    var x := d[|d| - 1];
    var cs := Consumes(text, d);
    assert Consumes(text, c) == cs + Hop(text, x, y) by {
      assert c[..|c| - 1] == d && c[|c| - 2] == x && c[|c| - 1] == y;
    }
    if x.index == y.index {
      ConcatAppend(cs, "");
      assert Concat(cs) + "" == Concat(cs);
    } else {
      ConcatAppend(cs, [text[x.index]]);
      SliceSnoc(text, p0, x.index);
    }
  }

  lemma SliceSnoc(text: string, i: int, j: int)
    requires 0 <= i <= j < |text|
    ensures text[i..j + 1] == text[i..j] + [text[j]]
  {
  }

  /** The accepted path: it starts in state 0, has one consumed string per
      step, and what it consumed is exactly the text from the start offset
      to the offset `backtrace` stores into `p`. */
  lemma AcceptedPath(m: Machine, text: string, p0: int, o: Outcome)
    requires o.Accepted? && Found(m, text, p0, o) && o.step >= 1 && 0 <= p0 <= |text|
    ensures var path := BacktracePath(text, o.buffer[..o.step]);
      && |path.states| == o.step && path.states[0] == 0
      && |path.consumes| == |path.states| - 1
      && p0 <= o.buffer[o.step - 1].index <= |text|
      && Concat(path.consumes) == text[p0..o.buffer[o.step - 1].index]
  {
    var c := o.buffer[..o.step];
    ChainFromPrefix(m, text, p0, o.buffer[..o.step + 1], o.step);
    assert o.buffer[..o.step + 1][..o.step] == c;
    ConsumesOfChain(m, text, p0, c);
    assert c[|c| - 1] == o.buffer[o.step - 1];
  }
}
