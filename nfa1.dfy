/** The executor of the first version (nfa.cpp of the first stage): the
    character test `Rule::match`, and `exec`, a depth-first search whose
    frames carry the REMAINING TEXT rather than an offset.  It accepts only in
    a final state with nothing left to read, its `Set` lives for one call and
    is keyed by remaining text, and `backtrace` finds the path's length by
    walking the path buffer up to the first unwritten element. */
module Nfa1 {
  import opened Automaton
  import Nfa3Spec

  // ----- Rule::match -----

  /** The first version's blank class: form feed, newline, carriage return,
      tab and vertical tab, but not the space character. */
  predicate IsBlank(a: char)
  {
    a == Nfa3Spec.FormFeed || a == '\n' || a == '\r' || a == '\t' || a == Nfa3Spec.VerticalTab
  }

  /** Whether rule `r` lets character `a` through: NORMAL and RANGE compare
      with the first characters of `by` and `to`, SPECIAL tests its class
      letter, and a rule of any other kind lets every character through. */
  function Matches(r: Rule, a: char): bool
  {
    if r.kind == Normal then a == At0(r.guard.sym)
    else if r.kind == Range then InRange(At0(r.guard.sym), At0(r.guard.hi), a)
    else if r.kind == Special then
      if r.guard.sym == "." then a != '\n' && a != '\r'
      else if r.guard.sym == "d" then Nfa3Spec.IsDigit(a)
      else if r.guard.sym == "s" then IsBlank(a)
      else if r.guard.sym == "w" then Nfa3Spec.IsWord(a)
      else if r.guard.sym == "D" then !Nfa3Spec.IsDigit(a)
      else if r.guard.sym == "S" then !IsBlank(a)
      else !Nfa3Spec.IsWord(a)
    else true
  }

  /** `D` and `S` are the complements of `d` and `s`, and so is every letter
      other than `.`, `d`, `s`, `w`, `D`, `S` of `w`; `s` does not take the
      space character; an epsilon or group rule takes every character. */
  lemma MatchesClasses(dst: int, sym: string, a: char)
    ensures Matches(ClassRule(dst, "D"), a) == !Matches(ClassRule(dst, "d"), a)
    ensures Matches(ClassRule(dst, "S"), a) == !Matches(ClassRule(dst, "s"), a)
    ensures sym !in {".", "d", "s", "w", "D", "S"} ==> Matches(ClassRule(dst, sym), a) == !Matches(ClassRule(dst, "w"), a)
    ensures !Matches(ClassRule(dst, "s"), ' ') && Matches(ClassRule(dst, "S"), ' ')
    ensures Matches(Eps(dst), a) && Matches(Rule(dst, Group, Unguarded), a)
  {
  }

  /** RANGE compares signed `char`s.  On ASCII bounds and characters it is
      the interval of codes; a high end from 128 to 255 is negative and so
      below an ASCII low end, leaving the range empty; and a character from
      128 to 255 is below every ASCII low end. */
  lemma MatchesRange(dst: int, lo: char, hi: char, a: char)
    ensures (lo as int) < 128 && (hi as int) < 128 && (a as int) < 128 ==>
      (Matches(Rule(dst, Range, Guard([lo], [hi], [])), a) <==> lo <= a <= hi)
    ensures (lo as int) < 128 && 128 <= (hi as int) < 256 ==> !Matches(Rule(dst, Range, Guard([lo], [hi], [])), a)
    ensures (lo as int) < 128 && 128 <= (a as int) < 256 ==> !Matches(Rule(dst, Range, Guard([lo], [hi], [])), a)
  {
  }

  /** Against the final version's test with dot-all mode off: on every
      NORMAL, RANGE and SPECIAL rule the two agree, except on the space
      character for the classes `s` and `S`. */
  lemma AgreesWithFinal(r: Rule, a: char)
    requires r.kind == Normal || r.kind == Range || r.kind == Special
    ensures Matches(r, a) == Nfa3Spec.Matches(r, a, false) <==>
      !(r.kind == Special && (r.guard.sym == "s" || r.guard.sym == "S") && a == ' ')
  {
  }

  // ----- the automaton and the search state -----

  datatype Machine = Machine(rules: seq<seq<Rule>>, isFinal: seq<bool>)

  /** State 0 exists, every state has a final flag and every destination is
      a state. */
  ghost predicate WellFormed(m: Machine)
  {
    |m.rules| > 0 && |m.isFinal| == |m.rules| && DstBelow(m.rules, |m.rules|)
  }

  /** The source's `Set` array: for each state the remaining texts already
      pushed into it (see `Seen`). */
  type Visited = map<int, set<string>>

  /** A stack element: state, remaining text, depth in the search. */
  datatype Frame = Frame(q: int, str: string, step: nat)

  /** A path-buffer element (`path_element`): state and remaining text. */
  datatype Elem = Elem(q: int, str: string)

  datatype Search = Search(stack: seq<Frame>, visited: Visited)

  /** What rule `k` of state `f.q` does for popped frame `f`: an epsilon rule
      is skipped when its destination already saw this remaining text, and
      otherwise pushed with the same text and recorded; any other rule is
      pushed with the first character stripped, and recorded, when a
      character remains and the rule matches it. */
  function ApplyRule(m: Machine, f: Frame, k: nat, s: Search): Search
    requires 0 <= f.q < |m.rules| && k < |m.rules[f.q]|
  {
    var r := m.rules[f.q][k];
    if r.kind == Epsilon then
      if f.str in Seen(s.visited, r.dst) then s
      else Search(s.stack + [Frame(r.dst, f.str, f.step + 1)], Insert(s.visited, r.dst, f.str))
    else if Matches(r, At0(f.str)) && f.str != [] then
      Search(s.stack + [Frame(r.dst, f.str[1..], f.step + 1)], Insert(s.visited, r.dst, f.str[1..]))
    else s
  }

  /** The first `j` rules of state `f.q`, applied in list order. */
  function Expand(m: Machine, f: Frame, j: nat, s: Search): Search
    requires 0 <= f.q < |m.rules| && j <= |m.rules[f.q]|
    decreases j
  {
    if j == 0 then s else ApplyRule(m, f, j - 1, Expand(m, f, j - 1, s))
  }

  /** `s` is what remains of `text` once some prefix of it is read. */
  ghost predicate SuffixOf(s: string, text: string)
  {
    |s| <= |text| && s == text[|text| - |s|..]
  }

  /** Frame `g` names a state, a remainder of the text and a depth of at
      most `n`. */
  ghost predicate FrameOk(m: Machine, text: string, g: Frame, n: int)
  {
    0 <= g.q < |m.rules| && SuffixOf(g.str, text) && g.step <= n
  }

  ghost predicate StackOk(m: Machine, text: string, stack: seq<Frame>, buf: seq<Elem>)
  {
    forall i :: 0 <= i < |stack| ==> FrameOk(m, text, stack[i], |buf|)
  }

  datatype Outcome = Accepted(buffer: seq<Elem>, step: nat) | Rejected

  // ----- termination measure -----

  /** One more than the longest rule list: no frame has that many children. */
  ghost function Base(m: Machine): nat
  {
    Nfa3Spec.MaxLen(m.rules) + 1
  }

  /** Each frame weighs Base^(characters left). */
  ghost function Weight(m: Machine, stack: seq<Frame>): nat
  {
    if stack == [] then 0
    else Weight(m, stack[..|stack| - 1]) + Nfa3Spec.Pow(Base(m), |stack[|stack| - 1].str|)
  }

  ghost function Pairs(m: Machine, text: string, v: Visited): set<(int, int)>
  {
    set q, i | 0 <= q < |m.rules| && 0 <= i <= |text| && text[i..] !in Seen(v, q) :: (q, i)
  }

  /** The (state, remainder) pairs not yet recorded, a remainder named by the
      offset it starts at. */
  ghost function Unvisited(m: Machine, text: string, v: Visited): nat
  {
    |Pairs(m, text, v)|
  }

  lemma UnvisitedInsert(m: Machine, text: string, v: Visited, q: int, s: string)
    requires SuffixOf(s, text)
    ensures Unvisited(m, text, Insert(v, q, s)) <= Unvisited(m, text, v)
    ensures 0 <= q < |m.rules| && s !in Seen(v, q) ==> Unvisited(m, text, Insert(v, q, s)) < Unvisited(m, text, v)
  {
    var a := Pairs(m, text, v);
    var b := Pairs(m, text, Insert(v, q, s));
    var i0 := |text| - |s|;
    forall p | p in b
      ensures p in a && p != (q, i0)
    {
    }
    forall p | p in a && p != (q, i0)
      ensures p in b
    {
      if p.0 == q {
        assert |text[p.1..]| != |s|;
      }
    }
    assert b == a - {(q, i0)};
  }

  lemma {:induction false} WeightAppend(m: Machine, s: seq<Frame>, t: seq<Frame>)
    ensures Weight(m, s + t) == Weight(m, s) + Weight(m, t)
    decreases |t|
  {
    if t == [] {
      assert s + t == s;
    } else {
      var n := |t| - 1;
      assert (s + t)[..|s + t| - 1] == s + t[..n];
      WeightAppend(m, s, t[..n]);
    }
  }

  lemma {:induction false} WeightOfChildren(m: Machine, news: seq<Frame>, h: nat)
    requires forall i :: 0 <= i < |news| ==> |news[i].str| == h
    ensures Weight(m, news) == |news| * Nfa3Spec.Pow(Base(m), h)
    decreases |news|
  {
    if news != [] {
      var d := news[..|news| - 1];
      assert forall i :: 0 <= i < |d| ==> d[i] == news[i];
      WeightOfChildren(m, d, h);
      Nfa3Spec.MulSucc(|d|, Nfa3Spec.Pow(Base(m), h));
    }
  }

  /** Replacing the top frame `f` by fewer than Base children with one
      character less each lowers the weight. */
  lemma WeightDrops(m: Machine, rest: seq<Frame>, news: seq<Frame>, f: Frame)
    requires |news| < Base(m)
    requires forall i :: 0 <= i < |news| ==> |news[i].str| + 1 == |f.str|
    ensures Weight(m, rest + news) < Weight(m, rest + [f])
  {
    var b := Base(m);
    var h := |f.str|;
    assert Weight(m, rest + [f]) == Weight(m, rest) + Nfa3Spec.Pow(b, h) by {
      assert (rest + [f])[..|rest|] == rest;
    }
    assert Weight(m, news) < Nfa3Spec.Pow(b, h) by {
      if news != [] {
        assert |news[0].str| + 1 == h;
        WeightOfChildren(m, news, h - 1);
        Nfa3Spec.ChildrenLighter(|news|, b, h);
      }
    }
    WeightAppend(m, rest, news);
  }

  // ----- what one step of the search means -----

  /** Rule `k` of state `x.q` leads from `x` to `y`: an epsilon rule keeps
      the remaining text, any other reads its first character. */
  ghost predicate RuleStep(m: Machine, x: Elem, k: int, y: Elem)
    requires 0 <= x.q < |m.rules| && 0 <= k < |m.rules[x.q]|
  {
    var r := m.rules[x.q][k];
    r.dst == y.q &&
    if r.kind == Epsilon then y.str == x.str
    else x.str != [] && Matches(r, x.str[0]) && y.str == x.str[1..]
  }

  /** Some rule of `x.q` leads from `x` to `y`. */
  ghost predicate StepOk(m: Machine, x: Elem, y: Elem)
  {
    0 <= x.q < |m.rules| && exists k :: 0 <= k < |m.rules[x.q]| && RuleStep(m, x, k, y)
  }

  ghost predicate Chain(m: Machine, c: seq<Elem>)
  {
    forall i :: 0 <= i < |c| - 1 ==> StepOk(m, c[i], c[i + 1])
  }

  /** A run of the automaton from state 0 with the whole text left. */
  ghost predicate ChainFrom(m: Machine, text: string, c: seq<Elem>)
  {
    |c| >= 1 && c[0] == Elem(0, text) && Chain(m, c)
  }

  /** A frame pushed for popped frame `f`. */
  ghost predicate Child(m: Machine, text: string, f: Frame, g: Frame)
  {
    && g.step == f.step + 1
    && 0 <= g.q < |m.rules|
    && SuffixOf(g.str, text)
    && StepOk(m, Elem(f.q, f.str), Elem(g.q, g.str))
  }

  /** `e` is `s` with one child of `f` pushed, and unless a new (state,
      remainder) pair was recorded that child read a character. */
  ghost predicate PushedOne(m: Machine, text: string, f: Frame, s: Search, e: Search)
  {
    && |e.stack| == |s.stack| + 1 && e.stack == s.stack + [e.stack[|s.stack|]]
    && Child(m, text, f, e.stack[|s.stack|])
    && Unvisited(m, text, e.visited) <= Unvisited(m, text, s.visited)
    && (Unvisited(m, text, e.visited) == Unvisited(m, text, s.visited) ==>
          |e.stack[|s.stack|].str| + 1 == |f.str|)
  }

  /** What one rule does: nothing, or it pushes one child of `f`. */
  lemma ApplyRuleFacts(m: Machine, text: string, f: Frame, k: nat, s: Search)
    requires WellFormed(m) && FrameOk(m, text, f, f.step) && k < |m.rules[f.q]|
    ensures var e := ApplyRule(m, f, k, s);
      e == s || (PushedOne(m, text, f, s, e) && e.stack[|s.stack|].q == m.rules[f.q][k].dst)
  {
    var e := ApplyRule(m, f, k, s);
    if e != s {
      var r := m.rules[f.q][k];
      var g := e.stack[|s.stack|];
      assert e.stack == s.stack + [g];
      assert 0 <= r.dst < |m.rules|;
      assert RuleStep(m, Elem(f.q, f.str), k, Elem(g.q, g.str));
      assert SuffixOf(g.str, text) by {
        if r.kind != Epsilon {
          assert text[|text| - |f.str|..][1..] == text[|text| - |f.str| + 1..];
        }
      }
      UnvisitedInsert(m, text, s.visited, r.dst, g.str);
    }
  }

  /** `e` is `s` followed by at most `j` more frames. */
  ghost predicate Extends(s: seq<Frame>, e: seq<Frame>, j: nat)
  {
    |s| <= |e| <= |s| + j && e[..|s|] == s
  }

  /** The frames `e` has above `s` are children of `f`, the `Set` only grew,
      and unless it grew they all read a character. */
  ghost predicate ChildrenOf(m: Machine, text: string, f: Frame, s: Search, e: Search)
  {
    && (forall i :: |s.stack| <= i < |e.stack| ==> Child(m, text, f, e.stack[i]))
    && Unvisited(m, text, e.visited) <= Unvisited(m, text, s.visited)
    && (Unvisited(m, text, e.visited) == Unvisited(m, text, s.visited) ==>
          forall i :: |s.stack| <= i < |e.stack| ==> |e.stack[i].str| + 1 == |f.str|)
  }

  ghost predicate Grows(m: Machine, text: string, f: Frame, j: nat, s: Search, e: Search)
  {
    Extends(s.stack, e.stack, j) && ChildrenOf(m, text, f, s, e)
  }

  /** Applying the first `j` rules of `f.q` only pushes, at most one child
      of `f` per rule. */
  lemma {:induction false} ExpandFacts(m: Machine, text: string, f: Frame, j: nat, s: Search)
    requires WellFormed(m) && FrameOk(m, text, f, f.step) && j <= |m.rules[f.q]|
    ensures Grows(m, text, f, j, s, Expand(m, f, j, s))
    decreases j
  {
    if j > 0 {
      ExpandFacts(m, text, f, j - 1, s);
      GrowsStep(m, text, f, j, s);
    }
  }

  lemma GrowsStep(m: Machine, text: string, f: Frame, j: nat, s: Search)
    requires WellFormed(m) && FrameOk(m, text, f, f.step) && 0 < j <= |m.rules[f.q]|
    requires Grows(m, text, f, j - 1, s, Expand(m, f, j - 1, s))
    ensures Grows(m, text, f, j, s, Expand(m, f, j, s))
  {
    var s1 := Expand(m, f, j - 1, s);
    var e := ApplyRule(m, f, j - 1, s1);
    ApplyRuleFacts(m, text, f, j - 1, s1);
    assert Expand(m, f, j, s) == e;
    if e != s1 {
      assert e.stack[..|s.stack|] == s1.stack[..|s.stack|];
      forall i | |s.stack| <= i < |e.stack|
        ensures Child(m, text, f, e.stack[i])
      {
        if i < |s1.stack| {
          assert e.stack[i] == s1.stack[i];
        }
      }
      if Unvisited(m, text, e.visited) == Unvisited(m, text, s.visited) {
        forall i | |s.stack| <= i < |e.stack|
          ensures |e.stack[i].str| + 1 == |f.str|
        {
          if i < |s1.stack| {
            assert e.stack[i] == s1.stack[i];
          }
        }
      }
    }
  }

  // ----- the search loop -----

  /** The loop of `exec`: pop the top frame, record it at its depth in the
      path buffer, accept when it is final with no text left, and otherwise
      push what its state's rules allow, in list order.  An empty stack
      rejects. */
  function Run(m: Machine, text: string, s: Search, buf: seq<Elem>): Outcome
    requires WellFormed(m) && StackOk(m, text, s.stack, buf)
    decreases Unvisited(m, text, s.visited), Weight(m, s.stack), 1
  {
    if s.stack == [] then Rejected else Pop(m, text, s, buf)
  }

  function Pop(m: Machine, text: string, s: Search, buf: seq<Elem>): Outcome
    requires WellFormed(m) && StackOk(m, text, s.stack, buf) && s.stack != []
    decreases Unvisited(m, text, s.visited), Weight(m, s.stack), 0
  {
    var f := s.stack[|s.stack| - 1];
    var buf' := Write(buf, f.step, Elem(f.q, f.str));
    if m.isFinal[f.q] && f.str == [] then Accepted(buf', f.step)
    else
      var e := Expand(m, f, |m.rules[f.q]|, Search(s.stack[..|s.stack| - 1], s.visited));
      LoopStep(m, text, s, buf);
      Run(m, text, e, buf')
  }

  /** One non-accepting iteration keeps the frames in range and lowers the
      measure. */
  lemma LoopStep(m: Machine, text: string, s: Search, buf: seq<Elem>)
    requires WellFormed(m) && StackOk(m, text, s.stack, buf) && s.stack != []
    ensures var f := s.stack[|s.stack| - 1];
      var buf' := Write(buf, f.step, Elem(f.q, f.str));
      var e := Expand(m, f, |m.rules[f.q]|, Search(s.stack[..|s.stack| - 1], s.visited));
      && StackOk(m, text, e.stack, buf')
      && (Unvisited(m, text, e.visited) < Unvisited(m, text, s.visited)
          || (Unvisited(m, text, e.visited) == Unvisited(m, text, s.visited)
              && Weight(m, e.stack) < Weight(m, s.stack)))
  {
    var f := s.stack[|s.stack| - 1];
    var rest := s.stack[..|s.stack| - 1];
    var buf' := Write(buf, f.step, Elem(f.q, f.str));
    assert FrameOk(m, text, f, |buf|);
    var e := Expand(m, f, |m.rules[f.q]|, Search(rest, s.visited));
    ExpandFacts(m, text, f, |m.rules[f.q]|, Search(rest, s.visited));
    StepDecreases(m, text, f, s, e);
    forall i | 0 <= i < |e.stack|
      ensures FrameOk(m, text, e.stack[i], |buf'|)
    {
      if i < |rest| {
        assert e.stack[i] == s.stack[i];
        assert FrameOk(m, text, s.stack[i], |buf|);
      }
    }
  }

  lemma StepDecreases(m: Machine, text: string, f: Frame, s: Search, e: Search)
    requires s.stack != [] && f == s.stack[|s.stack| - 1] && 0 <= f.q < |m.rules|
    requires var rest := s.stack[..|s.stack| - 1];
      && Extends(rest, e.stack, |m.rules[f.q]|)
      && Unvisited(m, text, e.visited) <= Unvisited(m, text, s.visited)
      && (Unvisited(m, text, e.visited) == Unvisited(m, text, s.visited) ==>
            forall i :: |rest| <= i < |e.stack| ==> |e.stack[i].str| + 1 == |f.str|)
    ensures Unvisited(m, text, e.visited) < Unvisited(m, text, s.visited)
         || (Unvisited(m, text, e.visited) == Unvisited(m, text, s.visited)
             && Weight(m, e.stack) < Weight(m, s.stack))
  {
    var rest := s.stack[..|s.stack| - 1];
    if Unvisited(m, text, e.visited) == Unvisited(m, text, s.visited) {
      var news := e.stack[|rest|..];
      assert e.stack == rest + news;
      assert s.stack == rest + [f];
      forall i | 0 <= i < |news|
        ensures |news[i].str| + 1 == |f.str|
      {
        assert news[i] == e.stack[|rest| + i];
      }
      assert |m.rules[f.q]| <= Nfa3Spec.MaxLen(m.rules);
      WeightDrops(m, rest, news, f);
    }
  }

  /** What `exec` computes: the start frame (state 0, the whole text, depth
      0) is pushed and recorded in a fresh `Set`, with an empty path buffer,
      then the loop runs. */
  function ExecSpec(m: Machine, text: string): Outcome
    requires WellFormed(m)
  {
    Run(m, text, Search([Frame(0, text, 0)], Insert(map[], 0, text)), [])
  }

  // ----- soundness of the search -----

  lemma ChainExtend(m: Machine, c: seq<Elem>, t: Elem)
    requires Chain(m, c) && |c| >= 1 && StepOk(m, c[|c| - 1], t)
    ensures Chain(m, c + [t])
  {
    var d := c + [t];
    forall i | 0 <= i < |d| - 1
      ensures StepOk(m, d[i], d[i + 1])
    {
      if i < |c| - 1 {
        assert d[i] == c[i] && d[i + 1] == c[i + 1];
      }
    }
  }

  lemma ChainPrefix(m: Machine, c: seq<Elem>, n: nat)
    requires Chain(m, c) && n <= |c|
    ensures Chain(m, c[..n])
  {
    forall i | 0 <= i < n - 1
      ensures StepOk(m, c[..n][i], c[..n][i + 1])
    {
      assert c[..n][i] == c[i] && c[..n][i + 1] == c[i + 1];
    }
  }

  /** The frame a stack element stands for extends the run recorded below
      its depth. */
  ghost predicate Rooted(m: Machine, text: string, g: Frame, buf: seq<Elem>)
  {
    && g.step <= |buf|
    && (g.step == 0 ==> g.q == 0 && g.str == text)
    && (g.step > 0 ==> ChainFrom(m, text, buf[..g.step]) && StepOk(m, buf[g.step - 1], Elem(g.q, g.str)))
  }

  /** Recording a popped frame at its depth completes a run ending in it. */
  lemma RecordFrame(m: Machine, text: string, g: Frame, buf: seq<Elem>)
    requires Rooted(m, text, g, buf)
    ensures ChainFrom(m, text, Write(buf, g.step, Elem(g.q, g.str))[..g.step + 1])
  {
    var b := Write(buf, g.step, Elem(g.q, g.str));
    assert b[..g.step + 1] == b[..g.step] + [Elem(g.q, g.str)];
    if g.step > 0 {
      assert b[..g.step] == buf[..g.step];
      ChainExtend(m, buf[..g.step], Elem(g.q, g.str));
    }
  }

  /** A frame deeper in the stack stays rooted once the top frame is recorded. */
  lemma RootedAfterWrite(m: Machine, text: string, g: Frame, f: Frame, buf: seq<Elem>)
    requires Rooted(m, text, g, buf) && g.step <= f.step <= |buf|
    ensures Rooted(m, text, g, Write(buf, f.step, Elem(f.q, f.str)))
  {
    var b := Write(buf, f.step, Elem(f.q, f.str));
    assert b[..g.step] == buf[..g.step];
    if g.step > 0 {
      assert b[g.step - 1] == buf[g.step - 1];
    }
  }

  /** An accepting outcome: the path buffer up to the accepting depth is a
      run from state 0 over the whole text that ends in a final state with
      no text left. */
  ghost predicate Found(m: Machine, text: string, o: Outcome)
    requires o.Accepted?
  {
    && o.step < |o.buffer|
    && ChainFrom(m, text, o.buffer[..o.step + 1])
    && 0 <= o.buffer[o.step].q < |m.isFinal|
    && m.isFinal[o.buffer[o.step].q]
    && o.buffer[o.step].str == []
  }

  /** What holds of every search state the loop reaches: the frames are in
      range and rooted in the buffer, and depths grow towards the top. */
  ghost predicate Invariant(m: Machine, text: string, s: Search, buf: seq<Elem>)
  {
    && WellFormed(m) && StackOk(m, text, s.stack, buf)
    && (forall i :: 0 <= i < |s.stack| ==> Rooted(m, text, s.stack[i], buf))
    && (forall i, j :: 0 <= i < j < |s.stack| ==> s.stack[i].step <= s.stack[j].step)
  }

  lemma KeepFrame(m: Machine, text: string, s: Search, buf: seq<Elem>, e: Search, i: int)
    requires Invariant(m, text, s, buf) && s.stack != []
    requires var f := s.stack[|s.stack| - 1];
      && |s.stack| - 1 <= |e.stack| && e.stack[..|s.stack| - 1] == s.stack[..|s.stack| - 1]
      && (forall k :: |s.stack| - 1 <= k < |e.stack| ==> Child(m, text, f, e.stack[k]))
    requires 0 <= i < |e.stack|
    ensures var f := s.stack[|s.stack| - 1];
      var buf' := Write(buf, f.step, Elem(f.q, f.str));
      && FrameOk(m, text, e.stack[i], |buf'|)
      && Rooted(m, text, e.stack[i], buf')
      && (i < |s.stack| - 1 ==> e.stack[i].step <= f.step)
      && (i >= |s.stack| - 1 ==> e.stack[i].step == f.step + 1)
  {
    var f := s.stack[|s.stack| - 1];
    var buf' := Write(buf, f.step, Elem(f.q, f.str));
    var g := e.stack[i];
    assert FrameOk(m, text, f, |buf|);
    if i < |s.stack| - 1 {
      assert g == s.stack[..|s.stack| - 1][i] == s.stack[i];
      assert s.stack[i].step <= s.stack[|s.stack| - 1].step;
      RootedAfterWrite(m, text, g, f, buf);
      assert FrameOk(m, text, s.stack[i], |buf|);
    } else {
      RecordFrame(m, text, f, buf);
      assert Child(m, text, f, g);
      assert buf'[..g.step] == buf'[..f.step + 1];
      assert buf'[g.step - 1] == Elem(f.q, f.str);
    }
  }

  /** One non-accepting iteration keeps the invariant. */
  lemma ExpandKeeps(m: Machine, text: string, s: Search, buf: seq<Elem>)
    requires Invariant(m, text, s, buf) && s.stack != []
    ensures var f := s.stack[|s.stack| - 1];
      var e := Expand(m, f, |m.rules[f.q]|, Search(s.stack[..|s.stack| - 1], s.visited));
      Invariant(m, text, e, Write(buf, f.step, Elem(f.q, f.str)))
  {
    var f := s.stack[|s.stack| - 1];
    var rest := s.stack[..|s.stack| - 1];
    var buf' := Write(buf, f.step, Elem(f.q, f.str));
    assert FrameOk(m, text, f, |buf|);
    var e := Expand(m, f, |m.rules[f.q]|, Search(rest, s.visited));
    ExpandFacts(m, text, f, |m.rules[f.q]|, Search(rest, s.visited));
    assert e.stack == rest + e.stack[|rest|..];
    forall i | 0 <= i < |e.stack|
      ensures FrameOk(m, text, e.stack[i], |buf'|)
      ensures Rooted(m, text, e.stack[i], buf')
      ensures i < |rest| ==> e.stack[i].step <= f.step
      ensures i >= |rest| ==> e.stack[i].step == f.step + 1
    {
      KeepFrame(m, text, s, buf, e, i);
    }
  }

  /** `Run` returns only runs from state 0 over the whole text that end in
      a final state with nothing left to read. */
  lemma {:induction false} RunSound(m: Machine, text: string, s: Search, buf: seq<Elem>)
    requires Invariant(m, text, s, buf)
    ensures var o := Run(m, text, s, buf);
      o.Accepted? ==> Found(m, text, o)
    decreases Unvisited(m, text, s.visited), Weight(m, s.stack)
  {
    if s.stack != [] {
      assert Run(m, text, s, buf) == Pop(m, text, s, buf);
      var f := s.stack[|s.stack| - 1];
      var buf' := Write(buf, f.step, Elem(f.q, f.str));
      assert Rooted(m, text, f, buf);
      if m.isFinal[f.q] && f.str == [] {
        RecordFrame(m, text, f, buf);
      } else {
        var e := Expand(m, f, |m.rules[f.q]|, Search(s.stack[..|s.stack| - 1], s.visited));
        LoopStep(m, text, s, buf);
        ExpandKeeps(m, text, s, buf);
        assert Run(m, text, s, buf) == Run(m, text, e, buf');
        RunSound(m, text, e, buf');
      }
    }
  }

  /** An accepted search ends in a recorded run from state 0 over the whole
      text, in a final state with nothing left to read. */
  lemma ExecSound(m: Machine, text: string)
    requires WellFormed(m)
    ensures var o := ExecSpec(m, text);
      o.Accepted? ==> Found(m, text, o)
  {
    RunSound(m, text, Search([Frame(0, text, 0)], Insert(map[], 0, text)), []);
  }

  // ----- backtrace -----

  /** What one path step consumed: "" when both remainders agree, otherwise
      the first character of the earlier one (`substr(0, 1)`). */
  function Hop(x: Elem, y: Elem): (h: string)
    ensures |h| <= 1
  {
    if x.str == y.str then "" else x.str[..if |x.str| == 0 then 0 else 1]
  }

  function Consumes(c: seq<Elem>): seq<string>
    decreases |c|
  {
    if |c| < 2 then [] else Consumes(c[..|c| - 1]) + [Hop(c[|c| - 2], c[|c| - 1])]
  }

  function StatesOf(c: seq<Elem>): seq<int>
  {
    seq(|c|, i requires 0 <= i < |c| => c[i].q)
  }

  /** The path `backtrace` builds from the buffer elements `c`. */
  function BacktracePath(c: seq<Elem>): Path
  {
    Path(StatesOf(c), Consumes(c))
  }

  /** Whatever elements it is built from, a path has one consumed string per
      step, none longer than one character, so it spells at most as many
      characters as it has steps (the length check of `operator<<`). */
  lemma {:induction false} PathShape(c: seq<Elem>)
    requires |c| >= 1
    ensures |BacktracePath(c).consumes| == |BacktracePath(c).states| - 1
    ensures |Concat(BacktracePath(c).consumes)| <= |c| - 1
    decreases |c|
  {
    if |c| >= 2 {
      PathShape(c[..|c| - 1]);
    }
    var cs := Consumes(c);
    forall i | 0 <= i < |cs|
      ensures |cs[i]| <= 1
    {
      ConsumesShort(c, i);
    }
    ConcatLength(cs);
  }

  lemma {:induction false} ConsumesShort(c: seq<Elem>, i: nat)
    requires i < |Consumes(c)|
    ensures |Consumes(c)[i]| <= 1
    decreases |c|
  {
    if i < |Consumes(c[..|c| - 1])| {
      ConsumesShort(c[..|c| - 1], i);
    }
  }

  lemma {:induction false} ConsumesLength(c: seq<Elem>)
    ensures |Consumes(c)| == if |c| == 0 then 0 else |c| - 1
    decreases |c|
  {
    if |c| >= 2 {
      ConsumesLength(c[..|c| - 1]);
    }
  }

  /** A step reads what its hop records: the earlier remainder is the hop
      followed by the later one. */
  lemma HopSplits(m: Machine, x: Elem, y: Elem)
    requires StepOk(m, x, y)
    ensures x.str == Hop(x, y) + y.str
  {
    var k :| 0 <= k < |m.rules[x.q]| && RuleStep(m, x, k, y);
    if m.rules[x.q][k].kind != Epsilon {
      assert x.str == x.str[..1] + x.str[1..];
    }
  }

  lemma AppendAssoc(a: string, b: string, c: string)
    ensures (a + b) + c == a + (b + c)
  {
  }

  /** Along a run from state 0 each step reads nothing or the first
      remaining character, so what the steps consumed followed by what is
      left is the whole text. */
  lemma {:induction false} ConsumesOfChain(m: Machine, text: string, c: seq<Elem>)
    requires ChainFrom(m, text, c)
    ensures Concat(Consumes(c)) + c[|c| - 1].str == text
    decreases |c|
  {
    if |c| >= 2 {
      var d := c[..|c| - 1];
      ChainPrefix(m, c, |c| - 1);
      ConsumesOfChain(m, text, d);
      var x, y := c[|c| - 2], c[|c| - 1];
      assert d[|d| - 1] == x;
      HopSplits(m, x, y);
      ConcatAppend(Consumes(d), Hop(x, y));
      AppendAssoc(Concat(Consumes(d)), Hop(x, y), y.str);
    }
  }

  /** The soundness of an accepted search: the path up to the accepting
      depth starts in state 0, ends in a final state, has one consumed string
      per step, and what it consumed is the whole text. */
  lemma AcceptedPath(m: Machine, text: string, o: Outcome)
    requires o.Accepted? && Found(m, text, o)
    ensures var path := BacktracePath(o.buffer[..o.step + 1]);
      && |path.states| == o.step + 1 && path.states[0] == 0
      && m.isFinal[path.states[o.step]]
      && |path.consumes| == |path.states| - 1
      && Concat(path.consumes) == text
  {
    var c := o.buffer[..o.step + 1];
    ConsumesOfChain(m, text, c);
    ConsumesLength(c);
    assert c[|c| - 1] == o.buffer[o.step];
    assert Concat(Consumes(c)) + [] == Concat(Consumes(c));
  }

  /** How far `backtrace`'s walk gets: up to the first element whose state is
      the sentinel -1, or the end of what was ever written (the rest of the
      source's buffer holds the sentinel). */
  function SentinelSize(path: seq<Elem>): (n: nat)
    ensures n <= |path|
    ensures forall i :: 0 <= i < n ==> path[i].q != -1
    ensures n < |path| ==> path[n].q == -1
  {
    if path == [] || path[0].q == -1 then 0
    else
      var n := SentinelSize(path[1..]);
      assert forall i :: 0 < i <= n ==> path[i] == path[1..][i - 1];
      1 + n
  }

  // ----- findings -----

  /** ε from 0 into the final state 1 and into 2, and ε from 2 into the dead
      end 3. */
  function StaleMachine(): (m: Machine)
    ensures WellFormed(m)
  {
    Machine([[Eps(1), Eps(2)], [], [Eps(3)], []], [false, true, false, false])
  }

  /** The search on the empty text tries 2 first (listed last), goes on to 3
      at depth 2, and then accepts 1 at depth 1.  The buffer still holds 3
      at depth 2, so the sentinel walk returns the path 0, 1, 3, whose last
      step is no step of the automaton and whose end is not final, where the
      accepted run is 0, 1. */
  lemma StaleBacktrace()
    ensures var m := StaleMachine();
      var o := ExecSpec(m, "");
      && o == Accepted([Elem(0, ""), Elem(1, ""), Elem(3, "")], 1)
      && BacktracePath(o.buffer[..SentinelSize(o.buffer)]) == Path([0, 1, 3], ["", ""])
      && !StepOk(m, o.buffer[1], o.buffer[2]) && !m.isFinal[3]
      && BacktracePath(o.buffer[..o.step + 1]) == Path([0, 1], [""])
  {
    var m := StaleMachine();
    var b4 := [Elem(0, ""), Elem(1, ""), Elem(3, "")];
    StaleRun();
    assert SentinelSize(b4) == 3;
    assert b4[..3] == b4;
    assert !StepOk(m, b4[1], b4[2]);
    assert b4[..2] == [Elem(0, ""), Elem(1, "")];
    assert b4[..2][..1] == [Elem(0, "")];
    assert Consumes(b4[..2]) == [""];
    assert Consumes(b4) == ["", ""];
  }

  /** The search of the finding, pop by pop: 0, then 2, then 3, then 1. */
  lemma StaleRun()
    ensures ExecSpec(StaleMachine(), "") == Accepted([Elem(0, ""), Elem(1, ""), Elem(3, "")], 1)
  {
    var m := StaleMachine();
    var v0 := Insert(map[], 0, "");
    var v1 := Insert(Insert(v0, 1, ""), 2, "");
    var v2 := Insert(v1, 3, "");
    var e0 := Search([Frame(1, "", 1), Frame(2, "", 1)], v1);
    var e1 := Search([Frame(1, "", 1), Frame(3, "", 2)], v2);
    var e2 := Search([Frame(1, "", 1)], v2);
    var b1 := [Elem(0, "")];
    var b2 := [Elem(0, ""), Elem(2, "")];
    var b3 := [Elem(0, ""), Elem(2, ""), Elem(3, "")];
    StaleFirst(m, v0, v1, b1, e0);
    StaleSecond(m, v1, v2, e0, b1, e1, b2);
    StaleThird(m, e1, b2, e2, b3);
    StaleLast(m, e2, b3);
  }

  lemma StaleFirst(m: Machine, v0: Visited, v1: Visited, b1: seq<Elem>, e0: Search)
    requires m == StaleMachine() && v0 == Insert(map[], 0, "") && v1 == Insert(Insert(v0, 1, ""), 2, "")
    requires b1 == [Elem(0, "")] && e0 == Search([Frame(1, "", 1), Frame(2, "", 1)], v1)
    ensures StackOk(m, "", e0.stack, b1) && ExecSpec(m, "") == Run(m, "", e0, b1)
  {
    var f0 := Frame(0, "", 0);
    assert Expand(m, f0, 1, Search([], v0)) == Search([Frame(1, "", 1)], Insert(v0, 1, ""));
    assert Expand(m, f0, 2, Search([], v0)) == e0;
    assert Pop(m, "", Search([f0], v0), []) == Run(m, "", e0, b1);
  }

  lemma StaleSecond(m: Machine, v1: Visited, v2: Visited, e0: Search, b1: seq<Elem>, e1: Search, b2: seq<Elem>)
    requires m == StaleMachine() && v2 == Insert(v1, 3, "") && Seen(v1, 3) == {}
    requires b1 == [Elem(0, "")] && e0 == Search([Frame(1, "", 1), Frame(2, "", 1)], v1)
    requires b2 == [Elem(0, ""), Elem(2, "")] && e1 == Search([Frame(1, "", 1), Frame(3, "", 2)], v2)
    ensures StackOk(m, "", e0.stack, b1) && StackOk(m, "", e1.stack, b2)
    ensures Run(m, "", e0, b1) == Run(m, "", e1, b2)
  {
    assert Expand(m, Frame(2, "", 1), 1, Search([Frame(1, "", 1)], v1)) == e1;
    assert e0.stack[..1] == [Frame(1, "", 1)];
    assert Write(b1, 1, Elem(2, "")) == b2;
    assert Pop(m, "", e0, b1) == Run(m, "", e1, b2);
  }

  lemma StaleThird(m: Machine, e1: Search, b2: seq<Elem>, e2: Search, b3: seq<Elem>)
    requires m == StaleMachine() && e2.stack == [Frame(1, "", 1)] && e1 == Search([Frame(1, "", 1), Frame(3, "", 2)], e2.visited)
    requires b2 == [Elem(0, ""), Elem(2, "")] && b3 == [Elem(0, ""), Elem(2, ""), Elem(3, "")]
    ensures StackOk(m, "", e1.stack, b2) && StackOk(m, "", e2.stack, b3)
    ensures Run(m, "", e1, b2) == Run(m, "", e2, b3)
  {
    assert e1.stack[..1] == [Frame(1, "", 1)];
    assert Write(b2, 2, Elem(3, "")) == b3;
    assert Pop(m, "", e1, b2) == Run(m, "", e2, b3);
  }

  lemma StaleLast(m: Machine, e2: Search, b3: seq<Elem>)
    requires m == StaleMachine() && e2.stack == [Frame(1, "", 1)] && b3 == [Elem(0, ""), Elem(2, ""), Elem(3, "")]
    ensures StackOk(m, "", e2.stack, b3)
    ensures Run(m, "", e2, b3) == Accepted([Elem(0, ""), Elem(1, ""), Elem(3, "")], 1)
  {
    assert Write(b3, 1, Elem(1, "")) == [Elem(0, ""), Elem(1, ""), Elem(3, "")];
  }

  /** The first version's `NFA`: its rule lists and final flags.  `exec`
      keeps its stack, `Set` and path buffer in locals. */
  class Nfa {
    var rules: seq<seq<Rule>>
    var isFinal: seq<bool>

    constructor ()
      ensures rules == [] && isFinal == []
    {
      rules := [];
      isFinal := [];
    }

    function AsMachine(): Machine
      reads this`rules, this`isFinal
    {
      Machine(rules, isFinal)
    }

    /** `backtrace` as written: the path over the buffer up to the first
        sentinel element, however deep the accepting frame was. */
    method Backtrace(path: seq<Elem>) returns (r: Path)
      ensures r == BacktracePath(path[..SentinelSize(path)])
    {
      var size := 0;
      while size < |path| && path[size].q != -1
        invariant 0 <= size <= |path|
        invariant forall i :: 0 <= i < size ==> path[i].q != -1
      {
        size := size + 1;
      }
      assert size == SentinelSize(path);
      r := PathOf(path, size);
    }

    /** The path over the buffer up to the accepting depth `step`. */
    method BacktraceTo(path: seq<Elem>, step: nat) returns (r: Path)
      requires step < |path|
      ensures r == BacktracePath(path[..step + 1])
    {
      r := PathOf(path, step + 1);
    }

    /** The loop of `backtrace` over the first `size` buffer elements: each
        state, and between each two the consumed string. */
    method PathOf(path: seq<Elem>, size: nat) returns (r: Path)
      requires size <= |path|
      ensures r == BacktracePath(path[..size])
    {
      var states: seq<int> := [];
      var consumes: seq<string> := [];
      for i := 0 to size
        invariant states == StatesOf(path[..i])
        invariant consumes == Consumes(path[..if i < size then i + 1 else size])
      {
        states := states + [path[i].q];
        if i < size - 1 {
          var h := if path[i].str == path[i + 1].str then "" else path[i].str[..if |path[i].str| == 0 then 0 else 1];
          assert path[..i + 2][..i + 1] == path[..i + 1];
          consumes := consumes + [h];
        }
        assert path[..i + 1][..i] == path[..i];
      }
      assert path[..size] == path[..size];
      r := Path(states, consumes);
    }

    /** The rule loop of `exec` for popped frame `t`: each rule of `t.q`, in
        list order, pushes its frame when it applies. */
    method PushSuccessors(t: Frame, stack: seq<Frame>, visited: Visited) returns (stack': seq<Frame>, visited': Visited)
      requires WellFormed(AsMachine()) && 0 <= t.q < |rules|
      ensures Search(stack', visited') == Expand(AsMachine(), t, |rules[t.q]|, Search(stack, visited))
    {
      stack', visited' := stack, visited;
      for k := 0 to |rules[t.q]|
        invariant Search(stack', visited') == Expand(AsMachine(), t, k, Search(stack, visited))
      {
        var rule := rules[t.q][k];
        if rule.kind == Epsilon {
          if t.str !in Seen(visited', rule.dst) {
            stack' := stack' + [Frame(rule.dst, t.str, t.step + 1)];
            visited' := Insert(visited', rule.dst, t.str);
          }
        } else if Matches(rule, At0(t.str)) && t.str != [] {
          stack' := stack' + [Frame(rule.dst, t.str[1..], t.step + 1)];
          visited' := Insert(visited', rule.dst, t.str[1..]);
        }
      }
    }

    /** One pass of the stack loop: the top frame is popped and recorded at
        its depth; a final frame with no text left accepts, any other has its
        successors pushed. */
    method ScanStep(ghost text: string, stack: seq<Frame>, visited: Visited, path: seq<Elem>)
      returns (stack': seq<Frame>, visited': Visited, path': seq<Elem>, accept: bool, step: nat)
      requires WellFormed(AsMachine()) && StackOk(AsMachine(), text, stack, path) && stack != []
      ensures accept ==> Run(AsMachine(), text, Search(stack, visited), path) == Accepted(path', step)
      ensures !accept ==>
        && StackOk(AsMachine(), text, stack', path')
        && Run(AsMachine(), text, Search(stack', visited'), path') == Run(AsMachine(), text, Search(stack, visited), path)
      ensures !accept ==>
        || Unvisited(AsMachine(), text, visited') < Unvisited(AsMachine(), text, visited)
        || (Unvisited(AsMachine(), text, visited') == Unvisited(AsMachine(), text, visited)
            && Weight(AsMachine(), stack') < Weight(AsMachine(), stack))
    {
      ghost var s := Search(stack, visited);
      var t := stack[|stack| - 1];
      assert FrameOk(AsMachine(), text, t, |path|);
      assert Run(AsMachine(), text, s, path) == Pop(AsMachine(), text, s, path);
      stack' := stack[..|stack| - 1];
      visited' := visited;
      path' := Write(path, t.step, Elem(t.q, t.str));
      step := t.step;
      accept := isFinal[t.q] && t.str == [];
      if !accept {
        LoopStep(AsMachine(), text, s, path);
        stack', visited' := PushSuccessors(t, stack', visited);
      }
    }

    /** The stack loop of `exec`, from state 0 with the whole text: it
        computes `ExecSpec`. */
    method Scan(text: string) returns (o: Outcome)
      requires WellFormed(AsMachine())
      ensures o == ExecSpec(AsMachine(), text)
    {
      var stack := [Frame(0, text, 0)];
      var visited := Insert(map[], 0, text);
      var path: seq<Elem> := [];
      while stack != []
        invariant StackOk(AsMachine(), text, stack, path)
        invariant Run(AsMachine(), text, Search(stack, visited), path) == ExecSpec(AsMachine(), text)
        decreases Unvisited(AsMachine(), text, visited), Weight(AsMachine(), stack)
      {
        var accept, step;
        stack, visited, path, accept, step := ScanStep(text, stack, visited, path);
        if accept {
          return Accepted(path, step);
        }
      }
      return Rejected;
    }

    /** `exec`: the search, and on acceptance the path up to the accepting
        depth.  That path starts in state 0, ends in a final state and spells
        the whole text. */
    method Exec(text: string) returns (r: Path)
      requires WellFormed(AsMachine())
      ensures var o := ExecSpec(AsMachine(), text);
        && (o.Rejected? ==> r == Reject)
        && (o.Accepted? ==> o.step < |o.buffer| && r == BacktracePath(o.buffer[..o.step + 1]))
      ensures r != Reject ==>
        && |r.states| >= 1 && r.states[0] == 0
        && 0 <= r.states[|r.states| - 1] < |isFinal| && isFinal[r.states[|r.states| - 1]]
        && |r.consumes| == |r.states| - 1
        && Concat(r.consumes) == text
    {
      var o := Scan(text);
      ExecSound(AsMachine(), text);
      if o.Accepted? {
        AcceptedPath(AsMachine(), text, o);
        r := BacktraceTo(o.buffer, o.step);
      } else {
        r := Reject;
      }
    }
  }
}
