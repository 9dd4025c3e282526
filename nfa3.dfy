/** The `NFA` object of the final version: its rule lists, final flags, the
    capture-span tables the compiler fills, the scan offset `p`, the `Set`
    of visited (state, offset) pairs that survives from one `exec` call to the
    next, and the `m`/`s` flags.  `Exec` and `Backtrace` are the executor's
    loops, each proved to compute what `Nfa3Spec` describes. */
module Nfa3 {
  import opened Automaton
  import opened Nfa3Spec

  lemma ConsumesStep(text: string, path: seq<Trace>, i: nat)
    requires i + 1 < |path|
    ensures Consumes(text, path[..i + 2]) == Consumes(text, path[..i + 1]) + Hop(text, path[i], path[i + 1])
  {
    var c := path[..i + 2];
    assert c[..i + 1] == path[..i + 1] && c[i] == path[i] && c[i + 1] == path[i + 1];
  }

  lemma StatesStep(path: seq<Trace>, i: nat)
    requires i < |path|
    ensures StatesOf(path[..i + 1]) == StatesOf(path[..i]) + [path[i].q]
  {
  }

  class Nfa {
    var rules: seq<seq<Rule>>
    var numStates: int
    var isFinal: seq<bool>
    /** Number of capture groups allocated so far. */
    var groupNum: int
    /** For each capture group, the (entry, exit) state pairs of its
        compiled occurrences; a missing group has none. */
    var group: map<int, seq<(int, int)>>
    /** The offset the next search starts from. */
    var p: int
    /** The source's `Set`. */
    var visited: Visited
    var flagM: bool
    var flagS: bool
    var fullText: string

    /** A fresh automaton: no states, no groups, nothing visited. */
    constructor ()
      ensures rules == [] && numStates == 0 && isFinal == []
      ensures groupNum == 0 && group == map[] && p == 0 && visited == map[]
      ensures !flagM && !flagS && fullText == ""
    {
      rules := [];
      numStates := 0;
      isFinal := [];
      groupNum := 0;
      group := map[];
      p := 0;
      visited := map[];
      flagM := false;
      flagS := false;
      fullText := "";
    }

    /** `num_states++`: one more state, with an empty rule list. */
    method AddState()
      modifies this`rules, this`numStates
      ensures rules == old(rules) + [[]] && numStates == old(numStates) + 1
    {
      rules := rules + [[]];
      numStates := numStates + 1;
    }

    /** Appends `r` to the rules of state `q`. */
    method PushBack(q: int, r: Rule)
      requires 0 <= q < |rules|
      modifies this`rules
      ensures rules == old(rules)[q := old(rules)[q] + [r]]
    {
      rules := rules[q := rules[q] + [r]];
    }

    /** Inserts `r` in front of the rules of state `q`. */
    method PushFront(q: int, r: Rule)
      requires 0 <= q < |rules|
      modifies this`rules
      ensures rules == old(rules)[q := [r] + old(rules)[q]]
    {
      rules := rules[q := [r] + rules[q]];
    }

    /** Appends an occurrence to the spans of group `i`. */
    method AddSpan(i: int, span: (int, int))
      modifies this`group
      ensures group == old(group)[i := old(Spans(i)) + [span]]
    {
      group := group[i := Spans(i) + [span]];
    }

    /** The automaton the search runs on. */
    function AsMachine(): Machine
      reads this`rules, this`isFinal, this`flagM, this`flagS
    {
      Machine(rules, isFinal, flagM, flagS)
    }

    /** The occurrences recorded for group `i`. */
    function Spans(i: int): seq<(int, int)>
      reads this`group
    {
      if i in group then group[i] else []
    }

    /** Rebuilds the path from the first `step` buffer elements and leaves
        the end offset of the last of them in `p`. */
    method Backtrace(path: seq<Trace>, step: nat) returns (r: Path)
      requires 1 <= step <= |path|
      modifies this`p
      ensures r == BacktracePath(fullText, path[..step])
      ensures p == path[step - 1].index
    {
      p := path[step - 1].index;
      var states: seq<int> := [];
      var consumes: seq<string> := [];
      var i := 0;
      while i < step
        invariant 0 <= i <= step && p == path[step - 1].index
        invariant states == StatesOf(path[..i])
        invariant consumes == Consumes(fullText, path[..if i < step then i + 1 else step])
      {
        states := states + [path[i].q];
        if i < step - 1 {
          consumes := AppendHop(path, i, consumes);
          ConsumesStep(fullText, path, i);
        }
        StatesStep(path, i);
        i := i + 1;
      }
      assert path[..step] == path[..i];
      r := Path(states, consumes);
    }

    /** The consumed text between path elements `i` and `i + 1`, appended:
        "" for an epsilon step, the character at offset `path[i].index` for
        a consuming one. */
    method AppendHop(path: seq<Trace>, i: nat, consumes: seq<string>) returns (c: seq<string>)
      requires i + 1 < |path|
      ensures c == consumes + Hop(fullText, path[i], path[i + 1])
    {
      c := consumes;
      if path[i].index == path[i + 1].index {
        c := c + [""];
      } else if 0 <= path[i].index < |fullText| {
        assert fullText[path[i].index..path[i].index + 1] == [fullText[path[i].index]];
        c := c + [fullText[path[i].index..path[i].index + 1]];
      }
    }

    /** The rule loop of `exec` for popped frame `t`: each rule of `t.q`, in
        list order, pushes its frame when its guard passes. */
    method PushSuccessors(t: Frame, stack: seq<Frame>) returns (stack': seq<Frame>)
      requires Fits(AsMachine(), fullText) && 0 <= t.q < |rules| && 0 <= t.index <= |fullText|
      modifies this`visited
      ensures Search(stack', visited) ==
        Expand(AsMachine(), fullText, t, |rules[t.q]|, Search(stack, old(visited)))
    {
      ghost var m := AsMachine();
      stack' := stack;
      var k := 0;
      while k < |rules[t.q]|
        invariant 0 <= k <= |rules[t.q]| && m == AsMachine()
        invariant Search(stack', visited) == Expand(m, fullText, t, k, Search(stack, old(visited)))
      {
        var rule := rules[t.q][k];
        if rule.kind == Epsilon {
          if t.index in Seen(visited, rule.dst) {
          } else if rule.guard.sym != "" && !AnchorOk(rule.guard.sym, t.index, fullText, flagM) {
          } else {
            stack' := stack' + [Frame(rule.dst, t.index, t.step + 1)];
            visited := Insert(visited, rule.dst, t.index);
          }
        } else if t.index < |fullText| && Matches(rule, fullText[t.index], flagS) {
          stack' := stack' + [Frame(rule.dst, t.index + 1, t.step + 1)];
          visited := Insert(visited, rule.dst, t.index + 1);
        }
        k := k + 1;
      }
    }

    /** The stack loop of `exec`: from a stack holding only state 0 at `p`,
        pops frames until one is final (accepting with the path buffer and
        that frame's depth) or the stack runs out (rejecting).  It computes
        exactly `ExecSpec`, including the `Set` it leaves behind. */
    method Scan() returns (o: Outcome)
      requires Fits(AsMachine(), fullText) && 0 <= p <= |fullText|
      modifies this`visited
      ensures (o, visited) == ExecSpec(AsMachine(), fullText, old(visited), p)
    {
      ghost var m := AsMachine();
      ghost var v0 := visited;
      var stack := [Frame(0, p, 0)];
      visited := Insert(visited, 0, p);
      var path: seq<Trace> := [];
      while stack != []
        invariant m == AsMachine()
        invariant StackOk(m, fullText, stack, path)
        invariant Run(m, fullText, Search(stack, visited), path) == ExecSpec(m, fullText, v0, p)
        decreases Unvisited(m, fullText, visited), Weight(m, fullText, stack)
      {
        var accept, step;
        stack, path, accept, step := ScanStep(m, stack, path);
        if accept {
          return Accepted(path, step);
        }
      }
      return Rejected;
    }

    /** One pass of the stack loop: the top frame `t` is popped and recorded
        at its depth in the path buffer; a final `t` accepts, any other has
        its successors pushed, and the run goes on from there with a lower
        measure. */
    method ScanStep(ghost m: Machine, stack: seq<Frame>, path: seq<Trace>)
      returns (stack': seq<Frame>, path': seq<Trace>, accept: bool, step: nat)
      requires m == AsMachine() && Fits(m, fullText) && StackOk(m, fullText, stack, path) && stack != []
      modifies this`visited
      ensures accept ==> Run(m, fullText, Search(stack, old(visited)), path) == (Accepted(path', step), visited)
      ensures !accept ==>
        && StackOk(m, fullText, stack', path')
        && Run(m, fullText, Search(stack', visited), path') == Run(m, fullText, Search(stack, old(visited)), path)
      ensures !accept ==>
        || Unvisited(m, fullText, visited) < Unvisited(m, fullText, old(visited))
        || (Unvisited(m, fullText, visited) == Unvisited(m, fullText, old(visited))
            && Weight(m, fullText, stack') < Weight(m, fullText, stack))
    {
      ghost var s := Search(stack, visited);
      var t := stack[|stack| - 1];
      RunAccept(m, fullText, s, path);
      stack' := stack[..|stack| - 1];
      path' := Write(path, t.step, Trace(t.q, t.index));
      step := t.step;
      accept := isFinal[t.q];
      if !accept {
        RunNext(m, fullText, s, path);
        stack' := PushSuccessors(t, stack');
      }
    }

    /** Runs the automaton on `text` from offset `p`: the outcome of `Scan`,
        turned into a path by `Backtrace` when it accepts, so that the result,
        the new `p` and the new `Set` are those `ExecSpec` describes (whose
        accepted paths `ExecOutcome` characterises). */
    method Exec(text: string) returns (r: Path)
      requires Fits(AsMachine(), text) && 0 <= p <= |text| && !isFinal[0]
      modifies this`fullText, this`visited, this`p
      ensures fullText == text
      ensures var (o, v) := ExecSpec(AsMachine(), text, old(visited), old(p));
        && visited == v
        && (o.Rejected? ==> r == Reject && p == old(p))
        && (o.Accepted? ==>
              && 1 <= o.step <= |o.buffer|
              && r == BacktracePath(text, o.buffer[..o.step])
              && p == o.buffer[o.step - 1].index)
    {
      ExecDepth(AsMachine(), text, visited, p);
      fullText := text;
      var o := Scan();
      if o.Accepted? {
        r := Backtrace(o.buffer, o.step);
      } else {
        r := Reject;
      }
    }
  }
}
