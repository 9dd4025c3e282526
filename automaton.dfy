/** The automaton vocabulary shared by every version of the engine: the
    `Rule` record each state's ordered rule list holds, and the `Path` an
    executor hands back. */
module Automaton {

  datatype RuleType = Epsilon | Normal | Range | Special | Group

  /** What a rule tests besides its type.  `sym` is the source's `by`: the
      literal (NORMAL), the range's low end (RANGE), the class letter or "."
      (SPECIAL), or the anchor tag "^", "$", "b", "B" of an EPSILON rule (""
      for a plain epsilon move); `hi` is the source's `to`, a range's high end;
      `table` is the source's `in`, a GROUP rule's 129-slot membership table. */
  datatype Guard = Guard(sym: string, hi: string, table: seq<bool>)

  /** The guard of a plain epsilon move: nothing to test. */
  const Unguarded: Guard := Guard("", "", [])

  /** One transition (the source's `Rule`): its target state, its type and
      its guard. */
  datatype Rule = Rule(dst: int, kind: RuleType, guard: Guard)

  /** A plain epsilon rule into `dst`. */
  function Eps(dst: int): Rule
  {
    Rule(dst, Epsilon, Unguarded)
  }

  /** A SPECIAL rule into `dst` testing the class letter (or ".") `sym`. */
  function ClassRule(dst: int, sym: string): Rule
  {
    Rule(dst, Special, Guard(sym, "", []))
  }

  /** The states visited and, between each two, what was consumed. */
  datatype Path = Path(states: seq<int>, consumes: seq<string>)

  /** The rejecting path: no states at all. */
  const Reject: Path := Path([], [])

  /** `s[0]` of a std::string: the first character, or the terminating NUL
      when the string is empty. */
  function At0(s: string): char
  {
    if |s| > 0 then s[0] else '\0'
  }

  // ----- the search state shared by both executors -----

  /** What the source's `Set` array holds for state `q`: the keys already
      pushed into it (text offsets in the final version, remaining texts in
      the first); a state without an entry has an empty set. */
  function Seen<K>(v: map<int, set<K>>, q: int): set<K>
  {
    if q in v then v[q] else {}
  }

  /** `Set[q].insert(k)`. */
  function Insert<K>(v: map<int, set<K>>, q: int, k: K): (v': map<int, set<K>>)
    ensures Seen(v', q) == Seen(v, q) + {k}
    ensures forall q' :: q' != q ==> Seen(v', q') == Seen(v, q')
  {
    v[q := Seen(v, q) + {k}]
  }

  /** Writing element `e` at depth `i` of the path buffer. */
  function Write<T>(buf: seq<T>, i: nat, e: T): (b: seq<T>)
    requires i <= |buf|
    ensures |b| == if i < |buf| then |buf| else |buf| + 1
    ensures b[i] == e && b[..i] == buf[..i]
    ensures forall j {:trigger b[j]} :: 0 <= j < |buf| && j != i ==> b[j] == buf[j]
  {
    if i < |buf| then buf[i := e] else buf + [e]
  }

  /** The value a signed 8-bit C `char` holds for the byte that `c` stands
      for: 0 to 127 as they are, 128 to 255 as negative values.  A code
      above 255 is no byte; it is reduced to its low byte. */
  function SignedChar(c: char): int
  {
    var b := c as int % 256;
    if b < 128 then b else b - 256
  }

  /** The RANGE test `a >= by[0] && a <= to[0]` on signed `char`s. */
  predicate InRange(lo: char, hi: char, a: char)
  {
    SignedChar(lo) <= SignedChar(a) <= SignedChar(hi)
  }

  /** The string made by appending the pieces in order. */
  function Concat(ss: seq<string>): string
  {
    if ss == [] then [] else Concat(ss[..|ss| - 1]) + ss[|ss| - 1]
  }

  lemma ConcatAppend(ss: seq<string>, s: string)
    ensures Concat(ss + [s]) == Concat(ss) + s
  {
    assert (ss + [s])[..|ss|] == ss;
  }

  /** The length of a concatenation of pieces of length at most one is at
      most the number of pieces. */
  lemma {:induction false} ConcatLength(ss: seq<string>)
    requires forall i :: 0 <= i < |ss| ==> |ss[i]| <= 1
    ensures |Concat(ss)| <= |ss|
    decreases |ss|
  {
    if ss != [] {
      ConcatLength(ss[..|ss| - 1]);
    }
  }

  /** Every destination in the rule lists names one of the `n` states. */
  ghost predicate DstBelow(rules: seq<seq<Rule>>, n: int)
  {
    forall q, k :: 0 <= q < |rules| && 0 <= k < |rules[q]| ==> 0 <= rules[q][k].dst < n
  }
}
