# A verified model of a backtracking regex engine

The engine compiles a regular expression's parse tree into an NFA, a flat
array of states. Each state holds an ordered list of rules:
- EPSILON rules, some carrying an anchor tag `^ $ b B`;
- NORMAL rules, for a character;
- RANGE rules;
- SPECIAL rules, for `.` or a class letter;
- GROUP rules, for a 129-slot membership table.

It then runs the NFA by depth-first search with an explicit stack:
- The rules of a state are pushed in list order, so the rule listed last is tried first.
- A set of visited (state, position) pairs cuts off epsilon loops.
- A path buffer indexed by depth gives back the accepted path: its states, and the text each step consumed.

On top of the executor, `match`, `matchAll` and `replaceAll` find matches
and extract capture groups. They also substitute `$N`, `$$` replacement
templates.

Three versions of the engine are modelled:

* **exp3**, the final version:
  * **compiler** (`automaton_exp3/cpp/regex.cpp`, modules `Regex3` and `Match3`):
    * `compileRegex`, `compileExpression`, `compileExpressionItem`, `compileSingle` and `compile`;
    * capture groups, numbered by `group_num`, with their occurrence spans in `group`;
    * `{m}`, `{m,n}` and `{m,}` range quantifiers;
    * anchors;
    * the `m` and `s` flags.
  * **match layer**: `match`, `matchAll` and `replaceAll`, in the same file.
  * **executor** (`automaton_exp3/cpp_original/nfa.cpp`): `Rule::match`, the classes `d s w D S W`, `backtrace`, `exec`.
    * `Nfa3Spec` gives the search as functions.
    * `Nfa3` holds the class `Nfa`, whose methods are proved to compute them.
* **exp2**, the earlier compiler (`automaton_exp2/cpp/regex.cpp`, module `Regex2`):
  * a `last` state counter;
  * character-group tables built by flipping bits, so overlapping members cancel;
  * a `match` that runs the NFA on each suffix of the text.
* **exp1**, the earliest executor (`automaton_exp1/cpp/nfa.cpp`, module `Nfa1`):
  * it searches on the remaining text rather than on an offset;
  * its `backtrace` finds the path's length by scanning for a sentinel.

`RegexTree` (tree.dfy) is the parse tree the compilers walk. `Automaton`
(automaton.dfy) holds the vocabulary all versions share:
- `Rule`, `Path`, `Eps`;
- `Concat`, which joins consumed pieces.

The main results:

* **exp3 search.**
  * `Nfa3.Nfa.Exec` computes exactly `Nfa3Spec.ExecSpec`: the result path, the new `p` and the new visited set.
  * `Nfa3Spec.ExecOutcome` and `Nfa3Spec.AcceptedPath` make an accepted path a real run:
    * it starts in state 0 at offset `p`;
    * it ends in a final state;
    * it spells exactly `text[p..p']`.
* **exp3 compiler.** `Regex3.Regex.Compile` builds an automaton the executor accepts:
  * well formed;
  * state 0 is not final;
  * final states are entered by epsilon rules only.

  The shape of every construct is stated exactly: alternation, chaining, each quantifier block and range copy, and the group table.
* **exp3 match layer.** `match`, `matchAll` and `replaceAll` are proved against `FirstMatch`, `AllMatches` and `ReplaceAllSpec`. Lemmas characterise these:
  * matches are in text order and do not overlap;
  * each match's row is its text followed by its group texts;
  * splicing from the last match back equals the left-to-right rewrite;
  * template substitution inverts escaping.
* **exp2 compiler.**
  * Its shapes and its priority order are proved; the search tries the LAST-listed rule first.
  * Its XOR tables agree with exp3's tables whenever no two members overlap and no member is an escaped control letter (`Regex2.XorAgreesWithFinal`). The converse does not hold: an overlap can still leave a slot in agreement (`[aaa]` at `a`), while an escaped control letter such as `\n` differs even without overlap, because exp2 keeps the letter and exp3 decodes it (`Regex2.XorAgreementOneWay`).
* **exp1 executor.** It is proved sound. Its sentinel `backtrace` is a finding: it can return a stale path.

## Model

| member | source | states |
|---|---|---|
| Automaton.ConcatAppend | automaton_exp3/cpp/regex.cpp:560-561 | appending one more piece to the joined text appends it at the end |
| Automaton.ConcatLength | automaton_exp1/cpp/nfa.cpp:53-56 | pieces of at most one character join to at most as many characters as there are pieces |
| RegexTree.CharToken.Text | automaton_exp3/cpp/regex.cpp:360-382 | a token's text ends in its character (a `\c` escape is two characters) |
| Nfa3Spec.ClassFacts | automaton_exp3/cpp_original/nfa.cpp:5-7 | the space is blank; a word character is not blank; a digit is a word character |
| Nfa3Spec.Matches | automaton_exp3/cpp_original/nfa.cpp:17-54 | `Rule::match` by rule type, with RANGE comparing signed `char`s (`InRange`); its meaning is stated by `MatchesClasses`, `MatchesRange` and, for compiled singles, by `Regex3.SingleRuleMatches` |
| Nfa3Spec.MatchesRange | automaton_exp3/cpp_original/nfa.cpp:22-23 | on ASCII bounds and characters a RANGE rule takes exactly the codes between its ends; a high end from 128 to 255 is a negative `char`, so above an ASCII low end the range is empty |
| Nfa3Spec.MatchesClasses | automaton_exp3/cpp_original/nfa.cpp:5-54 | `D`, `S`, `W` take exactly the characters `d`, `s`, `w` refuse, as does any other class letter (read as `W`); `.` refuses only newline and carriage return, and nothing in dot-all mode; `s` takes the space |
| Nfa3Spec.AnchorOk | automaton_exp3/cpp_original/nfa.cpp:131-163 | the anchor test of the rule loop; `AnchorFacts` states what each tag means |
| Nfa3Spec.AnchorFacts | automaton_exp3/cpp_original/nfa.cpp:131-163 | without multiline mode `^` holds only at 0 and `$` only at the end; with it also after or at a newline; `b` holds exactly where the word-character test differs on the two sides of the offset (outside the text reading as non-word), and `B` exactly where `b` does not; other tags never block |
| Automaton.Insert | automaton_exp3/cpp_original/nfa.cpp:170 | `Set[q].insert(k)` adds `k` to state `q`'s set and changes no other state's; exp1's executor inserts remaining texts the same way (automaton_exp1/cpp/nfa.cpp:104-114) |
| Automaton.Write | automaton_exp3/cpp_original/nfa.cpp:114-115 | writing depth `i` of the path buffer sets element `i`, keeps the others, and grows the buffer only when `i` is its end; exp1 writes its buffer the same way (automaton_exp1/cpp/nfa.cpp:84-85) |
| Nfa3Spec.ApplyRule | automaton_exp3/cpp_original/nfa.cpp:127-182 | one turn of the rule loop; `ApplyRuleFacts` bounds what it pushes and `Nfa3.Nfa.PushSuccessors` is proved to compute it |
| Nfa3Spec.Expand | automaton_exp3/cpp_original/nfa.cpp:125-183 | the rule loop over a state's rules in list order; `ExpandFacts` and `LastRuleFirst` state its effect on the stack and the set |
| Nfa3Spec.ExecSpec | automaton_exp3/cpp_original/nfa.cpp:90-187 | the search `exec` runs; `ExecSound`, `ExecOutcome` and `AcceptedPath` make its acceptance a real run, and `Nfa3.Nfa.Exec` is proved to compute it |
| Nfa3Spec.ApplyRuleFacts | automaton_exp3/cpp_original/nfa.cpp:127-182 | one rule either does nothing or pushes one frame one step deeper into its destination; unless that records a new (state, offset) pair, the pushed frame consumed a character |
| Nfa3Spec.ExpandFacts | automaton_exp3/cpp_original/nfa.cpp:125-183 | the rule loop only pushes children of the popped frame, at most one per rule, and the visited set only grows |
| Nfa3Spec.LastRuleFirst | automaton_exp3/cpp_original/nfa.cpp:108-183 | after the rule loop, the frame the next pop takes is that of the LAST rule in the list that pushed anything |
| Nfa3Spec.RunAccept | automaton_exp3/cpp_original/nfa.cpp:110-122 | the popped frame is in range; a final one accepts at its depth with the buffer written there |
| Nfa3Spec.RunNext | automaton_exp3/cpp_original/nfa.cpp:108-184 | a non-final popped frame continues from its expansion, with a lower termination measure |
| Nfa3Spec.LoopStep | automaton_exp3/cpp_original/nfa.cpp:108-184 | every non-accepting pass keeps the frames in range and lowers (unvisited pairs, stack weight) |
| Nfa3Spec.RunSound | automaton_exp3/cpp_original/nfa.cpp:108-186 | the loop accepts only runs from the start that end in a final state, and it never un-records a pair |
| Nfa3Spec.StartInvariant | automaton_exp3/cpp_original/nfa.cpp:98-104 | state 0 at `p`, pushed and recorded, meets the loop invariant |
| Nfa3Spec.ExecSound | automaton_exp3/cpp_original/nfa.cpp:90-187 | an accepted exec is a run of at least one step from (0, `p`) into a final state; for compiled automata it records a new pair, and its last step is an epsilon step |
| Nfa3Spec.FoundDepth | automaton_exp3/cpp_original/nfa.cpp:118-121 | an accepting run from a non-final start has depth at least 1, and its final step consumed nothing when final states are entered by epsilon only |
| Nfa3Spec.ExecDepth | automaton_exp3/cpp_original/nfa.cpp:121 | an accepted exec calls `backtrace` with a step of at least 1 and at most the buffer's length |
| Nfa3Spec.ExecOutcome | automaton_exp3/cpp_original/nfa.cpp:62-187 | an accepted path starts in state 0, has one consumed string per step, and spells `text[p..p']`, where `p'` is the new `p` |
| Nfa3Spec.StepAdvance | automaton_exp3/cpp_original/nfa.cpp:164-181 | a step keeps the offset, or advances it by one inside the text |
| Nfa3Spec.ConsumesOfChain | automaton_exp3/cpp_original/nfa.cpp:67-77 | along a run, the consumed pieces join to exactly the text between the first and last offsets |
| Nfa3Spec.AcceptedPath | automaton_exp3/cpp_original/nfa.cpp:62-79 | the path built from the accepting buffer prefix starts in state 0 and spells the text from the start offset to the offset stored in `p` |
| Nfa3.Nfa.constructor | automaton_exp3/cpp_original/nfa.cpp:93-96 | a fresh automaton: no states, no groups, nothing visited, flags off |
| Nfa3.Nfa.AddState | automaton_exp3/cpp/regex.cpp:28 | one more state, with no rules |
| Nfa3.Nfa.PushBack | automaton_exp3/cpp/regex.cpp:41 | appends a rule to one state and changes no other |
| Nfa3.Nfa.PushFront | automaton_exp3/cpp/regex.cpp:26 | inserts a rule at the front of one state's list and changes no other |
| Nfa3.Nfa.AddSpan | automaton_exp3/cpp/regex.cpp:113 | appends one occurrence to one group's spans and leaves the others alone |
| Nfa3.Nfa.Backtrace | automaton_exp3/cpp_original/nfa.cpp:62-79 | the path over the first `step` buffer elements, with `p` set to the last one's offset |
| Nfa3.Nfa.AppendHop | automaton_exp3/cpp_original/nfa.cpp:70-76 | a step's consumed string: "" for equal offsets, the character at the earlier offset otherwise |
| Nfa3.Nfa.PushSuccessors | automaton_exp3/cpp_original/nfa.cpp:125-183 | the rule loop computes the specification's `Expand`, including the visited set it leaves |
| Nfa3.Nfa.ScanStep | automaton_exp3/cpp_original/nfa.cpp:110-183 | one pop: accept with the buffer and depth `Run` gives, or continue with the same `Run` outcome and a lower measure |
| Nfa3.Nfa.Scan | automaton_exp3/cpp_original/nfa.cpp:98-186 | the stack loop computes `ExecSpec` exactly, outcome and visited set both |
| Nfa3.Nfa.Exec | automaton_exp3/cpp_original/nfa.cpp:90-187 | `exec` leaves the path, `p` and the visited set that `ExecSpec` describes; a rejection leaves `p` unchanged |
| Regex3.Unescape | automaton_exp3/cpp/regex.cpp:363-381 | the character a token stands for; `SingleRuleMatches` proves the compiled NORMAL rule accepts exactly that character |
| Regex3.GroupTable | automaton_exp3/cpp/regex.cpp:408-493 | the group's table has 129 slots |
| Regex3.SingleRule | automaton_exp3/cpp/regex.cpp:358-496 | a single's rule leads into `dst`, is never an epsilon rule, and a group rule carries a 129-slot table |
| Regex3.SingleRuleMatches | automaton_exp3/cpp/regex.cpp:356-496 | the compiled rule accepts a character exactly when the single means it: a character whose escape is decoded, a class, `.` with dot-all, or a (negated) group whose member covers it |
| Regex3.BuildGroupTable | automaton_exp3/cpp/regex.cpp:408-493 | the table loops build `GroupTable`: every slot is `negated` unless some member covers it |
| Regex3.SetMember | automaton_exp3/cpp/regex.cpp:413-491 | one member's loop sets exactly the slots it covers to `!negated` and leaves the rest |
| Regex3.AnchorRule | automaton_exp3/cpp/regex.cpp:332-343 | an anchor compiles to an epsilon rule with a non-empty tag |
| Regex3.LoopShape | automaton_exp3/cpp/regex.cpp:229-301 | the three steps of `?`/`*`/`+` (block, connector, skip and repeat edges) leave `LoopBlock`: the skip edge in front when greedy and behind when lazy, the repeat edge behind when greedy and in front when lazy |
| Regex3.LoopEntry | automaton_exp3/cpp/regex.cpp:231-292 | the block's entry state keeps its old rules between the skip edge's two places and the entry edge |
| Regex3.RangeEntry | automaton_exp3/cpp/regex.cpp:97-166 | the first copy of a range quantifier enters from the current state, with a skip edge when it is optional |
| Regex3.ChainBounded | automaton_exp3/cpp/regex.cpp:97-168 | without `{m,}`, the `m` or `n` laid copies are the whole chain |
| Regex3.ChainStar | automaton_exp3/cpp/regex.cpp:170-223 | for `{m,}`, the `m` copies followed by a `*` block make the whole chain |
| Regex3.JoinShape | automaton_exp3/cpp/regex.cpp:35-44 | the join loop turns the branch loop's result into `Alternation`: edges into the branches, inserted at the front, so the first branch is tried first; every branch end's last rule enters the join; nothing else does |
| Regex3.BuiltWellFormed | automaton_exp3/cpp/regex.cpp:527-530 | the resized rules with one final flag per state form a well-formed automaton |
| Regex3.JoinOnlyFinal | automaton_exp3/cpp/regex.cpp:530 | with the join as the only final state, only epsilon rules (the branch ends' edges) enter a final state |
| Regex3.Regex.Extend | automaton_exp3/cpp/regex.cpp:356-498 | one rule from `q` into the next state (appended, or inserted at the front), then `num_states++` |
| Regex3.Regex.Emit | automaton_exp3/cpp/regex.cpp:157-164 | an epsilon rule into an existing state, at the front or the back |
| Regex3.Regex.NextGroup | automaton_exp3/cpp/regex.cpp:93 | `group_num` goes up by one |
| Regex3.Regex.NextGroupIf | automaton_exp3/cpp/regex.cpp:90-94 | `group_num` goes up by one exactly for a capturing group |
| Regex3.Regex.RecordIf | automaton_exp3/cpp/regex.cpp:112-113 | when capturing, the span is appended to group `i`; no other group changes |
| Regex3.Regex.Record | automaton_exp3/cpp/regex.cpp:246 | the span is appended to group `i` |
| Regex3.Regex.Join | automaton_exp3/cpp/regex.cpp:35-44 | one epsilon rule from each branch end into the new join state, which nothing else enters |
| Regex3.Regex.CompileSingle | automaton_exp3/cpp/regex.cpp:356-498 | exactly one rule, `SingleRule(s)`, from the current state into one new state |
| Regex3.Regex.CompileRegex | automaton_exp3/cpp/regex.cpp:11-46 | builds `Alternation` from the current state (first branch listed last); keeps earlier states, earlier group spans, and the group counts the tree allocates |
| Regex3.Regex.CompileBranches | automaton_exp3/cpp/regex.cpp:18-33 | the branch loop: one entry per branch, laid one after another, with `stateList` as the branch ends |
| Regex3.Regex.CompileBranch | automaton_exp3/cpp/regex.cpp:22-31 | one branch: an epsilon edge inserted at the front of `cur` into a new entry state, and the branch compiled from there |
| Regex3.Regex.CompileExpression | automaton_exp3/cpp/regex.cpp:52-60 | the items in order; the current state keeps its old rules as one contiguous block; group counts add up |
| Regex3.Regex.CompileItem | automaton_exp3/cpp/regex.cpp:66-350 | one item keeps earlier states and spans, and extends the current state's rules around its old ones |
| Regex3.Regex.CompileExpressionItem | automaton_exp3/cpp/regex.cpp:66-350 | dispatches on the item: an anchor rule, `PlainLaid` for an unquantified item, `QuantifiedLaid` for a quantified one, with a capturing group's spans under the next group number |
| Regex3.Regex.CompileQuantified | automaton_exp3/cpp/regex.cpp:84-302 | a quantified item leaves `QuantifiedLaid`: a loop block or a chain of copies, with one span per copy |
| Regex3.Regex.CompileRangeItem | automaton_exp3/cpp/regex.cpp:86-225 | a range-quantified item leaves its chain of copies and its spans |
| Regex3.Regex.CompileLoopItem | automaton_exp3/cpp/regex.cpp:227-302 | `?`/`*`/`+` leave `LoopBlock`; a capturing group records one span, from the body entry to the body end |
| Regex3.Regex.CompilePlain | automaton_exp3/cpp/regex.cpp:305-327 | an unquantified item leaves `PlainLaid`; a capturing group records (current state, join) |
| Regex3.Regex.CompileUnquantifiedSingle | automaton_exp3/cpp/regex.cpp:305-327 | the single's rule, then the connecting edge into a new state |
| Regex3.Regex.CompileUnquantifiedGroup | automaton_exp3/cpp/regex.cpp:311-325 | the group's alternation from the current state, with the connecting edge on its join; a capturing group takes a new number and records (current, join) |
| Regex3.Regex.CompileLoop | automaton_exp3/cpp/regex.cpp:229-301 | `LoopBlock` for `?`, `*` or `+`: the group counts, the other groups unchanged, and one span for group `p` |
| Regex3.Regex.PlaceEdges | automaton_exp3/cpp/regex.cpp:270-301 | the skip edge on `cur` and the repeat edge on `x`, each at the end greediness dictates; nothing else changes |
| Regex3.Regex.CompileCopy | automaton_exp3/cpp/regex.cpp:99-121 | one repeated block: entry edge, body, exit edge; the group's span runs from the body entry to the body end |
| Regex3.Regex.CompileBody | automaton_exp3/cpp/regex.cpp:107-114 | the body of a block; a capturing group's span runs from the current state to the join |
| Regex3.Regex.CompileRange | automaton_exp3/cpp/regex.cpp:86-225 | `{m}`, `{m,n}`, `{m,}`: `CopyChain` over the stops; one span per copy for a capturing group; the counts include the second number that `{m,}` allocates |
| Regex3.Regex.LayRange | automaton_exp3/cpp/regex.cpp:96-224 | the bounded copies and, for `{m,}`, the `*` copy form one copy chain over the returned stops; the group's spans sit at those stops, other groups' spans are kept, and the new group counts are the copies' counts |
| Regex3.Regex.LayStar | automaton_exp3/cpp/regex.cpp:170-223 | the repeatable copy of `{m,}` extends the chain by one stop, with its own group number and span |
| Regex3.Regex.LayCopies | automaton_exp3/cpp/regex.cpp:97-166 | `n` blocks in a row, optional from copy `m` on, with one span each |
| Regex3.Regex.LayNext | automaton_exp3/cpp/regex.cpp:97-166 | one pass of the copy loops keeps the loop invariant (chain, counts, spans) |
| Regex3.Regex.LayCopy | automaton_exp3/cpp/regex.cpp:133-165 | one block from the last copy's end, optional from copy `m` on |
| Regex3.Regex.PlaceSkip | automaton_exp3/cpp/regex.cpp:157-164 | an optional copy's skip edge: in front when greedy, behind when lazy |
| Regex3.Regex.Compile | automaton_exp3/cpp/regex.cpp:511-536 | sets the `m`/`s` flags from the flags string; the result is a compiled automaton (well formed, start not final, finals entered by epsilon); the join is the one final state; the group table holds the tree's counts |
| Regex3.Regex.GroupsOf | automaton_exp3/cpp/regex.cpp:565-599 | the group loop yields `Groups`: each group's text from its last occurrence located on the path, or "" |
| Regex3.Regex.RowOf | automaton_exp3/cpp/regex.cpp:559-599 | the row: the matched text followed by every group's text |
| Regex3.Regex.ExecAt | automaton_exp3/cpp/regex.cpp:555 | one exec from `p`, as `ExecResult` describes it |
| Regex3.Regex.RowAt | automaton_exp3/cpp/regex.cpp:557-601 | the row of an accepted exec is `FirstMatch` from that offset |
| Regex3.Regex.MatchStep | automaton_exp3/cpp/regex.cpp:553-605 | one pass of `match`'s loop: either its row is the answer, or `p` moves on by one with the answer unchanged |
| Regex3.Regex.Match | automaton_exp3/cpp/regex.cpp:546-608 | `match` returns `FirstMatch` from offset 0 |
| Regex3.Regex.FindStep | automaton_exp3/cpp/regex.cpp:624-674 | one pass of the scan keeps (found so far + rest) fixed, never moves `p` back, and when `p` stays it records a new pair |
| Regex3.Regex.FoundOf | automaton_exp3/cpp/regex.cpp:703-746 | an accepted exec records a match that starts at `p` minus its length (`match_index`), and the scan continues from its end |
| Regex3.Regex.FindAll | automaton_exp3/cpp/regex.cpp:697-750 | the scan loop of `matchAll`/`replaceAll` returns `AllMatches` from offset 0 |
| Regex3.Regex.MatchAll | automaton_exp3/cpp/regex.cpp:617-679 | `matchAll` returns the rows of `AllMatches`, in text order |
| Match3.ReplaceAllSpec | automaton_exp3/cpp/regex.cpp:688-803 | `replaceAll`: the text with every match `AllMatches` finds replaced by its substituted template; `SpliceBackRewrites` ties the back-to-front splicing to this rewrite |
| Regex3.Regex.ReplaceAll | automaton_exp3/cpp/regex.cpp:688-803 | `replaceAll` returns `ReplaceAllSpec`: every match replaced by the template substituted with its row |
| Match3.LastIndex | automaton_exp3/cpp/regex.cpp:570-572 | the last position holding `x`, or -1; nothing after it holds `x` |
| Match3.FirstFrom | automaton_exp3/cpp/regex.cpp:577-579 | the first position at or after `k` holding `x`, or the length; nothing before it holds `x` |
| Match3.GroupTextNone | automaton_exp3/cpp/regex.cpp:593-596 | with no occurrence located on the path, the group's text is "" |
| Match3.GroupTextLast | automaton_exp3/cpp/regex.cpp:567-592 | otherwise it is the text of the LAST located occurrence |
| Match3.PieceBetween | automaton_exp3/cpp/regex.cpp:577-587 | a located occurrence's text is what the path consumed between a visit of its entry and a later visit of its exit |
| Match3.ExecResult | automaton_exp3/cpp_original/nfa.cpp:62-187 | a rejected exec gives `Reject` and keeps `p`; an accepted one gives a path from state 0 spelling `text[p..p']` |
| Match3.ExecShrinks | automaton_exp3/cpp_original/nfa.cpp:104-181 | exec never forgets a recorded pair; on a compiled automaton an acceptance records a new one |
| Match3.FirstMatch | automaton_exp3/cpp/regex.cpp:546-608 | an empty text gives no row; a row is a real match inside the text, its text followed by its groups |
| Match3.AllMatches | automaton_exp3/cpp/regex.cpp:617-679 | the matches are in text order, do not overlap, lie at or after `p`, and each is a real match with its row |
| Match3.ExecResultOf | automaton_exp3/cpp_original/nfa.cpp:118-186 | what exec leaves behind is `ExecResult` |
| Match3.FirstMatchMiss | automaton_exp3/cpp/regex.cpp:603-604 | a rejected exec moves `match` on to the next offset with the same answer |
| Match3.FirstMatchHit | automaton_exp3/cpp/regex.cpp:557-601 | an accepted exec ends `match` with its row |
| Match3.AllMatchesMiss | automaton_exp3/cpp/regex.cpp:672-673 | a rejected exec moves the scan on by one with the same matches still to come |
| Match3.AllMatchesHit | automaton_exp3/cpp/regex.cpp:703-746 | an accepted exec records a match that ends at the new `p` and starts the matched text's length before it, and the scan goes on from its end |
| Match3.FoundFirst | automaton_exp3/cpp/regex.cpp:746 | a match followed by the matches from its end keeps them in order |
| Match3.DigitsEnd | automaton_exp3/cpp/regex.cpp:774-776 | the digit run ends at the first non-digit or at the end |
| Match3.DigitsRun | automaton_exp3/cpp/regex.cpp:775-776 | everything before the run's end is a digit |
| Match3.Lead | automaton_exp3/cpp/regex.cpp:756-797 | the first template token spans at least one character and no more than the template |
| Match3.Substitute | automaton_exp3/cpp/regex.cpp:754-797 | the `$` template read left to right; `SubstitutePlain`, `SubstituteGroup` and `SubstituteEscape` state its meaning and `SubstituteTemplate` computes it |
| Match3.SubstitutePlain | automaton_exp3/cpp/regex.cpp:758-761 | a template without `$` is copied unchanged |
| Match3.Escape | automaton_exp3/cpp/regex.cpp:766-770 | doubling every `$` never shortens a text |
| Match3.SubstituteEscape | automaton_exp3/cpp/regex.cpp:756-797 | substituting into an escaped text gives the text back, whatever the groups: `$$` is the escape of `$` |
| Match3.SubstituteGroup | automaton_exp3/cpp/regex.cpp:772-783 | `$N` with group `N` present inserts exactly that group's text, which is not scanned again, even when it holds `$` |
| Match3.Splice | automaton_exp3/cpp/regex.cpp:798 | a replacement changes the length by the inserted text minus the replaced length |
| Match3.DisjointInit | automaton_exp3/cpp/regex.cpp:752 | all but the last of disjoint edits end before the last begins |
| Match3.DisjointWiden | automaton_exp3/cpp/regex.cpp:752 | disjoint edits stay disjoint in a longer text |
| Match3.DisjointSnoc | automaton_exp3/cpp/regex.cpp:752 | an edit after the others extends them |
| Match3.RewriteLast | automaton_exp3/cpp/regex.cpp:752-799 | applying the last edit first leaves the earlier edits reading the text they would have read |
| Match3.SplicePrefix | automaton_exp3/cpp/regex.cpp:798 | a replacement leaves the text before it alone |
| Match3.RewriteOnly | automaton_exp3/cpp/regex.cpp:798 | one replacement read from before it is the left-to-right rewrite of one edit |
| Match3.SpliceBackRewrites | automaton_exp3/cpp/regex.cpp:752-799 | splicing from the last match back to the first is the left-to-right rewrite |
| Match3.EditsDisjoint | automaton_exp3/cpp/regex.cpp:710-799 | the edits of the scan's matches lie in order inside the text, so every replacement is in range |
| Match3.SpliceBackStep | automaton_exp3/cpp/regex.cpp:752-799 | one replacement keeps the earlier edits in range and the back-to-front result unchanged |
| Match3.SpliceAll | automaton_exp3/cpp/regex.cpp:752-799 | the final loop returns the text with each match replaced by its substituted template |
| Match3.LastIndexOf | automaton_exp3/cpp/regex.cpp:570-572 | the backward search computes `LastIndex` |
| Match3.FirstIndexFrom | automaton_exp3/cpp/regex.cpp:577-579 | the forward search computes `FirstFrom` |
| Match3.JoinPieces | automaton_exp3/cpp/regex.cpp:584-586 | the pieces from `k` up to `l`, joined |
| Match3.DigitRunEnd | automaton_exp3/cpp/regex.cpp:774-776 | the digit scan computes `DigitsEnd` |
| Match3.DigitsEndSuffix | automaton_exp3/cpp/regex.cpp:774-776 | a digit run in a suffix ends where it ends in the whole template |
| Match3.SubstituteTemplate | automaton_exp3/cpp/regex.cpp:754-797 | the template loop, rewriting `tmp` in place, yields `Substitute` |
| Match3.TemplateStep | automaton_exp3/cpp/regex.cpp:758-795 | one pass keeps the loop invariant and shortens what is left to scan |
| Match3.PutGroup | automaton_exp3/cpp/regex.cpp:772-788 | `$N`: replaced by group `N`, or erased when there is none, with the scan going on after it |
| Match3.LeadAt | automaton_exp3/cpp/regex.cpp:758-795 | the first token from `j`, read off the whole template: `$$` gives `$`; `$N` gives group `N` or nothing; anything else gives itself |
| Match3.Replaced | automaton_exp3/cpp/regex.cpp:768-792 | replacing one token in place keeps the loop invariant |
| Nfa1.MatchesClasses | automaton_exp1/cpp/nfa.cpp:15-34 | `D`, `S` and the default class are `d`, `s`, `w` complemented; `s` excludes the space; epsilon and group rules take every character |
| Nfa1.AgreesWithFinal | automaton_exp1/cpp/nfa.cpp:9-35 | against exp3's test with dot-all off, the two agree on every NORMAL, RANGE, SPECIAL rule and character, except the space for `s`/`S` |
| Nfa1.Matches | automaton_exp1/cpp/nfa.cpp:9-35 | exp1's `Rule::match`, with RANGE comparing signed `char`s (`InRange`); `MatchesClasses`, `MatchesRange` and `AgreesWithFinal` state its meaning |
| Nfa1.MatchesRange | automaton_exp1/cpp/nfa.cpp:13-14 | on ASCII bounds and characters a RANGE rule takes exactly the codes between its ends; a high end from 128 to 255 empties a range with an ASCII low end, and a character from 128 to 255 is below every ASCII low end |
| Nfa1.ApplyRule | automaton_exp1/cpp/nfa.cpp:92-115 | one turn of exp1's rule loop over the remaining text; `ApplyRuleFacts` bounds it and `Nfa1.Nfa.PushSuccessors` computes it |
| Nfa1.Expand | automaton_exp1/cpp/nfa.cpp:90-116 | exp1's rule loop in list order; `ExpandFacts` states its effect |
| Nfa1.ApplyRuleFacts | automaton_exp1/cpp/nfa.cpp:92-115 | one rule does nothing or pushes one child into its destination |
| Nfa1.ExpandFacts | automaton_exp1/cpp/nfa.cpp:90-116 | the rule loop only pushes children of the popped frame, at most one per rule |
| Nfa1.LoopStep | automaton_exp1/cpp/nfa.cpp:79-117 | every non-accepting pass keeps frames in range and lowers the measure |
| Nfa1.RunSound | automaton_exp1/cpp/nfa.cpp:79-119 | the loop accepts only runs from the start over the whole text, ending final with nothing left |
| Nfa1.ExecSound | automaton_exp1/cpp/nfa.cpp:67-120 | an accepted search is such a run |
| Nfa1.ExecSpec | automaton_exp1/cpp/nfa.cpp:67-120 | exp1's search; `ExecSound` makes acceptance a run over the whole text and `Nfa1.Nfa.Scan` computes it |
| Nfa1.Hop | automaton_exp1/cpp/nfa.cpp:53-56 | a step's consumed string has at most one character |
| Nfa1.PathShape | automaton_exp1/cpp/nfa.cpp:48-58 | a path has one consumed string per step and spells at most as many characters as it has steps |
| Nfa1.ConsumesOfChain | automaton_exp1/cpp/nfa.cpp:98-114 | along a run, what was consumed followed by what is left is the whole text |
| Nfa1.AcceptedPath | automaton_exp1/cpp/nfa.cpp:42-88 | the path up to the accepting depth starts in state 0, ends final, and spells the whole text |
| Nfa1.SentinelSize | automaton_exp1/cpp/nfa.cpp:45-47 | the sentinel scan stops at the first element whose state is -1, or the end of what was written |
| Nfa1.StaleBacktrace | automaton_exp1/cpp/nfa.cpp:42-88 | counterexample: the stale deeper frame gives the path 0, 1, 3, which is neither a run nor final, where the accepting run is 0, 1 |
| Nfa1.StaleRun | automaton_exp1/cpp/nfa.cpp:79-117 | the search of the counterexample, pop by pop |
| Nfa1.Nfa.Backtrace | automaton_exp1/cpp/nfa.cpp:42-60 | as written: the path up to the first sentinel, however deep acceptance was |
| Nfa1.Nfa.BacktraceTo | automaton_exp1/cpp/nfa.cpp:42-60 | corrected: the path up to the accepting depth |
| Nfa1.Nfa.PathOf | automaton_exp1/cpp/nfa.cpp:48-58 | the loop builds the path over the first `size` elements |
| Nfa1.Nfa.PushSuccessors | automaton_exp1/cpp/nfa.cpp:90-116 | the rule loop computes `Expand` |
| Nfa1.Nfa.ScanStep | automaton_exp1/cpp/nfa.cpp:81-116 | one pop: accept as `Run` says, or continue with the same outcome and a lower measure |
| Nfa1.Nfa.Scan | automaton_exp1/cpp/nfa.cpp:70-119 | the stack loop computes `ExecSpec` |
| Nfa1.Nfa.Exec | automaton_exp1/cpp/nfa.cpp:67-120 | the path (corrected backtrace) starts in state 0, ends final, and spells the whole text; a rejection gives `Reject` |
| Regex2.XorTable | automaton_exp2/cpp/regex.cpp:269-343 | the flipped table has 129 slots |
| Regex2.BuildXorTable | automaton_exp2/cpp/regex.cpp:269-343 | the table loops build `XorTable`: a slot is `negated` flipped once per member covering it |
| Regex2.FlipMember | automaton_exp2/cpp/regex.cpp:278-342 | one member's loop flips exactly the slots it covers |
| Regex2.CoverCountPositive | automaton_exp2/cpp/regex.cpp:276-343 | a slot is covered at least once exactly when some member covers it |
| Regex2.OverlapCancels | automaton_exp2/cpp/regex.cpp:276-343 | overlapping members cancel: `[\w\d]` leaves out `5` but keeps `x`; `[aa-c]` leaves out `a` but keeps `b` |
| Regex2.XorAgreesWithFinal | automaton_exp2/cpp/regex.cpp:269-343 | with disjoint members and no escaped control character, the flipped table is exp3's table |
| Regex2.XorAgreementOneWay | automaton_exp2/cpp/regex.cpp:269-343 | the agreement's conditions are not necessary and its converse fails: `[aaa]` overlaps yet agrees with exp3 at `a`, and the disjoint `[\n]` differs from exp3 at `n` |
| Regex2.SingleRule | automaton_exp2/cpp/regex.cpp:233-345 | the rule leads into `dst`, is not an epsilon rule, and a group rule has 129 slots |
| Regex2.SingleAgreesWithFinal | automaton_exp2/cpp/regex.cpp:231-351 | without escaped control characters, and with disjoint group members, exp2's rule is exp3's rule |
| Regex2.Backs | automaton_exp2/cpp/regex.cpp:22-25 | one appended epsilon edge per branch, in source order |
| Regex2.LastBranchFirst | automaton_exp2/cpp/regex.cpp:19-95 | under the last-listed-first search, the edge tried first from the alternation's state is the LAST branch's |
| Regex2.BranchStep | automaton_exp2/cpp/regex.cpp:22-31 | one more branch keeps the branch loop's invariant |
| Regex2.BranchesRising | automaton_exp2/cpp/regex.cpp:31 | the branch ends rise, so each lies in its own branch |
| Regex2.JoinShape | automaton_exp2/cpp/regex.cpp:34-44 | the join loop gives `Alternation`: appended branch edges, branch ends into the join, nothing else into it |
| Regex2.QuantifierPriority | automaton_exp2/cpp/regex.cpp:95-212 | on the rules `compileExpressionItem` lays (`ItemLaid`), under last-listed-first search: a greedy item's entry state tries its body before the skip edge, a lazy one's the skip edge before its body |
| Regex2.RepeatPriority | automaton_exp2/cpp/regex.cpp:61-210 | on the rules `compileExpression` chains (`Chained`), a quantified item's end state: a greedy item tries the repeat edge back to its start before the connector to the next item, a lazy one the connector first |
| Regex2.ChainStep | automaton_exp2/cpp/regex.cpp:56-71 | one more item and its connector extend the chain |
| Regex2.ChainedRising | automaton_exp2/cpp/regex.cpp:56-72 | item starts rise along the expression |
| Regex2.Nfa.constructor | automaton_exp2/cpp/regex.cpp:371-374 | an empty automaton, `last` at 0 |
| Regex2.Regex.constructor | automaton_exp2/cpp/regex.cpp:363 | a compiler with a fresh empty automaton |
| Regex2.Regex.NewState | automaton_exp2/cpp/regex.cpp:27-28 | `last` becomes a new state with no rules |
| Regex2.Regex.Push | automaton_exp2/cpp/regex.cpp:25 | appends a rule to one state and changes no other |
| Regex2.Regex.PushFront | automaton_exp2/cpp/regex.cpp:67 | inserts a rule at the front of one state and changes no other |
| Regex2.Regex.CompileSingle | automaton_exp2/cpp/regex.cpp:231-351 | the single's rule from `last` into a new state, which becomes `last`; an empty group only allocates the state |
| Regex2.Regex.CompileRegex | automaton_exp2/cpp/regex.cpp:11-46 | `Alternation` from `last`, with appended branch edges (first branch listed first), and the join as the new `last` |
| Regex2.Regex.Branches | automaton_exp2/cpp/regex.cpp:18-32 | the branch loop lays the branches one after another, collecting their ends |
| Regex2.Regex.AddBranch | automaton_exp2/cpp/regex.cpp:20-31 | one turn of the branch loop keeps its invariant |
| Regex2.Regex.Join | automaton_exp2/cpp/regex.cpp:34-44 | an epsilon rule from each branch end into one new state, which becomes `last` |
| Regex2.Regex.CompileExpression | automaton_exp2/cpp/regex.cpp:52-73 | the items chained by connectors; an empty expression leaves the rules alone |
| Regex2.Regex.Connect | automaton_exp2/cpp/regex.cpp:61-71 | the connector is inserted at the front exactly when `last` is not the newest state, and appended otherwise |
| Regex2.Regex.CompileExpressionItem | automaton_exp2/cpp/regex.cpp:79-224 | an item's exact rules (`ItemLaid`); `last` is not the newest state exactly after a greedy item |
| Regex2.Regex.CompileGreedy | automaton_exp2/cpp/regex.cpp:101-156 | greedy: the exit is the reserved state, the body starts after it, with a skip edge on the start and a repeat edge on the exit |
| Regex2.Regex.Reserve | automaton_exp2/cpp/regex.cpp:103-135 | two reserved states, the skip edge on the current state and the repeat edge on the exit |
| Regex2.Regex.CompileLazy | automaton_exp2/cpp/regex.cpp:158-212 | lazy: the body first, then the exit after it, then the skip and repeat edges |
| Regex2.Regex.LazyExit | automaton_exp2/cpp/regex.cpp:175-210 | the exit state, the edge into it, and the skip and repeat edges |
| Regex2.Regex.CompileNormal | automaton_exp2/cpp/regex.cpp:137-221 | the body: `compileSingle`, or `compileRegex` on the group |
| Regex2.Regex.Compile | automaton_exp2/cpp/regex.cpp:363-389 | state 0 starts the tree's alternation; the join is the only final state; every destination names a state |
| Regex2.Regex.Match | automaton_exp2/cpp/regex.cpp:400-422 | an empty result exactly when no suffix's run has states; otherwise the first suffix that runs, with its consumed text |
| Regex2.Joined | automaton_exp2/cpp/regex.cpp:412-414 | the pieces joined in order |

## Findings

| source | as written | input that shows it | evidently intended | confidence | as-written member | corrected member |
|---|---|---|---|---|---|---|
| automaton_exp1/cpp/nfa.cpp:42-47,84-88 | `backtrace` takes the path length from the first buffer element whose state is -1, instead of from the accepting frame's depth. Frames written deeper by an abandoned branch stay in the buffer. | automaton `[[Eps(1), Eps(2)], [], [Eps(3)], []]` with only state 1 final, text "": the search pops 0, 2, 3, then accepts 1 at depth 1, and the sentinel walk returns 0, 1, 3. This assumes an unwritten `path_element` has `q == -1`, the default of exp1's nfa.h; nfa.h is not part of this model | the path up to the accepting depth, 0, 1 (what exp3's `backtrace(path, step)` does) | not executed | Nfa1.Nfa.Backtrace, Nfa1.StaleBacktrace | Nfa1.Nfa.BacktraceTo, Nfa1.AcceptedPath |

## Left out

- Set (exp3 `Set[20001]`, exp1 `Set[10003]` of `std::set`): modelled as a `map<int, set<int>>` (exp1: `set<string>`), with a missing key meaning the empty set. The fixed array sizes are not modelled.
- Path buffer (`path_element path[10003]` in both executors): modelled as a sequence that `Write` grows when a depth one past its end is written. Its fixed capacity, and any overflow beyond it, are not modelled.
- Stack (`Stack` in exp3, a member cleared at every `exec`; a local in exp1): modelled as a local sequence of frames, since nothing outside `exec` reads it.
- Characters (exp3 and exp2): text characters are restricted to codes below 128 (`Ascii`), and character-group members likewise (`TokenInTable`). The source indexes a 129-slot table with a signed `char`, so bytes of 128 and above would index negatively; such input is not modelled. exp1's executor has no table and takes any text.
- Nfa1.Matches: a character of the text stands for one byte of the source's `std::string`. The model does not capture that a multi-byte character of the source text is several bytes, each read as its own step there; a character above 255 has no byte counterpart, and `SignedChar` reduces it to its low byte. The signed-`char` RANGE comparison itself is modelled (`InRange`).
- Nfa3Spec.Fits: `b` and `B` anchors require a non-empty text (`HasBoundaryAnchor`). On the empty text, the source reads `full_text[size - 1]`, which is undefined behaviour.
- Match3.Number: the value of a `$N` reference is an unbounded natural. The source's `std::stoi` would throw on a value beyond the `int` range; that exception is not modelled.
- Regex3.Regex.GroupsOf: the source tests `states[k] != x` before `k >= 0`, and `states[l] != x` before `l < size`, so each loop reads one element outside the path at its end. The model tests the bound first. Either order leaves the loop with the same index, so the result is the same whenever those reads do not crash.
- Rule vector capacity: the source resizes `rules` to 30000 (exp3) or 50000 (exp2) before compiling, and back to `num_states` after. The model keeps exactly one rule list per allocated state throughout. The capacity limit is not modelled.
- Regex3.Regex.Compile: the model starts from an empty automaton and compiles once. A second `parse` throws in the source; that case is not modelled.
- `parse` and the ANTLR layer: the parse tree is the `RegexTree` datatype, taken as given. `~Regex`, `from_text` and `operator<<` (text I/O) are not part of this model. Only `operator<<`'s length check is restated, in Nfa1.PathShape.
- Guard fields: the source's `by`, `to` and `in` are grouped into one `Guard` record of the rule.
- exp2 executor: the exp2 `match` calls an executor whose source is not included. Regex2.Regex.Match takes it as the parameter `exec`, a pure function of the rules, the final flags and the text, as exp1's `exec` is. It keeps no state between calls, so "the first suffix that runs" is well defined only under that assumption.
- exp2 range quantifiers: exp2's `compileExpressionItem` has no case for `{m,n}`, so it falls into the `+` branch. The model does the same (`Loops`).
- exp2 anchors: exp2 has no anchor case and dereferences a null `normalItem` on an anchor. Regex2 requires an anchor-free tree (`RegexAnchorFree`).
- Regex2.Regex.CompileGreedy: the source adds the skip and repeat edges before it bumps `num_states` by two. The model allocates the two states first, then adds the edges; the resulting rules are the same.
- exp2 comment at regex.cpp:66: the comment labels the front-insert case of the connector; the model follows the code.
- exp1 `num_states`: exp1's executor reads only `rules` and `is_final`. Its `Machine` carries no state count.
- Nfa3.Nfa.Exec requires `!isFinal[0]`: with state 0 final, the source's `backtrace(path, 0)` reads `path[-1]`. Compiled automata never make state 0 final (Regex3.Regex.Compile).
- exp3 `backtrace` drops the accepting frame: it builds the path from the first `step` elements, so the final state itself is not in the path. The model keeps this. `FoundDepth` shows that for compiled automata the dropped step is an epsilon step, so the consumed text is unaffected.
- exp1 consuming test: `i.match(temp.str[0]) && !temp.str.empty()` reads `str[0]`, the NUL terminator, on an empty remainder before it checks emptiness. The model checks emptiness first; the result is the same.
- Unbounded integers: state numbers, offsets and group numbers are unbounded. The source's `int` would overflow only far beyond the array sizes above.
