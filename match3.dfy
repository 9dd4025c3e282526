/** What the match layer of the final version (regex.cpp of the third stage)
    computes, as functions over the executor's specification: the text of a
    capture group on an accepted path, the first match (`match`), every match
    (`matchAll`), the `$` template of `replaceAll`, and the splicing of the
    replacements into the text. */
module Match3 {
  import opened Automaton
  import opened Nfa3Spec

  // ----- capture groups on a path -----

  /** The last position of `x` in `s`, or -1 when `x` does not occur. */
  function LastIndex(s: seq<int>, x: int): (k: int)
    ensures -1 <= k < |s|
    ensures k >= 0 ==> s[k] == x
    ensures forall i :: k < i < |s| ==> s[i] != x
  {
    if s == [] then -1
    else if s[|s| - 1] == x then |s| - 1
    else LastIndex(s[..|s| - 1], x)
  }

  /** The first position of `x` in `s` at or after `k`, or `|s|`. */
  function FirstFrom(s: seq<int>, x: int, k: nat): (l: int)
    requires k <= |s|
    ensures k <= l <= |s|
    ensures l < |s| ==> s[l] == x
    ensures forall i :: k <= i < l ==> s[i] != x
    decreases |s| - k
  {
    if k == |s| then |s|
    else if s[k] == x then k
    else FirstFrom(s, x, k + 1)
  }

  /** A path whose consumed pieces lie between its states. */
  predicate Spaced(path: Path)
  {
    |path.states| <= |path.consumes| + 1
  }

  /** Occurrence `sp` (entry state, exit state) of a group is found on the
      path: its entry state occurs, and its exit state occurs at or after the
      entry's last position. */
  predicate Located(path: Path, sp: (int, int))
  {
    var k := LastIndex(path.states, sp.0);
    k >= 0 && FirstFrom(path.states, sp.1, k) < |path.states|
  }

  /** The text a located occurrence spans: the pieces consumed from the
      entry's last position up to the first exit after it. */
  function Piece(path: Path, sp: (int, int)): string
    requires Spaced(path) && Located(path, sp)
  {
    var k := LastIndex(path.states, sp.0);
    Concat(path.consumes[k..FirstFrom(path.states, sp.1, k)])
  }

  /** The group's text by the source's search: occurrences are tried from
      the last recorded to the first, and the first one located gives the
      text; none located gives "". */
  function GroupText(path: Path, spans: seq<(int, int)>): string
    requires Spaced(path)
    decreases |spans|
  {
    if spans == [] then ""
    else if Located(path, spans[|spans| - 1]) then Piece(path, spans[|spans| - 1])
    else GroupText(path, spans[..|spans| - 1])
  }

  /** The group's text is "" when no occurrence is located. */
  lemma {:induction false} GroupTextNone(path: Path, spans: seq<(int, int)>)
    requires Spaced(path)
    requires forall j :: 0 <= j < |spans| ==> !Located(path, spans[j])
    ensures GroupText(path, spans) == ""
    decreases |spans|
  {
    if spans != [] {
      var init := spans[..|spans| - 1];
      assert forall j :: 0 <= j < |init| ==> init[j] == spans[j];
      GroupTextNone(path, init);
    }
  }

  /** Otherwise it is the text of the LAST located occurrence `j`. */
  lemma {:induction false} GroupTextLast(path: Path, spans: seq<(int, int)>, j: int)
    requires Spaced(path) && 0 <= j < |spans| && Located(path, spans[j])
    requires forall j' :: j < j' < |spans| ==> !Located(path, spans[j'])
    ensures GroupText(path, spans) == Piece(path, spans[j])
    decreases |spans|
  {
    if j < |spans| - 1 {
      var init := spans[..|spans| - 1];
      assert forall i :: 0 <= i < |init| ==> init[i] == spans[i];
      GroupTextLast(path, init, j);
    }
  }

  /** A located occurrence spans the text consumed between its entry and its
      exit, which are visited in that order. */
  lemma PieceBetween(path: Path, sp: (int, int))
    requires Spaced(path) && Located(path, sp)
    ensures exists k, l :: 0 <= k <= l < |path.states| && path.states[k] == sp.0 && path.states[l] == sp.1 &&
                           Piece(path, sp) == Concat(path.consumes[k..l])
  {
    var k := LastIndex(path.states, sp.0);
    var l := FirstFrom(path.states, sp.1, k);
    assert path.states[k] == sp.0 && path.states[l] == sp.1;
  }

  /** The texts of groups 0 .. |spans|-1 (the source's `group[i]`, in order). */
  function Groups(path: Path, spans: seq<seq<(int, int)>>): seq<string>
    requires Spaced(path)
  {
    seq(|spans|, i requires 0 <= i < |spans| => GroupText(path, spans[i]))
  }

  // ----- one call of exec -----

  /** What one `exec` from offset `p` hands back: the path (`Reject` when no
      match), the new offset, and the new `Set`. */
  ghost function ExecResult(m: Machine, text: string, v: Visited, p: int): (r: (Path, int, Visited))
    requires Fits(m, text) && 0 <= p <= |text| && !m.isFinal[0]
    ensures r.0.states == [] ==> r.0 == Reject && r.1 == p
    ensures r.0.states != [] ==>
      && r.0.states[0] == 0 && |r.0.consumes| == |r.0.states| - 1
      && p <= r.1 <= |text| && Concat(r.0.consumes) == text[p..r.1]
  {
    ExecOutcome(m, text, v, p);
    var (o, v') := ExecSpec(m, text, v, p);
    if o.Accepted? then (BacktracePath(text, o.buffer[..o.step]), o.buffer[o.step - 1].index, v')
    else (Reject, p, v')
  }

  /** `exec` never forgets a recorded pair, and on an automaton whose final
      states are entered by epsilon rules only, an accepting `exec` records
      at least one new pair. */
  lemma ExecShrinks(m: Machine, text: string, v: Visited, p: int)
    requires Fits(m, text) && 0 <= p <= |text| && !m.isFinal[0]
    ensures Unvisited(m, text, ExecResult(m, text, v, p).2) <= Unvisited(m, text, v)
    ensures ExecResult(m, text, v, p).0.states != [] && FinalEntryEps(m) ==>
      Unvisited(m, text, ExecResult(m, text, v, p).2) < Unvisited(m, text, v)
  {
    ExecOutcome(m, text, v, p);
    ExecSound(m, text, v, p);
    var (o, v') := ExecSpec(m, text, v, p);
    assert ExecResult(m, text, v, p).2 == v';
  }

  // ----- match and matchAll -----

  /** One match: its start and end offsets and the row the source builds,
      the matched text followed by each group's text. */
  datatype Found = Found(start: int, end: int, row: seq<string>)

  /** What the source requires of the automaton a search runs on. */
  ghost predicate Compiled(m: Machine)
  {
    WellFormed(m) && !m.isFinal[0] && FinalEntryEps(m)
  }

  /** A match of `text` with groups `spans`, as `match` reports it. */
  ghost predicate FoundIn(text: string, spans: seq<seq<(int, int)>>, f: Found)
  {
    && 0 <= f.start <= f.end <= |text|
    && |f.row| == 1 + |spans|
    && f.row[0] == text[f.start..f.end]
  }

  /** `match`: exec from offsets 0, 1, 2, ... (the `Set` kept throughout)
      until one accepts; no offset is tried at the end of the text. */
  ghost function FirstMatch(m: Machine, text: string, spans: seq<seq<(int, int)>>, v: Visited, p: int): (r: seq<string>)
    requires WellFormed(m) && Ascii(text) && !m.isFinal[0] && 0 <= p <= |text|
    ensures |text| == 0 ==> r == []
    ensures r != [] ==> exists s, e :: p <= s <= e <= |text| && FoundIn(text, spans, Found(s, e, r))
    decreases |text| - p
  {
    if p == |text| then []
    else
      var (path, p', v') := ExecResult(m, text, v, p);
      if path.states != [] then
        assert FoundIn(text, spans, Found(p, p', [Concat(path.consumes)] + Groups(path, spans)));
        [Concat(path.consumes)] + Groups(path, spans)
      else FirstMatch(m, text, spans, v', p + 1)
  }

  /** The matches are in text order and do not overlap. */
  ghost predicate Ordered(fs: seq<Found>)
  {
    forall i, j :: 0 <= i < j < |fs| ==> fs[i].end <= fs[j].start
  }

  /** Every match of `fs` lies at or after offset `p`. */
  ghost predicate From(fs: seq<Found>, p: int)
  {
    forall i :: 0 <= i < |fs| ==> p <= fs[i].start
  }

  /** The loop of `matchAll` (and of `replaceAll`): after an accepted exec
      the next one starts where the match ended, after a rejected one at the
      next offset.  An empty match repeats the offset, and then the `Set`
      kept from the previous calls is what ends the scan: it has strictly
      grown. */
  ghost function AllMatches(m: Machine, text: string, spans: seq<seq<(int, int)>>, v: Visited, p: int): (r: seq<Found>)
    requires Compiled(m) && Ascii(text) && 0 <= p <= |text|
    ensures Ordered(r) && From(r, p)
    ensures forall i :: 0 <= i < |r| ==> FoundIn(text, spans, r[i])
    decreases |text| - p, Unvisited(m, text, v)
  {
    if p == |text| then []
    else
      var (path, p', v') := ExecResult(m, text, v, p);
      ExecShrinks(m, text, v, p);
      if path.states != [] then
        var f := Found(p, p', [Concat(path.consumes)] + Groups(path, spans));
        var rest := AllMatches(m, text, spans, v', p');
        FoundFirst(text, spans, f, rest);
        [f] + rest
      else AllMatches(m, text, spans, v', p + 1)
  }

  /** What `exec` leaves behind, as its contract states it, is `ExecResult`. */
  lemma ExecResultOf(m: Machine, text: string, v: Visited, p: int, r: Path, p': int, v': Visited)
    requires Fits(m, text) && 0 <= p <= |text| && !m.isFinal[0]
    requires var (o, w) := ExecSpec(m, text, v, p);
      && v' == w
      && (o.Rejected? ==> r == Reject && p' == p)
      && (o.Accepted? ==>
            && 1 <= o.step <= |o.buffer|
            && r == BacktracePath(text, o.buffer[..o.step])
            && p' == o.buffer[o.step - 1].index)
    ensures ExecResult(m, text, v, p) == (r, p', v')
    ensures r.states == [] ==> r == Reject && p' == p
  {
    var (o, w) := ExecSpec(m, text, v, p);
    if o.Accepted? {
      assert ExecResult(m, text, v, p) == (BacktracePath(text, o.buffer[..o.step]), o.buffer[o.step - 1].index, w);
    } else {
      assert ExecResult(m, text, v, p) == (Reject, p, w);
    }
  }

  /** A rejected `exec` moves `match` on to the next offset. */
  lemma FirstMatchMiss(m: Machine, text: string, spans: seq<seq<(int, int)>>, v: Visited, p: int, v': Visited)
    requires WellFormed(m) && Ascii(text) && !m.isFinal[0] && 0 <= p < |text|
    requires ExecResult(m, text, v, p) == (Reject, p, v')
    ensures FirstMatch(m, text, spans, v, p) == FirstMatch(m, text, spans, v', p + 1)
  {
  }

  /** An accepted `exec` ends `match` with its row. */
  lemma FirstMatchHit(m: Machine, text: string, spans: seq<seq<(int, int)>>, v: Visited, p: int,
                      path: Path, p': int, v': Visited)
    requires WellFormed(m) && Ascii(text) && !m.isFinal[0] && 0 <= p < |text|
    requires ExecResult(m, text, v, p) == (path, p', v') && path.states != []
    ensures FirstMatch(m, text, spans, v, p) == [Concat(path.consumes)] + Groups(path, spans)
  {
  }

  /** A rejected `exec` moves the `matchAll` scan on to the next offset. */
  lemma AllMatchesMiss(m: Machine, text: string, spans: seq<seq<(int, int)>>, v: Visited, p: int, v': Visited)
    requires Compiled(m) && Ascii(text) && 0 <= p < |text|
    requires ExecResult(m, text, v, p) == (Reject, p, v')
    ensures AllMatches(m, text, spans, v, p) == AllMatches(m, text, spans, v', p + 1)
  {
  }

  /** An accepted `exec` records a match that starts where the matched text
      begins, and the scan goes on from its end. */
  lemma AllMatchesHit(m: Machine, text: string, spans: seq<seq<(int, int)>>, v: Visited, p: int,
                      path: Path, p': int, v': Visited)
    requires Compiled(m) && Ascii(text) && 0 <= p < |text|
    requires ExecResult(m, text, v, p) == (path, p', v') && path.states != []
    ensures p <= p' <= |text| && p == p' - |Concat(path.consumes)|
    ensures AllMatches(m, text, spans, v, p) ==
      [Found(p' - |Concat(path.consumes)|, p', [Concat(path.consumes)] + Groups(path, spans))]
        + AllMatches(m, text, spans, v', p')
  {
  }

  /** A match followed by the matches from its end on keeps them in order. */
  lemma FoundFirst(text: string, spans: seq<seq<(int, int)>>, f: Found, rest: seq<Found>)
    requires 0 <= f.start <= f.end <= |text| && |f.row| == 1 + |spans| && f.row[0] == text[f.start..f.end]
    requires Ordered(rest) && From(rest, f.end) && forall i :: 0 <= i < |rest| ==> FoundIn(text, spans, rest[i])
    ensures Ordered([f] + rest) && From([f] + rest, f.start)
    ensures forall i :: 0 <= i < |rest| + 1 ==> FoundIn(text, spans, ([f] + rest)[i])
  {
    var r := [f] + rest;
    assert forall i :: 0 < i < |r| ==> r[i] == rest[i - 1];
  }

  /** The rows of the matches, as `matchAll` returns them. */
  function Rows(fs: seq<Found>): seq<seq<string>>
  {
    seq(|fs|, i requires 0 <= i < |fs| => fs[i].row)
  }

  // ----- the replacement template -----

  predicate IsDigitChar(c: char) { '0' <= c <= '9' }

  /** The end of the run of digits starting at `k`. */
  function DigitsEnd(t: string, k: nat): (e: nat)
    requires k <= |t|
    ensures k <= e <= |t|
    ensures e < |t| ==> !IsDigitChar(t[e])
    decreases |t| - k
  {
    if k < |t| && IsDigitChar(t[k]) then DigitsEnd(t, k + 1) else k
  }

  /** Everything from `k` up to `DigitsEnd(t, k)` is a digit. */
  lemma {:induction false} DigitsRun(t: string, k: nat, i: int)
    requires k <= |t| && k <= i < DigitsEnd(t, k)
    ensures IsDigitChar(t[i])
    decreases |t| - k
  {
    if k < i {
      DigitsRun(t, k + 1, i);
    }
  }

  /** The value of a string of decimal digits (`std::stoi` on it). */
  function Number(ds: string): nat
  {
    if ds == [] then 0 else 10 * Number(ds[..|ds| - 1]) + DigitValue(ds[|ds| - 1])
  }

  function DigitValue(c: char): nat
  {
    if IsDigitChar(c) then c as int - '0' as int else 0
  }

  /** The first token of a non-empty template: what it stands for, and the
      length it spans.  `$$` stands for `$`; `$N`, a run of digits, for
      `groups[N]` when that exists and for nothing otherwise; every other
      character, a `$` at the end or before another character included,
      for itself. */
  function Lead(t: string, groups: seq<string>): (r: (string, nat))
    requires |t| > 0
    ensures 1 <= r.1 <= |t|
  {
    if t[0] == '$' && |t| > 1 && t[1] == '$' then ("$", 2)
    else if t[0] == '$' && |t| > 1 && IsDigitChar(t[1]) then
      var k := DigitsEnd(t, 1);
      var n := Number(t[1..k]);
      (if n < |groups| then groups[n] else "", k)
    else ([t[0]], 1)
  }

  /** The template with each token replaced by what it stands for, from left
      to right; inserted group text is not scanned again. */
  function Substitute(t: string, groups: seq<string>): string
    decreases |t|
  {
    if t == [] then "" else Lead(t, groups).0 + Substitute(t[Lead(t, groups).1..], groups)
  }

  /** A template without `$` is copied unchanged. */
  lemma {:induction false} SubstitutePlain(t: string, groups: seq<string>)
    requires forall i :: 0 <= i < |t| ==> t[i] != '$'
    ensures Substitute(t, groups) == t
    decreases |t|
  {
    if |t| > 0 {
      SubstitutePlain(t[1..], groups);
    }
  }

  /** Every `$` doubled: the escaped form of a literal text. */
  function Escape(s: string): (t: string)
    ensures |t| >= |s|
  {
    if s == [] then []
    else (if s[0] == '$' then "$$" else [s[0]]) + Escape(s[1..])
  }

  /** Substituting into an escaped text gives the text back, whatever the
      groups. */
  lemma {:induction false} SubstituteEscape(s: string, groups: seq<string>)
    ensures Substitute(Escape(s), groups) == s
    decreases |s|
  {
    if s != [] {
      var t := Escape(s);
      SubstituteEscape(s[1..], groups);
      if s[0] == '$' {
        assert t[..2] == "$$" && t[2..] == Escape(s[1..]);
      } else {
        assert t[0] == s[0] && t[1..] == Escape(s[1..]);
      }
      assert s == [s[0]] + s[1..];
    }
  }

  /** A reference to a group that is present inserts exactly that group's
      text, even when it holds `$`. */
  lemma SubstituteGroup(d: char, rest: string, groups: seq<string>)
    requires IsDigitChar(d) && (rest == [] || !IsDigitChar(rest[0]))
    requires DigitValue(d) < |groups|
    ensures Substitute(['$', d] + rest, groups) == groups[DigitValue(d)] + Substitute(rest, groups)
  {
    var t := ['$', d] + rest;
    assert t[0] == '$' && t[1] == d && t[2..] == rest;
    assert DigitsEnd(t, 2) == 2;
    assert t[1..2] == [d];
    assert Number([d]) == DigitValue(d) by {
      assert [d][..0] == [];
    }
    assert Lead(t, groups) == (groups[DigitValue(d)], 2);
  }

  // ----- splicing the replacements -----

  /** One replacement: the start of the replaced text, its length, and the
      text put in its place. */
  datatype Edit = Edit(at: int, len: int, text: string)

  /** Replacing `e.len` characters from offset `e.at` by `e.text`. */
  function Splice(text: string, e: Edit): (r: string)
    requires 0 <= e.at && 0 <= e.len && e.at + e.len <= |text|
    ensures |r| == |text| - e.len + |e.text|
  {
    text[..e.at] + e.text + text[e.at + e.len..]
  }

  /** The edits lie in the text between offsets `from` and `n`, in order
      and without overlap. */
  ghost predicate Disjoint(es: seq<Edit>, from: int, n: int)
    decreases |es|
  {
    if es == [] then from <= n
    else 0 <= es[0].len && from <= es[0].at && es[0].at + es[0].len <= n && Disjoint(es[1..], es[0].at + es[0].len, n)
  }

  /** All but the last of disjoint edits end before the last begins. */
  lemma {:induction false} DisjointInit(es: seq<Edit>, from: int, n: int)
    requires es != [] && Disjoint(es, from, n)
    ensures var e := es[|es| - 1];
      from <= e.at && 0 <= e.len && e.at + e.len <= n && Disjoint(es[..|es| - 1], from, e.at)
    decreases |es|
  {
    if |es| > 1 {
      DisjointInit(es[1..], es[0].at + es[0].len, n);
      assert es[1..][..|es| - 2] == es[..|es| - 1][1..];
    }
  }

  /** Disjoint edits stay disjoint in a longer text. */
  lemma {:induction false} DisjointWiden(es: seq<Edit>, from: int, n: int, n': int)
    requires Disjoint(es, from, n) && n <= n'
    ensures Disjoint(es, from, n')
    decreases |es|
  {
    if es != [] {
      DisjointWiden(es[1..], es[0].at + es[0].len, n, n');
    }
  }

  /** An edit after the others, in the text, extends them. */
  lemma {:induction false} DisjointSnoc(es: seq<Edit>, e: Edit, from: int, n: int)
    requires 0 <= e.len && e.at + e.len <= n && Disjoint(es, from, e.at)
    ensures Disjoint(es + [e], from, n)
    decreases |es|
  {
    if es == [] {
      assert [e][1..] == [];
    } else {
      DisjointSnoc(es[1..], e, es[0].at + es[0].len, n);
      assert (es + [e])[1..] == es[1..] + [e];
    }
  }

  /** The source's final loop: the edits applied from the last to the first,
      so that the offsets of the earlier ones stay valid. */
  function SpliceBack(text: string, es: seq<Edit>): string
    requires Disjoint(es, 0, |text|)
    decreases |es|
  {
    if es == [] then text
    else
      var e := es[|es| - 1];
      DisjointInit(es, 0, |text|);
      var t := Splice(text, e);
      DisjointWiden(es[..|es| - 1], 0, e.at, |t|);
      SpliceBack(t, es[..|es| - 1])
  }

  /** The rewritten text read from left to right, from offset `from`: the
      text up to each edit, then the edit's replacement, then on after the
      replaced text. */
  function Rewrite(text: string, es: seq<Edit>, from: int): string
    requires 0 <= from && Disjoint(es, from, |text|)
    decreases |es|
  {
    if es == [] then text[from..]
    else text[from..es[0].at] + es[0].text + Rewrite(text, es[1..], es[0].at + es[0].len)
  }

  /** Applying the last edit first leaves the earlier edits reading the text
      they would have read. */
  lemma {:induction false} RewriteLast(text: string, es: seq<Edit>, e: Edit, from: int)
    requires 0 <= from && 0 <= e.len && e.at + e.len <= |text| && Disjoint(es, from, e.at)
    ensures Disjoint(es, from, |Splice(text, e)|) && Disjoint(es + [e], from, |text|)
    ensures Rewrite(Splice(text, e), es, from) == Rewrite(text, es + [e], from)
    decreases |es|
  {
    DisjointSnoc(es, e, from, |text|);
    DisjointWiden(es, from, e.at, |Splice(text, e)|);
    if es == [] {
      RewriteOnly(text, e, from);
    } else {
      var t := Splice(text, e);
      var f, end := es[0], es[0].at + es[0].len;
      var es' := es + [e];
      assert es'[0] == f && es'[1..] == es[1..] + [e];
      RewriteLast(text, es[1..], e, end);
      var tail := Rewrite(t, es[1..], end);
      assert Rewrite(t, es, from) == t[from..f.at] + f.text + tail;
      assert Rewrite(text, es', from) == text[from..f.at] + f.text + tail;
      SplicePrefix(text, e, from, f.at);
    }
  }

  /** A splice leaves the text before it alone. */
  lemma SplicePrefix(text: string, e: Edit, a: int, b: int)
    requires 0 <= a <= b <= e.at && 0 <= e.len && e.at + e.len <= |text|
    ensures Splice(text, e)[a..b] == text[a..b]
  {
  }

  lemma RewriteOnly(text: string, e: Edit, from: int)
    requires 0 <= from <= e.at && 0 <= e.len && e.at + e.len <= |text|
    ensures Disjoint([e], from, |text|)
    ensures Splice(text, e)[from..] == Rewrite(text, [e], from)
  {
    assert [e][1..] == [];
    assert Rewrite(text, [e], from) == text[from..e.at] + e.text + text[e.at + e.len..];
  }

  /** Splicing from the last edit back to the first gives the left-to-right
      rewriting of the text. */
  lemma {:induction false} SpliceBackRewrites(text: string, es: seq<Edit>)
    requires Disjoint(es, 0, |text|)
    ensures SpliceBack(text, es) == Rewrite(text, es, 0)
    decreases |es|
  {
    if es != [] {
      var e := es[|es| - 1];
      var init := es[..|es| - 1];
      DisjointInit(es, 0, |text|);
      RewriteLast(text, init, e, 0);
      SpliceBackRewrites(Splice(text, e), init);
      assert init + [e] == es;
    }
  }

  /** The edits `replaceAll` makes for matches `fs` with template `t`: each
      matched text replaced by the template substituted with that match's
      row. */
  function Edits(fs: seq<Found>, t: string): seq<Edit>
    requires forall i :: 0 <= i < |fs| ==> |fs[i].row| >= 1
  {
    seq(|fs|, i requires 0 <= i < |fs| => Edit(fs[i].start, |fs[i].row[0]|, Substitute(t, fs[i].row)))
  }

  /** The edits of the matches `AllMatches` finds lie in order inside the
      text, so splicing them is defined. */
  lemma {:induction false} EditsDisjoint(text: string, spans: seq<seq<(int, int)>>, fs: seq<Found>, t: string, from: int)
    requires Ordered(fs) && From(fs, from) && from <= |text|
    requires forall i :: 0 <= i < |fs| ==> FoundIn(text, spans, fs[i])
    ensures forall i :: 0 <= i < |fs| ==> |fs[i].row| >= 1
    ensures Disjoint(Edits(fs, t), from, |text|)
    decreases |fs|
  {
    assert forall i :: 0 <= i < |fs| ==> |fs[i].row| >= 1 by {
      assert forall i :: 0 <= i < |fs| ==> FoundIn(text, spans, fs[i]);
    }
    if fs != [] {
      var f := fs[0];
      assert FoundIn(text, spans, f);
      var rest := fs[1..];
      assert forall i :: 0 <= i < |rest| ==> rest[i] == fs[i + 1];
      EditsDisjoint(text, spans, rest, t, f.end);
      assert Edits(fs, t)[1..] == Edits(rest, t);
    }
  }

  /** `replaceAll`: every match, found as `matchAll` finds them, replaced by
      the substituted template. */
  ghost function ReplaceAllSpec(m: Machine, text: string, spans: seq<seq<(int, int)>>, v: Visited, t: string): string
    requires Compiled(m) && Ascii(text)
  {
    ReplaceMatches(text, spans, AllMatches(m, text, spans, v, 0), t)
  }

  /** The text with the matches `fs` replaced, each by the template `t`
      substituted with that match's row. */
  ghost function ReplaceMatches(text: string, spans: seq<seq<(int, int)>>, fs: seq<Found>, t: string): string
    requires Ordered(fs) && From(fs, 0)
    requires forall i :: 0 <= i < |fs| ==> FoundIn(text, spans, fs[i])
  {
    EditsDisjoint(text, spans, fs, t, 0);
    Rewrite(text, Edits(fs, t), 0)
  }

  /** Splicing edit `i`, the last of the first `i + 1`, leaves the first `i`
      disjoint in the new text and the back-to-front splicing unchanged. */
  lemma SpliceBackStep(r: string, es: seq<Edit>, i: nat)
    requires i < |es| && Disjoint(es[..i + 1], 0, |r|)
    ensures 0 <= es[i].at && 0 <= es[i].len && es[i].at + es[i].len <= |r|
    ensures Disjoint(es[..i], 0, |Splice(r, es[i])|)
    ensures SpliceBack(Splice(r, es[i]), es[..i]) == SpliceBack(r, es[..i + 1])
  {
    var pre := es[..i + 1];
    DisjointInit(pre, 0, |r|);
    assert pre[|pre| - 1] == es[i] && pre[..|pre| - 1] == es[..i];
    DisjointWiden(es[..i], 0, es[i].at, |Splice(r, es[i])|);
  }

  /** The final loop of `replaceAll`: from the last match back to the
      first, the matched text replaced by the substituted template. */
  method SpliceAll(text: string, ghost spans: seq<seq<(int, int)>>, fs: seq<Found>, replacement: string) returns (r: string)
    requires Ordered(fs) && From(fs, 0)
    requires forall i :: 0 <= i < |fs| ==> FoundIn(text, spans, fs[i])
    ensures r == ReplaceMatches(text, spans, fs, replacement)
  {
    EditsDisjoint(text, spans, fs, replacement, 0);
    ghost var es := Edits(fs, replacement);
    r := text;
    var i := |fs|;
    assert es[..i] == es;
    while i > 0
      invariant 0 <= i <= |fs| && Disjoint(es[..i], 0, |r|)
      invariant SpliceBack(r, es[..i]) == SpliceBack(text, es)
    {
      i := i - 1;
      SpliceBackStep(r, es, i);
      var tmp := SubstituteTemplate(replacement, fs[i].row);
      r := Splice(r, Edit(fs[i].start, |fs[i].row[0]|, tmp));
    }
    SpliceBackRewrites(text, es);
  }

  // ----- the loops of the match layer -----

  /** The backward search of the group loop: from the last position of
      the path down, the first position holding `x`, or -1.  The source
      compares the state before it checks the bound; here the bound comes
      first. */
  method LastIndexOf(s: seq<int>, x: int) returns (k: int)
    ensures k == LastIndex(s, x)
  {
    k := |s| - 1;
    assert s[..k + 1] == s;
    while k >= 0 && s[k] != x
      invariant -1 <= k < |s|
      invariant LastIndex(s[..k + 1], x) == LastIndex(s, x)
      decreases k
    {
      assert s[..k + 1][..k] == s[..k];
      k := k - 1;
    }
  }

  /** The forward search of the group loop: from position `k` up, the
      first position holding `x`, or the path's length.  The source
      compares the state before it checks the bound; here the bound comes
      first. */
  method FirstIndexFrom(s: seq<int>, x: int, k: nat) returns (l: int)
    requires k <= |s|
    ensures l == FirstFrom(s, x, k)
  {
    l := k;
    while l < |s| && s[l] != x
      invariant k <= l <= |s|
      invariant FirstFrom(s, x, l) == FirstFrom(s, x, k)
      decreases |s| - l
    {
      l := l + 1;
    }
  }

  /** The loop that joins the consumed pieces from position `k` up to,
      but not including, position `l`. */
  method JoinPieces(pieces: seq<string>, k: int, l: int) returns (str: string)
    requires 0 <= k <= l <= |pieces|
    ensures str == Concat(pieces[k..l])
  {
    str := "";
    var i := k;
    while i < l
      invariant k <= i <= l && str == Concat(pieces[k..i])
    {
      assert pieces[k..i + 1][..i - k] == pieces[k..i];
      str := str + pieces[i];
      i := i + 1;
    }
  }

  /** The scan over the digits of a `$N` reference; at the end of the
      template the terminating NUL stops it. */
  method DigitRunEnd(t: string, k: nat) returns (e: nat)
    requires k <= |t|
    ensures e == DigitsEnd(t, k)
  {
    e := k;
    while e < |t| && IsDigitChar(t[e])
      invariant k <= e <= |t| && DigitsEnd(t, e) == DigitsEnd(t, k)
      decreases |t| - e
    {
      e := e + 1;
    }
  }

  /** The run of digits in a suffix ends where it ends in the whole text. */
  lemma {:induction false} DigitsEndSuffix(t: string, j: nat, k: nat)
    requires j <= k <= |t|
    ensures DigitsEnd(t[j..], k - j) == DigitsEnd(t, k) - j
    decreases |t| - k
  {
    if k < |t| && IsDigitChar(t[k]) {
      DigitsEndSuffix(t, j, k + 1);
    }
  }

  /** The template loop of `replaceAll`, rewriting `tmp` in place: it yields
      the template substituted with the match's row `groups`. */
  method SubstituteTemplate(replacement: string, groups: seq<string>) returns (tmp: string)
    ensures tmp == Substitute(replacement, groups)
  {
    ghost var r := Substitute(replacement, groups);
    tmp := replacement;
    var j := 0;
    while j < |tmp|
      invariant Scanned(tmp, j, groups, r)
      decreases |tmp| - j
    {
      tmp, j := TemplateStep(tmp, j, groups, r);
    }
  }

  /** One pass of the template loop at position `j`: a `$$` loses its first
      `$`, a `$N` is replaced by group `N` (or erased when there is none),
      and anything else is stepped over. */
  method TemplateStep(tmp: string, j: int, groups: seq<string>, ghost r: string) returns (tmp': string, j': int)
    requires Scanned(tmp, j, groups, r) && j < |tmp|
    ensures Scanned(tmp', j', groups, r) && |tmp'| - j' < |tmp| - j
  {
    LeadAt(tmp, j, groups);
    if tmp[j] != '$' || j == |tmp| - 1 {
      Replaced(tmp, j, [tmp[j]], j + 1, groups, r);
      assert tmp[..j] + [tmp[j]] + tmp[j + 1..] == tmp;
      return tmp, j + 1;
    }
    if tmp[j + 1] == '$' {
      Replaced(tmp, j, "$", j + 2, groups, r);
      assert tmp[..j] + "$" + tmp[j + 2..] == tmp[..j] + tmp[j + 1..];
      return tmp[..j] + tmp[j + 1..], j + 1;
    }
    if !IsDigitChar(tmp[j + 1]) {
      Replaced(tmp, j, [tmp[j]], j + 1, groups, r);
      assert tmp[..j] + [tmp[j]] + tmp[j + 1..] == tmp;
      return tmp, j + 1;
    }
    tmp', j' := PutGroup(tmp, j, groups, r);
  }

  /** The `$N` branch of the template loop: the reference is replaced by
      group `N`, or erased when there is no such group. */
  method PutGroup(tmp: string, j: int, groups: seq<string>, ghost r: string) returns (tmp': string, j': int)
    requires Scanned(tmp, j, groups, r) && j + 1 < |tmp| && tmp[j] == '$' && IsDigitChar(tmp[j + 1])
    ensures Scanned(tmp', j', groups, r) && |tmp'| - j' < |tmp| - j
  {
    LeadAt(tmp, j, groups);
    var k := DigitRunEnd(tmp, j + 1);
    var num := Number(tmp[j + 1..k]);
    if num < |groups| {
      Replaced(tmp, j, groups[num], k, groups, r);
      return tmp[..j] + groups[num] + tmp[k..], j + |groups[num]|;
    }
    Replaced(tmp, j, "", k, groups, r);
    assert tmp[..j] + "" + tmp[k..] == tmp[..j] + tmp[k..];
    return tmp[..j] + tmp[k..], j;
  }

  /** The first token of the template's rest from `j`, read off the whole
      template. */
  lemma LeadAt(t: string, j: int, g: seq<string>)
    requires 0 <= j < |t|
    ensures Lead(t[j..], g) ==
      if t[j] == '$' && j + 1 < |t| && t[j + 1] == '$' then ("$", 2)
      else if t[j] == '$' && j + 1 < |t| && IsDigitChar(t[j + 1]) then
        var k := DigitsEnd(t, j + 1);
        var n := Number(t[j + 1..k]);
        (if n < |g| then g[n] else "", k - j)
      else ([t[j]], 1)
  {
    var u := t[j..];
    assert u[0] == t[j];
    if t[j] == '$' && j + 1 < |t| && t[j + 1] != '$' && IsDigitChar(t[j + 1]) {
      DigitsEndSuffix(t, j, j + 1);
      var k := DigitsEnd(t, j + 1);
      assert u[1] == t[j + 1] && u[1..k - j] == t[j + 1..k];
    }
  }

  /** The template loop's invariant: what lies before the scan position `j`
      followed by the substituted rest is the substituted template `r`. */
  ghost predicate Scanned(t: string, j: int, g: seq<string>, r: string)
  {
    0 <= j <= |t| && t[..j] + Substitute(t[j..], g) == r
  }

  /** One token of the loop: replaced in place by what it stands for, with
      the scan going on after the replacement. */
  lemma Replaced(t: string, j: int, o: string, e: int, g: seq<string>, r: string)
    requires Scanned(t, j, g, r) && j < e <= |t| && Lead(t[j..], g) == (o, e - j)
    ensures Scanned(t[..j] + o + t[e..], j + |o|, g, r)
  {
    var t' := t[..j] + o + t[e..];
    assert t'[..j + |o|] == t[..j] + o && t'[j + |o|..] == t[j..][e - j..];
  }
}
