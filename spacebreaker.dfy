/** The space-run overlay on the Unicode line-breaking rules (Unicode Standard
    Annex #14): five rules that replace or precede rules of the generic table
    so that a run of whitespace-like characters becomes one break opportunity
    tagged as space.  Overriding LB2, LB3, LB7 and LB18 makes the result
    deliberately non-conformant to that annex.

    The generic rule table and its evaluation loop are not part of this model:
    a rule is a function from the evaluation state to a verdict and a new
    state, and the table is a sequence of named rules. */
module SpaceBreaking {

  /** The line-break classes the overlay looks at, plus the start- and
      end-of-text pseudo classes; every other class is `OtherClass`. */
  datatype LineBreakClass =
    | SP | BA | B2 | CL | CP | OP | QU | ZW
    | Sot | Eot
    | OtherClass(name: string)

  /** What a rule says about the position between `cur` and `next`. */
  datatype Verdict = Pass | NoBreak | MayBreak | MustBreak

  /** A code point under evaluation; `len` is the length of the chunk it ends. */
  datatype Position = Position(ch: char, cls: LineBreakClass, len: int)

  /** The part of the evaluation state the overlay reads or writes: `fancy` is
      the overlay's own "inside a whitespace run" flag, `space` the space
      property of the break being produced. */
  datatype BreakerState = BreakerState(
    cur: Position,
    next: Position,
    prevChunk: int,
    fancy: bool,
    space: bool)

  datatype Outcome = Outcome(verdict: Verdict, state: BreakerState)

  /** General category Zs (space separator) in the Unicode Character Database. */
  predicate IsZs(c: char) {
    c == '\U{0020}' || c == '\U{00A0}' || c == '\U{1680}' ||
    ('\U{2000}' <= c <= '\U{200A}') ||
    c == '\U{202F}' || c == '\U{205F}' || c == '\U{3000}'
  }

  /** Every SP character, and those BA characters that are a tab or a space
      separator, count as space for wrapping purposes. */
  predicate IsFancySpace(c: char, cls: LineBreakClass)
    ensures cls == SP ==> IsFancySpace(c, cls)
    ensures cls != SP && cls != BA ==> !IsFancySpace(c, cls)
    ensures cls == BA ==> (IsFancySpace(c, cls) <==> c == '\t' || IsZs(c))
  {
    if cls == SP then true
    else if cls != BA then false
    else c == '\t' || IsZs(c)
  }

  predicate NextIsFancy(s: BreakerState) {
    IsFancySpace(s.next.ch, s.next.cls)
  }

  /** Before LB2: text that starts with a space starts inside a run. */
  function InitialSpaces(s: BreakerState): (r: Outcome)
    ensures r.verdict == Pass
    ensures r.state.fancy <==> s.fancy || (s.cur.cls == Sot && NextIsFancy(s))
    ensures r.state == s.(fancy := r.state.fancy)
  {
    if s.cur.cls == Sot && NextIsFancy(s) then Outcome(Pass, s.(fancy := true))
    else Outcome(Pass, s)
  }

  /** Replaces LB3: at end of text a pending empty chunk, or one that
      differs from the previous chunk, must break; it is space-tagged when
      the text ended inside a run. */
  function TrailingSpaces(s: BreakerState): (r: Outcome)
    ensures r.verdict == MustBreak <==>
      s.next.cls == Eot && (s.cur.len == 0 || s.cur.len != s.prevChunk)
    ensures r.verdict != MustBreak ==> r == Outcome(Pass, s)
    ensures r.state.space <==> s.space || (r.verdict == MustBreak && s.fancy)
    ensures r.state == s.(space := r.state.space)
  {
    if s.next.cls == Eot && (s.cur.len == 0 || s.cur.len != s.prevChunk) then
      Outcome(MustBreak, if s.fancy then s.(space := true) else s)
    else Outcome(Pass, s)
  }

  /** Before the generic space-stopping rule: inside a run, a following space
      keeps the run together, and anything else ends it with a space-tagged
      break opportunity. */
  function SpacesBreak(s: BreakerState): (r: Outcome)
    ensures !s.fancy ==> r == Outcome(Pass, s)
    ensures s.fancy && NextIsFancy(s) ==> r == Outcome(NoBreak, s)
    ensures s.fancy && !NextIsFancy(s) ==>
      r == Outcome(MayBreak, s.(fancy := false, space := true))
  {
    if s.fancy then
      if !NextIsFancy(s) then Outcome(MayBreak, s.(fancy := false, space := true))
      else Outcome(NoBreak, s)
    else Outcome(Pass, s)
  }

  /** The classes after which the generic rules (LB8, LB14 to LB17) decide
      what happens before an SP. */
  predicate DefersBeforeSpace(cls: LineBreakClass) {
    cls == ZW || cls == OP || cls == QU || cls == CL || cls == CP || cls == B2
  }

  /** Replaces LB7: never break before ZW; otherwise a space starts a run with
      a break opportunity in front of it, unless the generic rules for the
      preceding class must decide first. */
  function SpacesStart(s: BreakerState): (r: Outcome)
    ensures s.next.cls == ZW ==> r == Outcome(NoBreak, s)
    ensures s.next.cls == SP && DefersBeforeSpace(s.cur.cls) ==> r == Outcome(Pass, s)
    ensures r.verdict == MayBreak <==>
      s.next.cls != ZW && NextIsFancy(s) && !(s.next.cls == SP && DefersBeforeSpace(s.cur.cls))
    ensures r.verdict == MayBreak ==> r.state == s.(fancy := true)
    ensures r.verdict != MayBreak ==> r.state == s
    ensures r.verdict != NoBreak && r.verdict != MayBreak ==> r.verdict == Pass
  {
    if s.next.cls == ZW then Outcome(NoBreak, s)
    else if s.next.cls == SP then
      if DefersBeforeSpace(s.cur.cls) then Outcome(Pass, s)
      else Outcome(MayBreak, s.(fancy := true))
    else if NextIsFancy(s) then Outcome(MayBreak, s.(fancy := true))
    else Outcome(Pass, s)
  }

  /** Replaces LB18: break after SP, tagging the break as space. */
  function BreakAfterSpace(s: BreakerState): (r: Outcome)
    ensures r.verdict == MayBreak <==> s.cur.cls == SP
    ensures r.verdict != MayBreak ==> r == Outcome(Pass, s)
    ensures r.verdict == MayBreak ==> r.state == s.(space := true)
  {
    if s.cur.cls == SP then Outcome(MayBreak, s.(space := true)) else Outcome(Pass, s)
  }

  /** The overlay's extra state when a new evaluation starts. */
  function InitializeState(s: BreakerState): (r: BreakerState)
    ensures !r.fancy
    ensures r.(fancy := s.fancy) == s
  {
    s.(fancy := false)
  }

  // ---------------------------------------------------------------------
  // A whitespace run, seen through the overlay's rules

  /** The verdicts `SpacesBreak` gives at the positions in front of each of
      `nexts`, one after the other, and the state it leaves. */
  function RunVerdicts(s: BreakerState, nexts: seq<Position>): (seq<Verdict>, BreakerState)
    decreases |nexts|
  {
    if nexts == [] then ([], s)
    else
      var o := SpacesBreak(s.(next := nexts[0]));
      var rest := RunVerdicts(o.state, nexts[1..]);
      ([o.verdict] + rest.0, rest.1)
  }

  /** Inside a run, every further space is held together with the run and the
      first other character ends it with one space-tagged break opportunity;
      when every next position is a fancy space, the run is still open
      afterwards (`fancy` stays set). */
  lemma {:induction false} RunStaysAtomic(s: BreakerState, nexts: seq<Position>)
    requires s.fancy
    requires forall i :: 0 <= i < |nexts| - 1 ==> IsFancySpace(nexts[i].ch, nexts[i].cls)
    ensures var (vs, t) := RunVerdicts(s, nexts);
      |vs| == |nexts| &&
      (forall i :: 0 <= i < |nexts| - 1 ==> vs[i] == NoBreak) &&
      (nexts != [] && !IsFancySpace(nexts[|nexts| - 1].ch, nexts[|nexts| - 1].cls) ==>
        vs[|nexts| - 1] == MayBreak && !t.fancy && t.space) &&
      (nexts != [] && IsFancySpace(nexts[|nexts| - 1].ch, nexts[|nexts| - 1].cls) ==>
        vs[|nexts| - 1] == NoBreak && t.fancy && t.space == s.space)
    decreases |nexts|
  {
    if nexts != [] {
      var o := SpacesBreak(s.(next := nexts[0]));
      if |nexts| == 1 {
        assert RunVerdicts(o.state, nexts[1..]) == ([], o.state);
      } else {
        assert IsFancySpace(nexts[0].ch, nexts[0].cls);
        assert o == Outcome(NoBreak, s.(next := nexts[0]));
        RunStaysAtomic(o.state, nexts[1..]);
      }
    }
  }

  /** A run that reaches the end of the text.  Every further space is held
      with the run; at the end-of-text position `trailingSpaces` (in the
      place of LB3, ahead of the generic space-stopping rule and so of
      `LBspacesBreak`) is consulted first.  Either it must break,
      and the break is tagged space, or it passes; `LBspacesStart` then
      passes too, and `LBspacesBreak` closes the run with one space-tagged
      break opportunity. */
  lemma RunEndsAtEot(s: BreakerState, nexts: seq<Position>, e: Position)
    requires s.fancy && e.cls == Eot
    requires forall i :: 0 <= i < |nexts| ==> IsFancySpace(nexts[i].ch, nexts[i].cls)
    ensures var (vs, t) := RunVerdicts(s, nexts);
      var u := t.(next := e);
      var o := TrailingSpaces(u);
      && |vs| == |nexts| && (forall i :: 0 <= i < |nexts| ==> vs[i] == NoBreak)
      && t.fancy
      && (o.verdict == MustBreak ==> o.state.space)
      && (o.verdict != MustBreak ==>
            && o == Outcome(Pass, u)
            && SpacesStart(u) == Outcome(Pass, u)
            && SpacesBreak(u) == Outcome(MayBreak, u.(fancy := false, space := true)))
  {
    RunStaysAtomic(s, nexts);
  }

  /** A run opened by `SpacesStart` in front of its first space: a break
      opportunity before the run, none inside it, and one space-tagged break
      opportunity after it. */
  lemma SpaceRunIsOneBreak(s: BreakerState, rest: seq<Position>)
    requires !s.fancy && s.next.cls != ZW && NextIsFancy(s)
    requires s.next.cls == SP ==> !DefersBeforeSpace(s.cur.cls)
    requires |rest| >= 1 && !IsFancySpace(rest[|rest| - 1].ch, rest[|rest| - 1].cls)
    requires forall i :: 0 <= i < |rest| - 1 ==> IsFancySpace(rest[i].ch, rest[i].cls)
    ensures var o := SpacesStart(s);
      var (vs, t) := RunVerdicts(o.state, rest);
      o.verdict == MayBreak && o.state.space == s.space && |vs| == |rest| &&
      (forall i :: 0 <= i < |rest| - 1 ==> vs[i] == NoBreak) &&
      vs[|rest| - 1] == MayBreak && t.space && !t.fancy
  {
    var o := SpacesStart(s);
    RunStaysAtomic(o.state, rest);
  }

  // ---------------------------------------------------------------------
  // The rule table

  /** An entry of the rule table: one of the generic rules, by name, or one of
      the overlay's. */
  datatype Rule =
    | Base(name: string)
    | InitialSpacesRule
    | TrailingSpacesRule
    | SpacesBreakRule
    | SpacesStartRule
    | BreakAfterSpaceRule

  function NameOf(r: Rule): string {
    match r
    case Base(n) => n
    case InitialSpacesRule => "initialSpaces"
    case TrailingSpacesRule => "trailingSpaces"
    case SpacesBreakRule => "LBspacesBreak"
    case SpacesStartRule => "LBspacesStart"
    case BreakAfterSpaceRule => "LBbreakAfterSpace"
  }

  /** Runs an overlay rule; a generic rule is outside this model and passes. */
  function Apply(r: Rule, s: BreakerState): (o: Outcome)
    ensures r.Base? ==> o == Outcome(Pass, s)
    ensures o.state.cur == s.cur && o.state.next == s.next && o.state.prevChunk == s.prevChunk
    ensures s.space ==> o.state.space
  {
    match r
    case Base(_) => Outcome(Pass, s)
    case InitialSpacesRule => InitialSpaces(s)
    case TrailingSpacesRule => TrailingSpaces(s)
    case SpacesBreakRule => SpacesBreak(s)
    case SpacesStartRule => SpacesStart(s)
    case BreakAfterSpaceRule => BreakAfterSpace(s)
  }

  /** A fresh evaluation, dispatched through the table's entries: no run is
      open, so `LBspacesBreak` passes, and an entry leaves a run open exactly
      when it is `initialSpaces` at the start of the text before a fancy
      space, or `LBspacesStart` where it opens one. */
  lemma FreshRunOpening(s: BreakerState, r: Rule)
    ensures Apply(SpacesBreakRule, InitializeState(s)) == Outcome(Pass, InitializeState(s))
    ensures Apply(r, InitializeState(s)).state.fancy <==>
      || (r == InitialSpacesRule && s.cur.cls == Sot && NextIsFancy(s))
      || (r == SpacesStartRule && s.next.cls != ZW && NextIsFancy(s) &&
          !(s.next.cls == SP && DefersBeforeSpace(s.cur.cls)))
  {
  }

  /** `n` is the name of one of the overlay's own rules. */
  predicate OverlayName(n: string) {
    n == "initialSpaces" || n == "trailingSpaces" || n == "LBspacesBreak" ||
    n == "LBspacesStart" || n == "LBbreakAfterSpace"
  }

  /** An entry carrying a name the overlay does not use is the generic rule
      of that name. */
  lemma NamedBase(r: Rule, name: string)
    requires NameOf(r) == name && !OverlayName(name)
    ensures r == Base(name)
  {
  }

  /** The generic rules the overlay replaces are not named like overlay rules. */
  lemma ReplacedNamesGeneric()
    ensures !OverlayName("LB03") && !OverlayName("LB07") && !OverlayName("LB18")
  {
  }

  /** `t` has an entry named `name`. */
  predicate Has(t: seq<Rule>, name: string) {
    exists i :: 0 <= i < |t| && NameOf(t[i]) == name
  }

  /** The first entry of `t` named `name`. */
  function IndexOf(t: seq<Rule>, name: string): (i: nat)
    requires Has(t, name)
    ensures i < |t| && NameOf(t[i]) == name
    ensures forall j :: 0 <= j < i ==> NameOf(t[j]) != name
  {
    IndexFrom(t, name, 0)
  }

  function IndexFrom(t: seq<Rule>, name: string, k: nat): (i: nat)
    requires exists j :: k <= j < |t| && NameOf(t[j]) == name
    ensures k <= i < |t| && NameOf(t[i]) == name
    ensures forall j :: k <= j < i ==> NameOf(t[j]) != name
    decreases |t| - k
  {
    if NameOf(t[k]) == name then k else IndexFrom(t, name, k + 1)
  }

  /** The table with `r` inserted in front of the entry named `name`. */
  function InsertBefore(t: seq<Rule>, name: string, r: Rule): (u: seq<Rule>)
    requires Has(t, name)
    ensures |u| == |t| + 1
  {
    var i := IndexOf(t, name);
    t[..i] + [r] + t[i..]
  }

  /** The table with the entry named `name` replaced by `r`. */
  function Replace(t: seq<Rule>, name: string, r: Rule): (u: seq<Rule>)
    requires Has(t, name)
    ensures |u| == |t|
  {
    t[IndexOf(t, name) := r]
  }

  lemma InsertKeepsNames(t: seq<Rule>, name: string, r: Rule, other: string)
    requires Has(t, name) && Has(t, other)
    ensures Has(InsertBefore(t, name, r), other)
  {
    var j :| 0 <= j < |t| && NameOf(t[j]) == other;
    var i := IndexOf(t, name);
    var u := InsertBefore(t, name, r);
    if j < i {
      assert u[j] == t[j];
    } else {
      assert u[j + 1] == t[j];
    }
  }

  lemma ReplaceKeepsNames(t: seq<Rule>, name: string, r: Rule, other: string)
    requires Has(t, name) && Has(t, other) && other != name
    ensures Has(Replace(t, name, r), other)
  {
    var j :| 0 <= j < |t| && NameOf(t[j]) == other;
    var i := IndexOf(t, name);
    assert i != j;
    assert Replace(t, name, r)[j] == t[j];
  }

  /** The generic table has every entry the overlay inserts before or replaces,
      and no overlay rule yet. */
  predicate Installable(base: seq<Rule>) {
    (forall r :: r in base ==> r.Base?) &&
    Has(base, "LB02") && Has(base, "LB03") && Has(base, "LBspacesStop") &&
    Has(base, "LB07") && Has(base, "LB18")
  }

  /** The table after the overlay's five changes, in the order the overlay
      makes them. */
  function Installed(base: seq<Rule>): (t: seq<Rule>)
    requires Installable(base)
  {
    var t1 := InsertBefore(base, "LB02", InitialSpacesRule);
    InsertKeepsNames(base, "LB02", InitialSpacesRule, "LB03");
    InsertKeepsNames(base, "LB02", InitialSpacesRule, "LBspacesStop");
    InsertKeepsNames(base, "LB02", InitialSpacesRule, "LB07");
    InsertKeepsNames(base, "LB02", InitialSpacesRule, "LB18");
    var t2 := Replace(t1, "LB03", TrailingSpacesRule);
    ReplaceKeepsNames(t1, "LB03", TrailingSpacesRule, "LBspacesStop");
    ReplaceKeepsNames(t1, "LB03", TrailingSpacesRule, "LB07");
    ReplaceKeepsNames(t1, "LB03", TrailingSpacesRule, "LB18");
    var t3 := InsertBefore(t2, "LBspacesStop", SpacesBreakRule);
    InsertKeepsNames(t2, "LBspacesStop", SpacesBreakRule, "LB07");
    InsertKeepsNames(t2, "LBspacesStop", SpacesBreakRule, "LB18");
    var t4 := Replace(t3, "LB07", SpacesStartRule);
    ReplaceKeepsNames(t3, "LB07", SpacesStartRule, "LB18");
    Replace(t4, "LB18", BreakAfterSpaceRule)
  }

  /** Undoes the overlay entry by entry: inserted rules disappear and each
      replacing rule gives back the generic rule it stands in for. */
  function Undo(r: Rule): seq<Rule> {
    match r
    case Base(_) => [r]
    case InitialSpacesRule => []
    case TrailingSpacesRule => [Base("LB03")]
    case SpacesBreakRule => []
    case SpacesStartRule => [Base("LB07")]
    case BreakAfterSpaceRule => [Base("LB18")]
  }

  function Restore(t: seq<Rule>): seq<Rule> {
    if t == [] then [] else Restore(t[..|t| - 1]) + Undo(t[|t| - 1])
  }

  lemma {:induction false} RestoreAppend(a: seq<Rule>, b: seq<Rule>)
    ensures Restore(a + b) == Restore(a) + Restore(b)
    decreases |b|
  {
    if b == [] {
      assert a + b == a;
    } else {
      var init, last := b[..|b| - 1], b[|b| - 1];
      assert (a + b)[..|a + b| - 1] == a + init;
      assert (a + b)[|a + b| - 1] == last;
      assert Restore(a + b) == Restore(a + init) + Undo(last);
      assert Restore(b) == Restore(init) + Undo(last);
      RestoreAppend(a, init);
    }
  }

  lemma RestoreSingle(r: Rule)
    ensures Restore([r]) == Undo(r)
  {
    assert [r][..0] == [];
  }

  /** A table of generic rules only is its own restoration. */
  lemma RestoreBase(t: seq<Rule>)
    requires forall r :: r in t ==> r.Base?
    ensures Restore(t) == t
  {
    forall i | 0 <= i < |t| ensures t[i].Base? {
      assert t[i] in t;
    }
    RestoreBaseFrom(t, |t|);
  }

  lemma {:induction false} RestoreBaseFrom(t: seq<Rule>, n: nat)
    requires n <= |t| && forall i :: 0 <= i < |t| ==> t[i].Base?
    ensures Restore(t[..n]) == t[..n]
    decreases n
  {
    if n > 0 {
      RestoreBaseFrom(t, n - 1);
      var init := t[..n][..n - 1];
      assert init == t[..n - 1];
      assert Undo(t[n - 1]) == [t[n - 1]];
      assert t[..n] == t[..n - 1] + [t[n - 1]];
    }
  }

  lemma RestoreSplice(a: seq<Rule>, r: Rule, b: seq<Rule>)
    ensures Restore(a + [r] + b) == Restore(a) + Undo(r) + Restore(b)
  {
    RestoreAppend(a + [r], b);
    RestoreAppend(a, [r]);
    RestoreSingle(r);
  }

  lemma RestoreDrop(a: seq<Rule>, r: Rule, b: seq<Rule>)
    requires Undo(r) == []
    ensures Restore(a + [r] + b) == Restore(a + b)
  {
    RestoreSplice(a, r, b);
    RestoreAppend(a, b);
  }

  lemma RestoreSwap(a: seq<Rule>, r: Rule, x: Rule, b: seq<Rule>)
    requires Undo(r) == Undo(x)
    ensures Restore(a + [r] + b) == Restore(a + [x] + b)
  {
    RestoreSplice(a, r, b);
    RestoreSplice(a, x, b);
  }

  lemma SplitAt(t: seq<Rule>, i: nat)
    requires i < |t|
    ensures t == t[..i] + [t[i]] + t[i + 1..]
  {
    assert t[..i + 1] == t[..i] + [t[i]];
    assert t == t[..i + 1] + t[i + 1..];
  }

  lemma RestoreInsert(t: seq<Rule>, name: string, r: Rule)
    requires Has(t, name) && Undo(r) == []
    ensures Restore(InsertBefore(t, name, r)) == Restore(t)
  {
    var i := IndexOf(t, name);
    var a, b := t[..i], t[i..];
    assert t == a + b;
    RestoreDrop(a, r, b);
  }

  lemma RestoreReplace(t: seq<Rule>, name: string, r: Rule)
    requires Has(t, name) && Undo(r) == [Base(name)]
    requires !OverlayName(name)
    ensures Restore(Replace(t, name, r)) == Restore(t)
  {
    var i := IndexOf(t, name);
    var a, x, b := t[..i], t[i], t[i + 1..];
    NamedBase(x, name);
    assert Undo(x) == Undo(r);
    UpdateSplit(t, i, r);
    SplitAt(t, i);
    RestoreSwap(a, r, x, b);
  }

  lemma UpdateSplit(t: seq<Rule>, i: nat, r: Rule)
    requires i < |t|
    ensures t[i := r] == t[..i] + [r] + t[i + 1..]
  {
  }

  /** `t` holds `a` immediately followed by `b`. */
  predicate Adjacent(t: seq<Rule>, a: Rule, b: Rule) {
    exists k :: 0 <= k < |t| - 1 && t[k] == a && t[k + 1] == b
  }

  lemma InsertMakesAdjacent(t: seq<Rule>, name: string, r: Rule)
    requires Has(t, name) && forall x :: x in t ==> x.Base?
    ensures Adjacent(InsertBefore(t, name, r), r, Base(name))
  {
    var i := IndexOf(t, name);
    assert t[i] in t;
    var u := InsertBefore(t, name, r);
    assert u[i] == r && u[i + 1] == t[i] == Base(name);
  }

  /** Inserting anywhere but between them keeps two neighbours adjacent. */
  lemma SpliceKeepsAdjacent(t: seq<Rule>, i: nat, r: Rule, k: nat)
    requires i <= |t| && k + 1 < |t| && i != k + 1
    ensures Adjacent(t[..i] + [r] + t[i..], t[k], t[k + 1])
  {
    var front, back := t[..i] + [r], t[i..];
    var u := front + back;
    assert |front| == i + 1;
    if i <= k {
      assert u[k + 1] == back[k - i] == t[k];
      assert u[k + 2] == back[k + 1 - i] == t[k + 1];
    } else {
      assert u[k] == front[k] == t[k];
      assert u[k + 1] == front[k + 1] == t[k + 1];
    }
  }

  lemma InsertKeepsAdjacent(t: seq<Rule>, name: string, r: Rule, a: Rule, b: Rule)
    requires Has(t, name) && Adjacent(t, a, b) && NameOf(b) != name
    ensures Adjacent(InsertBefore(t, name, r), a, b)
  {
    var k :| 0 <= k < |t| - 1 && t[k] == a && t[k + 1] == b;
    var i := IndexOf(t, name);
    assert i != k + 1;
    SpliceKeepsAdjacent(t, i, r, k);
  }

  lemma ReplaceKeepsAdjacent(t: seq<Rule>, name: string, r: Rule, a: Rule, b: Rule)
    requires Has(t, name) && Adjacent(t, a, b) && NameOf(a) != name && NameOf(b) != name
    ensures Adjacent(Replace(t, name, r), a, b)
  {
    var k :| 0 <= k < |t| - 1 && t[k] == a && t[k + 1] == b;
    var u := Replace(t, name, r);
    assert u[k] == a && u[k + 1] == b;
  }

  function Count(t: seq<Rule>, r: Rule): nat {
    multiset(t)[r]
  }

  /** The five intermediate tables of `Installed`, each change applicable. */
  predicate Stages(base: seq<Rule>, t1: seq<Rule>, t2: seq<Rule>, t3: seq<Rule>,
                   t4: seq<Rule>, t5: seq<Rule>)
  {
    Installable(base) &&
    Has(t1, "LB03") && Has(t2, "LBspacesStop") && Has(t3, "LB07") && Has(t4, "LB18") &&
    t1 == InsertBefore(base, "LB02", InitialSpacesRule) &&
    t2 == Replace(t1, "LB03", TrailingSpacesRule) &&
    t3 == InsertBefore(t2, "LBspacesStop", SpacesBreakRule) &&
    t4 == Replace(t3, "LB07", SpacesStartRule) &&
    t5 == Replace(t4, "LB18", BreakAfterSpaceRule)
  }

  lemma InstallStages(base: seq<Rule>) returns (t1: seq<Rule>, t2: seq<Rule>, t3: seq<Rule>,
                                                t4: seq<Rule>, t5: seq<Rule>)
    requires Installable(base)
    ensures Stages(base, t1, t2, t3, t4, t5) && t5 == Installed(base)
  {
    InsertKeepsNames(base, "LB02", InitialSpacesRule, "LB03");
    InsertKeepsNames(base, "LB02", InitialSpacesRule, "LBspacesStop");
    InsertKeepsNames(base, "LB02", InitialSpacesRule, "LB07");
    InsertKeepsNames(base, "LB02", InitialSpacesRule, "LB18");
    t1 := InsertBefore(base, "LB02", InitialSpacesRule);
    ReplaceKeepsNames(t1, "LB03", TrailingSpacesRule, "LBspacesStop");
    ReplaceKeepsNames(t1, "LB03", TrailingSpacesRule, "LB07");
    ReplaceKeepsNames(t1, "LB03", TrailingSpacesRule, "LB18");
    t2 := Replace(t1, "LB03", TrailingSpacesRule);
    InsertKeepsNames(t2, "LBspacesStop", SpacesBreakRule, "LB07");
    InsertKeepsNames(t2, "LBspacesStop", SpacesBreakRule, "LB18");
    t3 := InsertBefore(t2, "LBspacesStop", SpacesBreakRule);
    ReplaceKeepsNames(t3, "LB07", SpacesStartRule, "LB18");
    t4 := Replace(t3, "LB07", SpacesStartRule);
    t5 := Replace(t4, "LB18", BreakAfterSpaceRule);
  }

  lemma StagesRestore(base: seq<Rule>, t1: seq<Rule>, t2: seq<Rule>, t3: seq<Rule>,
                      t4: seq<Rule>, t5: seq<Rule>)
    requires Stages(base, t1, t2, t3, t4, t5)
    ensures Restore(t5) == base && |t5| == |base| + 2
  {
    ReplacedNamesGeneric();
    RestoreBase(base);
    RestoreInsert(base, "LB02", InitialSpacesRule);
    RestoreReplace(t1, "LB03", TrailingSpacesRule);
    RestoreInsert(t2, "LBspacesStop", SpacesBreakRule);
    RestoreReplace(t3, "LB07", SpacesStartRule);
    RestoreReplace(t4, "LB18", BreakAfterSpaceRule);
  }

  lemma StagesAdjacentInitial(base: seq<Rule>, t1: seq<Rule>, t2: seq<Rule>, t3: seq<Rule>,
                              t4: seq<Rule>, t5: seq<Rule>)
    requires Stages(base, t1, t2, t3, t4, t5)
    ensures Adjacent(t5, InitialSpacesRule, Base("LB02"))
  {
    InsertMakesAdjacent(base, "LB02", InitialSpacesRule);
    ReplaceKeepsAdjacent(t1, "LB03", TrailingSpacesRule, InitialSpacesRule, Base("LB02"));
    InsertKeepsAdjacent(t2, "LBspacesStop", SpacesBreakRule, InitialSpacesRule, Base("LB02"));
    ReplaceKeepsAdjacent(t3, "LB07", SpacesStartRule, InitialSpacesRule, Base("LB02"));
    ReplaceKeepsAdjacent(t4, "LB18", BreakAfterSpaceRule, InitialSpacesRule, Base("LB02"));
  }

  lemma StagesAdjacentBreak(base: seq<Rule>, t1: seq<Rule>, t2: seq<Rule>, t3: seq<Rule>,
                            t4: seq<Rule>, t5: seq<Rule>)
    requires Stages(base, t1, t2, t3, t4, t5)
    ensures Adjacent(t5, SpacesBreakRule, Base("LBspacesStop"))
  {
    var i2 := IndexOf(t2, "LBspacesStop");
    assert t2[i2] == Base("LBspacesStop");
    assert t3[i2] == SpacesBreakRule && t3[i2 + 1] == Base("LBspacesStop");
    ReplaceKeepsAdjacent(t3, "LB07", SpacesStartRule, SpacesBreakRule, Base("LBspacesStop"));
    ReplaceKeepsAdjacent(t4, "LB18", BreakAfterSpaceRule, SpacesBreakRule, Base("LBspacesStop"));
  }

  /** The overlay changes the generic table in exactly five places: undoing
      its entries gives the generic table back unchanged, the two inserted
      rules sit immediately before the rules they were inserted before, the
      table grows by two, and each overlay rule is in it exactly once. */
  lemma InstalledShape(base: seq<Rule>)
    requires Installable(base)
    ensures Restore(Installed(base)) == base
    ensures |Installed(base)| == |base| + 2
    ensures Adjacent(Installed(base), InitialSpacesRule, Base("LB02"))
    ensures Adjacent(Installed(base), SpacesBreakRule, Base("LBspacesStop"))
    ensures Count(Installed(base), InitialSpacesRule) == 1
    ensures Count(Installed(base), TrailingSpacesRule) == 1
    ensures Count(Installed(base), SpacesBreakRule) == 1
    ensures Count(Installed(base), SpacesStartRule) == 1
    ensures Count(Installed(base), BreakAfterSpaceRule) == 1
  {
    var t1, t2, t3, t4, t5 := InstallStages(base);
    StagesRestore(base, t1, t2, t3, t4, t5);
    StagesAdjacentInitial(base, t1, t2, t3, t4, t5);
    StagesAdjacentBreak(base, t1, t2, t3, t4, t5);
    CountsAfterInstall(base, t1, t2, t3, t4, t5, InitialSpacesRule);
    CountsAfterInstall(base, t1, t2, t3, t4, t5, TrailingSpacesRule);
    CountsAfterInstall(base, t1, t2, t3, t4, t5, SpacesBreakRule);
    CountsAfterInstall(base, t1, t2, t3, t4, t5, SpacesStartRule);
    CountsAfterInstall(base, t1, t2, t3, t4, t5, BreakAfterSpaceRule);
  }

  lemma CountConcat(a: seq<Rule>, b: seq<Rule>, x: Rule)
    ensures Count(a + b, x) == Count(a, x) + Count(b, x)
  {
    assert multiset(a + b) == multiset(a) + multiset(b);
  }

  lemma CountSplice(a: seq<Rule>, r: Rule, b: seq<Rule>, x: Rule)
    ensures Count(a + [r] + b, x) == Count(a, x) + Count(b, x) + (if x == r then 1 else 0)
  {
    assert multiset(a + [r] + b) == multiset(a) + multiset{r} + multiset(b);
  }

  lemma CountInsert(t: seq<Rule>, name: string, r: Rule, x: Rule)
    requires Has(t, name)
    ensures Count(InsertBefore(t, name, r), x) == Count(t, x) + (if x == r then 1 else 0)
  {
    var i := IndexOf(t, name);
    var a, b := t[..i], t[i..];
    assert t == a + b;
    CountConcat(a, b, x);
    CountSplice(a, r, b, x);
  }

  lemma CountUpdate(t: seq<Rule>, i: nat, r: Rule, x: Rule)
    requires i < |t|
    ensures Count(t[i := r], x) == Count(t, x) - (if x == t[i] then 1 else 0) + (if x == r then 1 else 0)
  {
    var a, y, b := t[..i], t[i], t[i + 1..];
    SplitAt(t, i);
    UpdateSplit(t, i, r);
    CountSplice(a, r, b, x);
    CountSplice(a, y, b, x);
  }

  /** Replacing a generic rule by name adds one of the replacement and
      removes no overlay rule. */
  lemma CountReplaceBase(t: seq<Rule>, name: string, r: Rule, x: Rule)
    requires Has(t, name) && !x.Base?
    requires !OverlayName(name)
    ensures Count(Replace(t, name, r), x) == Count(t, x) + (if x == r then 1 else 0)
  {
    var i := IndexOf(t, name);
    CountUpdate(t, i, r, x);
    NamedBase(t[i], name);
  }

  lemma CountsAfterInstall(base: seq<Rule>, t1: seq<Rule>, t2: seq<Rule>, t3: seq<Rule>,
                           t4: seq<Rule>, t5: seq<Rule>, x: Rule)
    requires Stages(base, t1, t2, t3, t4, t5) && !x.Base?
    ensures Count(t5, x) == 1
  {
    CountsAfterEnds(base, t1, t2, x);
    ReplacedNamesGeneric();
    CountInsert(t2, "LBspacesStop", SpacesBreakRule, x);
    CountReplaceBase(t3, "LB07", SpacesStartRule, x);
    CountReplaceBase(t4, "LB18", BreakAfterSpaceRule, x);
  }

  /** After the first two stages, only the two rules for the ends of the
      text are present, once each. */
  lemma CountsAfterEnds(base: seq<Rule>, t1: seq<Rule>, t2: seq<Rule>, x: Rule)
    requires Installable(base) && !x.Base? && Has(t1, "LB03")
    requires t1 == InsertBefore(base, "LB02", InitialSpacesRule)
    requires t2 == Replace(t1, "LB03", TrailingSpacesRule)
    ensures Count(t2, x) == if x == InitialSpacesRule || x == TrailingSpacesRule then 1 else 0
  {
    ReplacedNamesGeneric();
    assert x !in base;
    assert Count(base, x) == 0;
    CountInsert(base, "LB02", InitialSpacesRule, x);
    CountReplaceBase(t1, "LB03", TrailingSpacesRule, x);
  }

  /** The space-run breaker: the generic rule table with the overlay's
      changes applied to it in place. */
  class SpaceBreaker {
    var rules: seq<Rule>

    constructor (base: seq<Rule>)
      requires Installable(base)
      ensures rules == Installed(base)
    {
      rules := base;
      new;
      InsertKeepsNames(base, "LB02", InitialSpacesRule, "LB03");
      InsertKeepsNames(base, "LB02", InitialSpacesRule, "LBspacesStop");
      InsertKeepsNames(base, "LB02", InitialSpacesRule, "LB07");
      InsertKeepsNames(base, "LB02", InitialSpacesRule, "LB18");
      AddRuleBefore("LB02", InitialSpacesRule);
      ghost var t1 := rules;
      ReplaceKeepsNames(t1, "LB03", TrailingSpacesRule, "LBspacesStop");
      ReplaceKeepsNames(t1, "LB03", TrailingSpacesRule, "LB07");
      ReplaceKeepsNames(t1, "LB03", TrailingSpacesRule, "LB18");
      ReplaceRule("LB03", TrailingSpacesRule);
      ghost var t2 := rules;
      InsertKeepsNames(t2, "LBspacesStop", SpacesBreakRule, "LB07");
      InsertKeepsNames(t2, "LBspacesStop", SpacesBreakRule, "LB18");
      AddRuleBefore("LBspacesStop", SpacesBreakRule);
      ghost var t3 := rules;
      ReplaceKeepsNames(t3, "LB07", SpacesStartRule, "LB18");
      ReplaceRule("LB07", SpacesStartRule);
      ReplaceRule("LB18", BreakAfterSpaceRule);
    }

    method AddRuleBefore(name: string, rule: Rule)
      requires Has(rules, name)
      modifies this
      ensures rules == InsertBefore(old(rules), name, rule)
    {
      var i := IndexOf(rules, name);
      rules := rules[..i] + [rule] + rules[i..];
    }

    method ReplaceRule(name: string, rule: Rule)
      requires Has(rules, name)
      modifies this
      ensures rules == Replace(old(rules), name, rule)
    {
      var i := IndexOf(rules, name);
      rules := rules[i := rule];
    }
  }
}
