/** A macro use runs as a `begin` of its expansion. */
module Macros {
  import opened Values
  import opened EnvStore
  import opened Compiler
  import opened Machine
  import opened Semantics
  import opened WellFormed
  import opened FrameDiscipline
  import opened Activations
  import opened Peaks
  import opened InterpreterProof
  import opened Contexts
  import opened Counting
  import Transparency
  import SyntaxRules

  // ---------- how an activation ends, at most once ----------

  lemma OneEnd(st: VM, v: Value, n: nat, w: Value, k: nat)
    requires st.status.Running? && GivesIn(st, v, n) && GivesIn(st, w, k)
    ensures n == k && v == w
  {
    hide Step, After, Above;
    if n < k { StillThere(st, n, k, |st.frames|); }
    if k < n { StillThere(st, k, n, |st.frames|); }
    if st.frames != [] {
      var sp := Base(st.frames);
      assert (st.stack[..sp] + [v])[sp] == (st.stack[..sp] + [w])[sp];
    }
  }

  lemma {:induction false} StillThere(st: VM, n: nat, k: nat, d: nat)
    requires n < k && Above(st, k, d)
    ensures After(st, n).status.Running? && |After(st, n).frames| >= d && Above(st, n, d)
    decreases n
  {
    hide Step;
    if n > 0 { StillThere(Step(st), n - 1, k - 1, d); }
  }

  /** The first state that is not running at depth `d` or more. */
  lemma {:induction false} FirstLeaves(st: VM, n: nat, d: nat) returns (j: nat)
    requires st.status.Running? && |st.frames| >= d && !Above(st, n, d)
    ensures 0 < j < n && Above(st, j, d)
    ensures !(After(st, j).status.Running? && |After(st, j).frames| >= d)
    decreases n
  {
    hide Step;
    var next := Step(st);
    if next.status.Running? && |next.frames| >= d {
      var i := FirstLeaves(next, n - 1, d);
      j := i + 1;
    } else {
      j := 1;
      assert Above(next, 0, d) && After(next, 0) == next;
    }
  }

  lemma DoneHasNoFrames(st: VM)
    requires Nested(st) && st.status.Running? && Step(st).status.Done?
    ensures st.frames == []
  {
    hide Step;
    if st.frames != [] {
      var m := Move(|st.frames|, Base(st.frames), st.frames, st.stack[..Base(st.frames)]);
      assert st.frames[..m.k] == st.frames;
      NestedHolds(m, st);
      StepMoves(m, st);
    }
  }

  lemma {:induction false} NestedAlong(st: VM, n: nat, d: nat)
    requires Nested(st) && Above(st, n + 1, d)
    ensures Nested(After(st, n))
    decreases n
  {
    OneAbove(st, n, d);
    RunsNest(st, n);
  }

  /** An activation with a caller that leaves its depth running has returned something. */
  lemma LeavingReturns(st: VM, n: nat) returns (w: Value)
    requires Nested(st) && st.frames != [] && Above(st, n, |st.frames|)
    requires After(st, n).status.Running? && |After(st, n).frames| < |st.frames|
    ensures GivesIn(st, w, n)
  {
    hide Step, After, Above;
    var d, post := |st.frames|, After(st, n);
    CallsBalance(st, n, d);
    var f := st.frames[d - 1];
    w := post.stack[f.sp];
    assert post.stack == post.stack[..f.sp] + [w];
  }

  // ---------- one step into a callee ----------

  /** `st` goes on in one more frame, and returns what that frame's activation returns. */
  ghost predicate Delegates(st: VM) {
    var inner := Step(st);
    && st.status.Running? && inner.status.Running? && Nested(st)
    && |inner.frames| == |st.frames| + 1
    && forall w, n: nat | GivesIn(inner, w, n) :: Gives(st, w)
  }

  /** Where the callee leaves its depth: with a value that `st` then returns, or stopped. */
  lemma CalleeLeaves(st: VM, n: nat) returns (j: nat, w: Value)
    requires Delegates(st) && !Above(Step(st), n, |st.frames| + 1)
    ensures j < n && Above(Step(st), j, |st.frames| + 1)
    ensures After(Step(st), j).status.Running? ==> GivesIn(Step(st), w, j) && Gives(st, w)
    ensures !After(Step(st), j).status.Done?
  {
    hide Step, After, Above;
    var inner, d := Step(st), |st.frames| + 1;
    StepDiscipline(st);
    j := FirstLeaves(inner, n, d);
    w := Null;
    if After(inner, j).status.Running? {
      w := LeavingReturns(inner, j);
    } else if After(inner, j).status.Done? {
      LastStep(inner, j);
      NestedAlong(inner, j - 1, d);
      OneAbove(inner, j - 1, d);
      DoneHasNoFrames(After(inner, j - 1));
    }
  }

  lemma StoppedStays(st: VM, n: nat, k: nat)
    requires n <= k && !After(st, n).status.Running?
    ensures After(st, k) == After(st, n)
  {
    hide Step;
    AfterSum(st, n, k - n);
    Halted(After(st, n), k - n);
  }

  /** Then the two return the same values, fail alike and last alike. */
  lemma Delegated(st: VM)
    requires Delegates(st)
    ensures forall v :: Gives(st, v) <==> Gives(Step(st), v)
    ensures Breaks(st) <==> Breaks(Step(st))
    ensures Lasts(st) <==> Lasts(Step(st))
  {
    hide Step, After, Above, Delegates;
    forall v ensures Gives(st, v) <==> Gives(Step(st), v) { DelegatedGives(st, v); }
    DelegatedBreaks(st);
    DelegatedLasts(st);
  }

  lemma DelegatedGives(st: VM, v: Value)
    requires Delegates(st)
    ensures Gives(st, v) <==> Gives(Step(st), v)
  {
    hide Step, After, Above;
    var inner, d := Step(st), |st.frames|;
    if n: nat :| GivesIn(st, v, n) {
      NotYet(st, v, n);
      StepFirst(st, n);
      if Above(inner, n, d + 1) {
        OneAbove(inner, n - 1, d + 1);
        assert false;
      } else {
        var j, w := CalleeLeaves(st, n);
        if After(inner, j).status.Running? {
          var k: nat :| GivesIn(st, w, k);
          OneEnd(st, v, n, w, k);
        } else {
          StepFirst(st, j + 1);
          StoppedStays(st, j + 1, n);
          assert false;
        }
      }
    }
  }

  lemma DelegatedBreaks(st: VM)
    requires Delegates(st)
    ensures Breaks(st) <==> Breaks(Step(st))
  {
    hide Step, After, Above;
    var inner, d := Step(st), |st.frames|;
    if n: nat :| BreaksIn(inner, n) {
      StepFirst(st, n + 1);
      LowerAbove(inner, n, d + 1, d);
      assert BreaksIn(st, n + 1);
    }
    if n: nat :| BreaksIn(st, n) {
      assert n > 0 by { if n == 0 { NoneAfter(st); } }
      StepFirst(st, n);
      if Above(inner, n, d + 1) {
        OneAbove(inner, n - 1, d + 1);
        assert false;
      } else {
        var j, w := CalleeLeaves(st, n);
        StepFirst(st, j + 1);
        if After(inner, j).status.Running? {
          var k: nat :| GivesIn(st, w, k);
          NotBoth(st, w, k, n);
        } else {
          StoppedStays(st, j + 1, n);
          assert BreaksIn(inner, j);
        }
      }
    }
  }

  lemma NoneAfter(st: VM)
    ensures After(st, 0) == st
  {
  }

  lemma NotBoth(st: VM, w: Value, k: nat, n: nat)
    requires st.status.Running? && GivesIn(st, w, k)
    ensures !BreaksIn(st, n)
  {
    hide Step, After, Above;
    if k < n && Above(st, n, |st.frames|) { StillThere(st, k, n, |st.frames|); }
    if n < k { StillThere(st, n, k, |st.frames|); }
  }

  lemma DelegatedLasts(st: VM)
    requires Delegates(st)
    ensures Lasts(st) <==> Lasts(Step(st))
  {
    hide Step, After, Above;
    var inner, d := Step(st), |st.frames|;
    if Lasts(inner) {
      forall n: nat ensures Above(st, n, d) {
        assert Above(inner, n, |inner.frames|);
        LowerAbove(inner, n, d + 1, d);
        StepFirst(st, n + 1);
        FewerAbove(st, n, d);
      }
    }
    if Lasts(st) {
      forall n: nat ensures Above(inner, n, |inner.frames|) {
        if !Above(inner, n, d + 1) {
          var j, w := CalleeLeaves(st, n);
          StepFirst(st, j + 1);
          if After(inner, j).status.Running? {
            var k: nat :| GivesIn(st, w, k);
            assert Above(st, k + 1, d);
            OneAbove(st, k, d);
            assert false;
          } else {
            assert Above(st, j + 2, d);
            OneAbove(st, j + 1, d);
            assert false;
          }
        }
      }
    }
  }

  // ---------- macro uses ----------

  /** The tree walker is at the start of a use of the macro `rules`, in an activation of its own. */
  ghost predicate AtUse(st: VM, rules: Value) {
    && AtPtr(st, st.ptr) && st.ptr.Pair? && st.ptr.car.Sym?
    && Lookup(st.envs, st.env, st.ptr.car) == Some(rules) && rules.Rules?
    && st.argnum == 0 && Nested(st)
    && st.clos != [] && st.clos[RETURN_LAST] == SINGLETONS[RETURN_LAST]
  }

  /** Evaluate the elements of `es` in order, in this activation and environment, for the last one's value: the state
      that `(begin . es)` leads to. */
  function Sequence(st: VM, es: Value): VM {
    st.(stack := st.stack + [Closure(RETURN_LAST)], argnum := 1, ptr := es)
  }

  function UseFrame(st: VM): Frame {
    Frame(st.closure, |st.stack| + 4, 4, SavedPtr(Null, st.env))
  }

  function UseSlots(st: VM): seq<Value> {
    st.stack + [Closure(RETURN_LAST), Null, Closure(RETURN_LAST), Null]
  }

  /** The same sequence above the expander's four slots. */
  function Expanding(st: VM, es: Value): VM {
    st.(stack := UseSlots(st) + [Closure(RETURN_LAST)], argnum := 1, ptr := es, frames := st.frames + [UseFrame(st)])
  }

  lemma StepUse(st: VM, rules: Value)
    requires AtUse(st, rules)
    ensures Step(st) == HandleMacro(st.(ptr := st.ptr.cdr), rules, st.ptr)
  {
    hide HandleMacro;
  }

  lemma UseExpands(st: VM, rules: Value, es: Value)
    requires AtUse(st, rules) && SyntaxRules.ExpandRules(rules.keywords, rules.patterns, st.ptr) ==
                                 SyntaxRules.Expanded(es)
    ensures Step(st) == Expanding(st, es)
  {
    hide SyntaxRules.ExpandRules;
    StepUse(st, rules);
    hide Step;
    assert st.stack + [Closure(RETURN_LAST)] + [Null] + [Closure(RETURN_LAST)] + [Null] == UseSlots(st);
  }

  /** The expansion's value lies above the expander's slots: return-last takes it. */
  lemma UseReturns(st: VM, rules: Value, es: Value, w: Value, n: nat)
    requires AtUse(st, rules) && Step(st) == Expanding(st, es) && GivesIn(Expanding(st, es), w, n)
    ensures GivesIn(st, w, n + 3)
  {
    hide Step, After, Above;
    var inner, d := Expanding(st, es), |st.frames|;
    var post := After(inner, n);
    assert inner.frames[..d] == st.frames;
    CompiledStays(inner, RETURN_LAST, n);
    assert inner.stack[..|st.stack| + 4] == UseSlots(st);
    var applied := post.(closure := RETURN_LAST, mode := Mode.Compiled, ip := 0);
    ReturnLastApplied(post, applied);
    StepReturnLast(applied, w);
    StepFirst(st, n + 1);
    LowerAbove(inner, n, d + 1, d);
    AfterSum(st, n + 1, 2);
    StepFirst(post, 2);
    StepFirst(applied, 1);
    NoneAfter(Step(applied));
    AboveNone(Step(applied), d);
    assert Above(applied, 1, d);
    assert Above(post, 2, d);
    AboveJoined(st, n + 1, 2, d);
    SameReturn(st, applied, w, Step(applied));
  }

  lemma ReturnLastApplied(post: VM, applied: VM)
    requires AtPtr(post, Null) && post.argnum == 5 && |post.stack| >= 5
    requires post.stack[|post.stack| - 5] == Closure(RETURN_LAST)
    requires post.clos != [] && post.clos[RETURN_LAST] == SINGLETONS[RETURN_LAST]
    requires applied == post.(closure := RETURN_LAST, mode := Mode.Compiled, ip := 0)
    ensures Step(post) == applied && AtInstr(applied, ReturnLast)
  {
    StepApply(post);
  }

  lemma AboveNone(st: VM, d: nat)
    ensures Above(st, 0, d)
  {
  }

  /** A macro use gives what its expansion gives, evaluated in order in the same environment, whatever the expansion and
      the program: it returns the same values, fails alike and runs for ever alike. */
  lemma MacroUse(st: VM, rules: Value, es: Value)
    requires AtUse(st, rules) && SyntaxRules.ExpandRules(rules.keywords, rules.patterns, st.ptr) ==
                                 SyntaxRules.Expanded(es)
    ensures forall v :: Gives(st, v) <==> Gives(Sequence(st, es), v)
    ensures Breaks(st) <==> Breaks(Sequence(st, es))
    ensures Lasts(st) <==> Lasts(Sequence(st, es))
  {
    hide Step, After, Above, Gives, Breaks, Lasts, SyntaxRules.ExpandRules, Delegates, Movable;
    UseExpands(st, rules, es);
    UseDelegates(st, rules, es);
    Delegated(st);
    var m := Move(|st.frames|, |st.stack|, st.frames + [UseFrame(st)], UseSlots(st));
    SequenceMoves(st, rules, es, m);
    ContextFree(m, Sequence(st, es));
  }

  lemma UseDelegates(st: VM, rules: Value, es: Value)
    requires AtUse(st, rules) && Step(st) == Expanding(st, es)
    ensures Delegates(st)
  {
    hide Step, After, Above;
    forall w, n: nat | GivesIn(Step(st), w, n) ensures Gives(st, w) {
      UseReturns(st, rules, es, w, n);
    }
  }

  lemma SequenceMoves(st: VM, rules: Value, es: Value, m: Move)
    requires AtUse(st, rules) && m == Move(|st.frames|, |st.stack|, st.frames + [UseFrame(st)], UseSlots(st))
    ensures Movable(m, Sequence(st, es)) && m.Holds(Sequence(st, es)) && m.Of(Sequence(st, es)) == Expanding(st, es)
  {
    PushFrameNests(st.frames, UseFrame(st));
    assert Sequence(st, es).frames[..m.k] == st.frames;
    assert m.Frames(st.frames) == m.frames;
    SlotsGrow(m, st.stack, [Closure(RETURN_LAST)]);
    assert m.Slots(st.stack) == UseSlots(st);
  }

  /** A use that no rule accepts is an error. */
  lemma UseRefused(st: VM, rules: Value)
    requires AtUse(st, rules)
    ensures Step(st).status.Failed? <==> SyntaxRules.ExpandRules(rules.keywords, rules.patterns, st.ptr).NoMatch?
  {
    hide SyntaxRules.ExpandRules;
    StepUse(st, rules);
  }

  // ---------- expansions of the fragment ----------

  lemma EndsGives(p: Program, b: nat, envs: seq<EnvFrame>, st: VM, out: Outcome<Value>, fuel: nat, n: nat, post: VM)
    requires Ends(p, b, envs, st, out, fuel, n, post)
    ensures out.Val? ==> GivesIn(st, out.value, n)
    ensures out.Error? ==> BreaksIn(st, n)
    ensures out.Timeout? ==> n >= fuel && Above(st, n, |st.frames|)
  {
    hide Runs, Above, After;
    if !out.Unclaimed? { RunsIsAbove(b, st, n, |st.frames|, post); }
  }

  lemma {:induction false} AboveFewer(st: VM, n: nat, k: nat, d: nat)
    requires Above(st, n, d) && k <= n
    ensures Above(st, k, d)
    decreases n
  {
    hide Step;
    if k > 0 { AboveFewer(Step(st), n - 1, k - 1, d); }
  }

  /** What the elements of `es` mean in order: the last one's value. */
  function SequenceMeaning(p: Program, c: nat, locals: map<Value, Value>, es: Value, fuel: nat): Outcome<Value> {
    EvalSequence(p, Flatten(p.envs, c), locals, es, fuel)
  }

  ghost predicate WholeSequence(
    p: Program, b: nat, c: nat, all: set<Value>, locals: map<Value, Value>, st: VM, es: Value) {
    && WfProgram(p) && Bounded(p, b)
    && c < |p.envs| && NoFormNames(Flatten(p.envs, c), all) && locals.Keys <= all && LocalsPlain(p, locals)
    && Walking(p, c, locals, st)
    && WfSequence(p, Flatten(p.envs, c), all, locals.Keys, es, true) && PeakList(Flatten(p.envs, c), es, 1) <= b
    && forall fuel: nat :: !SequenceMeaning(p, c, locals, es, fuel).Unclaimed?
  }

  lemma SequenceEnds(
    p: Program, b: nat, c: nat, all: set<Value>, locals: map<Value, Value>, st: VM, es: Value, fuel: nat)
    returns (n: nat)
    requires WholeSequence(p, b, c, all, locals, st, es) && st.argnum == 0
    ensures EndedAs(Sequence(st, es), SequenceMeaning(p, c, locals, es, fuel), fuel, n)
  {
    hide Ends, GivesIn, BreaksIn, Above, WfSequence, PeakList, Conforms;
    if fuel > 0 { Transparency.ApplyCorrect(p, b, fuel - 1); }
    var inner := Sequence(st, es);
    SameTables(p, st, inner);
    var post;
    n, post := SequenceSim(p, b, c, all, locals, es, 1, inner, fuel);
    EndsGives(p, b, inner.envs, inner, SequenceMeaning(p, c, locals, es, fuel), fuel, n, post);
  }

  /** A use whose expansion is in the fragment returns the value that its last expression means after the others, is an
      error if and only if they mean one, and runs for ever if and only if no fuel suffices. */
  lemma MacroMeans(
    p: Program, b: nat, c: nat, all: set<Value>, locals: map<Value, Value>, st: VM, rules: Value, es: Value)
    requires AtUse(st, rules) && SyntaxRules.ExpandRules(rules.keywords, rules.patterns, st.ptr) ==
                                 SyntaxRules.Expanded(es)
    requires WholeSequence(p, b, c, all, locals, st, es)
    ensures forall v :: Gives(st, v) <==> exists fuel: nat :: SequenceMeaning(p, c, locals, es, fuel) == Val(v)
    ensures Breaks(st) <==> exists fuel: nat :: SequenceMeaning(p, c, locals, es, fuel) == Error
    ensures Lasts(st) <==> forall fuel: nat :: SequenceMeaning(p, c, locals, es, fuel) == Timeout
  {
    hide GivesIn, BreaksIn, WholeSequence, SequenceMeaning, SyntaxRules.ExpandRules, Step, After, Above;
    MacroUse(st, rules, es);
    var inner := Sequence(st, es);
    forall v ensures Gives(inner, v) <==> exists fuel: nat :: SequenceMeaning(p, c, locals, es, fuel) == Val(v) {
      if n: nat :| GivesIn(inner, v, n) {
        var out := SequenceMeaning(p, c, locals, es, n + 1);
        var k := SequenceEnds(p, b, c, all, locals, st, es, n + 1);
        GivesMeans(inner, v, n, out, k);
      }
      if fuel: nat :| SequenceMeaning(p, c, locals, es, fuel) == Val(v) {
        var k := SequenceEnds(p, b, c, all, locals, st, es, fuel);
      }
    }
    if n: nat :| BreaksIn(inner, n) {
      var out := SequenceMeaning(p, c, locals, es, n + 1);
      var k := SequenceEnds(p, b, c, all, locals, st, es, n + 1);
      BreaksMeans(inner, n, out, k);
    }
    if fuel: nat :| SequenceMeaning(p, c, locals, es, fuel) == Error {
      var k := SequenceEnds(p, b, c, all, locals, st, es, fuel);
    }
    if Lasts(inner) {
      forall fuel: nat ensures SequenceMeaning(p, c, locals, es, fuel) == Timeout {
        var out := SequenceMeaning(p, c, locals, es, fuel);
        var k := SequenceEnds(p, b, c, all, locals, st, es, fuel);
        LastsMeans(inner, out, k);
      }
    }
    if forall fuel: nat :: SequenceMeaning(p, c, locals, es, fuel) == Timeout {
      forall n: nat ensures Above(inner, n, |inner.frames|) {
        var k := SequenceEnds(p, b, c, all, locals, st, es, n);
        AboveFewer(inner, k, n, |inner.frames|);
      }
    }
  }

  ghost predicate EndedAs(st: VM, out: Outcome<Value>, fuel: nat, k: nat) {
    && (out.Val? ==> GivesIn(st, out.value, k))
    && (out.Error? ==> BreaksIn(st, k))
    && (out.Timeout? ==> k >= fuel && Above(st, k, |st.frames|))
    && !out.Unclaimed?
  }

  lemma GivesMeans(st: VM, v: Value, n: nat, out: Outcome<Value>, k: nat)
    requires st.status.Running? && GivesIn(st, v, n) && EndedAs(st, out, n + 1, k)
    ensures out == Val(v)
  {
    hide Step, Above, After;
    match out
    case Val(w) => OneEnd(st, v, n, w, k);
    case Error => NotBoth(st, v, n, k);
    case Timeout => StillThere(st, n, k, |st.frames|);
  }

  lemma BreaksMeans(st: VM, n: nat, out: Outcome<Value>, k: nat)
    requires st.status.Running? && BreaksIn(st, n) && EndedAs(st, out, n + 1, k)
    ensures out == Error
  {
    hide Step, Above, After;
    match out
    case Val(w) => NotBoth(st, w, k, n);
    case Error =>
    case Timeout => StillThere(st, n, k, |st.frames|);
  }

  lemma LastsMeans(st: VM, out: Outcome<Value>, k: nat)
    requires st.status.Running? && Lasts(st) && !out.Unclaimed?
    requires (out.Val? ==> GivesIn(st, out.value, k)) && (out.Error? ==> BreaksIn(st, k))
    ensures out == Timeout
  {
    hide Step, Above, After;
    assert Above(st, k + 1, |st.frames|);
    OneAbove(st, k, |st.frames|);
  }
}
