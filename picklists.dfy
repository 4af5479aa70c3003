/**
 * Pick lists (picklist/PickList.py): an ordered batch of transfers, its
 * simulation, and the lists derived from it (restricted, sorted, split to a
 * maximum dispense volume, concatenated).
 *
 * The simulation is specified over a value: a `Lab` maps every content
 * object the transfers touch to its state, so that the positions of a trough,
 * which share one content, are one entry.
 */
module PickLists {
  import opened Errors
  import opened Seqs
  import opened Quantities
  import opened Content
  import opened Containers
  import opened Transfers

  /** The state of each content object of the lab. */
  type Lab = map<WellContent, Snapshot>

  /** What applying a transfer depends on: the two contents, the volume and the destination's capacity. */
  datatype Step = Step(source: WellContent, destination: WellContent, volume: real, capacity: Option<real>)

  /** How far a simulation went: its outcome, the lab it left, and how many transfers were applied. */
  datatype Run = Run(outcome: Outcome, lab: Lab, applied: nat)

  /** Every step works on contents the lab knows. */
  ghost predicate Covers(lab: Lab, steps: seq<Step>) {
    forall i | 0 <= i < |steps| :: steps[i].source in lab && steps[i].destination in lab
  }

  /**
   * One transfer applied to the lab: the two contents are replaced by what
   * the transfer leaves in them, every other content is untouched; a refused
   * transfer changes nothing.
   */
  function ApplyStep(lab: Lab, s: Step): (r: Result<Lab>)
    requires s.source in lab && s.destination in lab
    ensures r.Failure? ==> r.error == TransferError
    ensures r.Success? ==> r.value.Keys == lab.Keys
    ensures r.Success? ==> forall c | c in lab && c != s.source && c != s.destination :: r.value[c] == lab[c]
    ensures var m := ApplyToContents(lab[s.source], lab[s.destination], s.source == s.destination, s.volume, s.capacity);
      r.Failure? <==> m.Failure?
  {
    var m :- ApplyToContents(lab[s.source], lab[s.destination], s.source == s.destination, s.volume, s.capacity);
    Success(lab[s.source := m.source][s.destination := m.destination])
  }

  /**
   * simulate(): the steps applied in order, stopping at the first that is
   * refused. The transfers applied before it stay applied.
   */
  function RunSteps(lab: Lab, steps: seq<Step>): (r: Run)
    requires Covers(lab, steps)
    ensures r.lab.Keys == lab.Keys
    ensures r.applied <= |steps|
    ensures r.outcome.Ok? <==> r.applied == |steps|
    ensures r.outcome.Err? ==> r.outcome.error == TransferError
  {
    if steps == [] then Run(Ok, lab, 0)
    else
      var before := RunSteps(lab, steps[..|steps| - 1]);
      if before.outcome.Err? then before
      else match ApplyStep(before.lab, steps[|steps| - 1])
        case Failure(e) => Run(Err(e), before.lab, before.applied)
        case Success(next) => Run(Ok, next, |steps|)
  }

  /**
   * A run is the successful run of the steps it applied, followed, when it
   * failed, by the step that was refused in the lab those steps left.
   */
  lemma {:induction false} RunStopsAtFirstFailure(lab: Lab, steps: seq<Step>)
    requires Covers(lab, steps)
    ensures var r := RunSteps(lab, steps);
      RunSteps(lab, steps[..r.applied]) == Run(Ok, r.lab, r.applied) &&
      (r.outcome.Err? ==> ApplyStep(r.lab, steps[r.applied]) == Failure(r.outcome.error))
  {
    if steps != [] {
      var init := steps[..|steps| - 1];
      RunStopsAtFirstFailure(lab, init);
      var before := RunSteps(lab, init);
      if before.outcome.Err? {
        assert steps[..before.applied] == init[..before.applied];
        assert steps[before.applied] == init[before.applied];
      } else {
        assert init[..before.applied] == init;
        if ApplyStep(before.lab, steps[|steps| - 1]).Failure? {
          assert steps[..before.applied] == init;
        } else {
          assert steps[..|steps|] == steps;
        }
      }
    }
  }

  /**
   * `f` maps the contents of `lab`, one to one, to contents of `lab2` in the
   * same state.
   */
  ghost predicate Corresponds(lab: Lab, lab2: Lab, f: map<WellContent, WellContent>) {
    lab.Keys <= f.Keys &&
    (forall c | c in lab :: f[c] in lab2 && lab2[f[c]] == lab[c]) &&
    forall c1, c2 | c1 in f && c2 in f && c1 != c2 :: f[c1] != f[c2]
  }

  /** `steps2` are `steps` with every content renamed by `f`. */
  ghost predicate Renamed(steps: seq<Step>, steps2: seq<Step>, f: map<WellContent, WellContent>) {
    |steps2| == |steps| &&
    forall i | 0 <= i < |steps| ::
      steps[i].source in f && steps[i].destination in f &&
      steps2[i] == Step(f[steps[i].source], f[steps[i].destination], steps[i].volume, steps[i].capacity)
  }

  /** A transfer between renamed contents of a corresponding lab does the same thing to them. */
  lemma StepRenamed(lab: Lab, lab2: Lab, s: Step, s2: Step, f: map<WellContent, WellContent>)
    requires Corresponds(lab, lab2, f) && s.source in lab && s.destination in lab
    requires s2 == Step(f[s.source], f[s.destination], s.volume, s.capacity)
    ensures s2.source in lab2 && s2.destination in lab2
    ensures var r, r2 := ApplyStep(lab, s), ApplyStep(lab2, s2);
      r2.Success? == r.Success? &&
      (r.Failure? ==> r2.error == r.error) &&
      (r.Success? ==> Corresponds(r.value, r2.value, f))
  {
    assert (s2.source == s2.destination) == (s.source == s.destination);
    var r, r2 := ApplyStep(lab, s), ApplyStep(lab2, s2);
    if r.Success? {
      forall c | c in r.value ensures f[c] in r2.value && r2.value[f[c]] == r.value[c] {
        if c != s.source && c != s.destination {
          assert f[c] != s2.source && f[c] != s2.destination;
        }
      }
    }
  }

  /**
   * Simulating the same transfers between renamed contents, from a lab in
   * the same state, ends the same way: the same outcome after the same
   * number of transfers, with every content in the state of the one it
   * renames.
   */
  lemma {:induction false} RunRenamed(lab: Lab, lab2: Lab, steps: seq<Step>, steps2: seq<Step>, f: map<WellContent, WellContent>)
    requires Covers(lab, steps) && Corresponds(lab, lab2, f) && Renamed(steps, steps2, f)
    ensures Covers(lab2, steps2)
    ensures var r, r2 := RunSteps(lab, steps), RunSteps(lab2, steps2);
      r2.outcome == r.outcome && r2.applied == r.applied && Corresponds(r.lab, r2.lab, f)
  {
    forall i | 0 <= i < |steps2| ensures steps2[i].source in lab2 && steps2[i].destination in lab2 {
      assert steps[i].source in lab && steps[i].destination in lab;
    }
    if steps != [] {
      var n := |steps| - 1;
      var init, init2 := steps[..n], steps2[..n];
      assert Renamed(init, init2, f) by {
        forall i | 0 <= i < n ensures init2[i] == Step(f[init[i].source], f[init[i].destination], init[i].volume, init[i].capacity) {
          assert init[i] == steps[i] && init2[i] == steps2[i];
        }
      }
      RunRenamed(lab, lab2, init, init2, f);
      var before, before2 := RunSteps(lab, init), RunSteps(lab2, init2);
      if before.outcome.Ok? {
        StepRenamed(before.lab, before2.lab, steps[n], steps2[n], f);
      }
    }
  }

  /** A run that is shifted by `n` transfers applied before it. */
  function After(n: nat, r: Run): Run {
    Run(r.outcome, r.lab, n + r.applied)
  }

  /**
   * Simulating `a + b` simulates `a`, then, if nothing was refused, `b` in the
   * lab `a` left.
   */
  lemma {:induction false} RunAppend(lab: Lab, a: seq<Step>, b: seq<Step>)
    requires Covers(lab, a + b)
    ensures Covers(lab, a) && Covers(RunSteps(lab, a).lab, b)
    ensures var ra := RunSteps(lab, a);
      RunSteps(lab, a + b) == if ra.outcome.Err? then ra else After(|a|, RunSteps(ra.lab, b))
  {
    assert Covers(lab, a) && Covers(lab, b) by {
      assert forall i | 0 <= i < |a| :: a[i] == (a + b)[i];
      assert forall i | 0 <= i < |b| :: b[i] == (a + b)[|a| + i];
    }
    if b == [] {
      assert a + b == a;
    } else {
      var init, last := b[..|b| - 1], b[|b| - 1];
      assert (a + b)[..|a + b| - 1] == a + init && (a + b)[|a + b| - 1] == last;
      assert Covers(lab, a + init) by {
        assert forall i | 0 <= i < |a + init| :: (a + init)[i] == (a + b)[i];
      }
      RunAppend(lab, a, init);
      var ra := RunSteps(lab, a);
      if ra.outcome.Ok? {
        var before := RunSteps(ra.lab, init);
        assert RunSteps(ra.lab, b) == if before.outcome.Err? then before
          else match ApplyStep(before.lab, last)
            case Failure(e) => Run(Err(e), before.lab, before.applied)
            case Success(next) => Run(Ok, next, |b|);
      }
    }
  }

  /** A simulation whose first transfer has an empty source is refused before anything changes. */
  lemma RunFailsOnEmptySource(lab: Lab, steps: seq<Step>)
    requires Covers(lab, steps) && steps != [] && lab[steps[0].source].volume == 0.0
    ensures RunSteps(lab, steps) == Run(Err(TransferError), lab, 0)
  {
    var s := steps[0];
    TransferFails(lab[s.source], lab[s.destination], s.source == s.destination, s.volume, s.capacity);
    assert RunSteps(lab, []) == Run(Ok, lab, 0);
    assert [s][..0] == [];
    assert RunSteps(lab, [s]) == Run(Err(TransferError), lab, 0);
    assert steps == [s] + steps[1..];
    RunAppend(lab, [s], steps[1..]);
  }

  /** What applying transfer `t` depends on. */
  function StepOf(t: Transfer): Step
    reads t.destination`capacity
  {
    Step(t.source.content, t.destination.content, t.volume, t.destination.capacity)
  }

  /** Transfer `i` of `ts` as a step, read field by field. */
  function StepAt(ts: seq<Transfer>, i: nat): Step
    requires i < |ts|
    reads ts[i].destination`capacity
  {
    Step(ts[i].source.content, ts[i].destination.content, ts[i].volume, ts[i].destination.capacity)
  }

  function StepsOf(ts: seq<Transfer>): (steps: seq<Step>)
    reads DestinationsOf(ts)`capacity
    ensures |steps| == |ts| && forall i | 0 <= i < |ts| :: steps[i] == StepOf(ts[i])
  {
    if ts == [] then [] else StepsOf(ts[..|ts| - 1]) + [StepOf(ts[|ts| - 1])]
  }

  /** The plates, contents and destinations of the transfers exist in the current state. */
  lemma TransfersAllocated(ts: seq<Transfer>)
    ensures forall p | p in PlatesOf(ts) :: allocated(p)
    ensures forall c | c in ContentsOf(ts) :: allocated(c)
    ensures forall w | w in DestinationsOf(ts) :: allocated(w)
  {
  }

  /** Steps agreeing with the transfers one by one are their steps. */
  lemma StepsOfHolds(ts: seq<Transfer>, steps: seq<Step>)
    requires |steps| == |ts| && forall i | 0 <= i < |ts| :: StepOf(ts[i]) == steps[i]
    ensures StepsOf(ts) == steps
  {
  }

  /** The content objects that the transfers take from or fill. */
  function ContentsOf(ts: seq<Transfer>): set<WellContent> {
    (set t | t in ts :: t.source.content) + (set t | t in ts :: t.destination.content)
  }

  function DestinationsOf(ts: seq<Transfer>): set<Well> {
    set t | t in ts :: t.destination
  }

  /** The current state of the contents the transfers touch. */
  function LabOf(ts: seq<Transfer>): (lab: Lab)
    reads ContentsOf(ts)
    ensures lab.Keys == ContentsOf(ts)
  {
    map c | c in ContentsOf(ts) :: c.ToDict()
  }

  /** A lab holding what each content the transfers touch holds now is their lab. */
  lemma LabOfHolds(ts: seq<Transfer>, lab: Lab)
    requires lab.Keys == ContentsOf(ts) && forall c | c in ContentsOf(ts) :: c.ToDict() == lab[c]
    ensures LabOf(ts) == lab
  {
  }

  /** The lab is what its content objects hold now. */
  ghost predicate Mirrors(lab: Lab)
    reads lab.Keys
  {
    forall c | c in lab :: c.ToDict() == lab[c]
  }

  /** The sources of well `w` once the transfers `ts` have been applied, each recording itself in its destination. */
  function RecordedAll(sources: seq<Source>, ts: seq<Transfer>, w: Well): (r: seq<Source>)
    ensures sources <= r
  {
    if ts == [] then sources
    else
      var before := RecordedAll(sources, ts[..|ts| - 1], w);
      if ts[|ts| - 1].destination == w then Recorded(before, ts[|ts| - 1]) else before
  }

  /**
   * After applying `ts`, the sources of `w` are its former sources and the
   * transfers of `ts` into `w`, each listed once.
   */
  lemma {:induction false} RecordedAllMembers(sources: seq<Source>, ts: seq<Transfer>, w: Well)
    ensures forall x :: x in RecordedAll(sources, ts, w) <==>
      x in sources || (x.OtherSource? && exists i | 0 <= i < |ts| :: ts[i].destination == w && x.item == ts[i])
    ensures forall i | 0 <= i < |ts| && ts[i].destination == w && OtherSource(ts[i]) !in sources ::
      multiset(RecordedAll(sources, ts, w))[OtherSource(ts[i])] == 1
  {
    if ts != [] {
      var init := ts[..|ts| - 1];
      var t := ts[|ts| - 1];
      RecordedAllMembers(sources, init, w);
      forall x ensures x in RecordedAll(sources, ts, w) <==>
        x in sources || (x.OtherSource? && exists i | 0 <= i < |ts| :: ts[i].destination == w && x.item == ts[i])
      {
        if x.OtherSource? && (exists i | 0 <= i < |ts| :: ts[i].destination == w && x.item == ts[i]) {
          var i :| 0 <= i < |ts| && ts[i].destination == w && x.item == ts[i];
          if i < |init| {
            assert init[i] == ts[i];
          }
        }
      }
    }
  }

  /** Once a run has been refused, the transfers after it change nothing. */
  lemma {:induction false} FailureIsFinal(lab: Lab, steps: seq<Step>, k: nat)
    requires Covers(lab, steps) && k <= |steps| && RunSteps(lab, steps[..k]).outcome.Err?
    ensures RunSteps(lab, steps) == RunSteps(lab, steps[..k])
  {
    if k < |steps| {
      var init := steps[..|steps| - 1];
      assert init[..k] == steps[..k];
      FailureIsFinal(lab, init, k);
    } else {
      assert steps[..k] == steps;
    }
  }

  /** One more step of a run that has gone well so far: the run either stops there or goes on. */
  lemma RunStep(lab0: Lab, steps: seq<Step>, i: nat, lab: Lab)
    requires Covers(lab0, steps) && i < |steps|
    requires RunSteps(lab0, steps[..i]) == Run(Ok, lab, i)
    ensures steps[i].source in lab && steps[i].destination in lab
    ensures ApplyStep(lab, steps[i]).Failure? ==>
      RunSteps(lab0, steps) == Run(Err(ApplyStep(lab, steps[i]).error), lab, i)
    ensures ApplyStep(lab, steps[i]).Success? ==>
      RunSteps(lab0, steps[..i + 1]) == Run(Ok, ApplyStep(lab, steps[i]).value, i + 1)
  {
    var a := steps[..i + 1];
    assert a[..i] == steps[..i];
    if ApplyStep(lab, steps[i]).Failure? {
      FailureIsFinal(lab0, steps, i + 1);
    }
  }

  /** The sources recorded up to transfer `i` included: those up to `i`, then transfer `i` if it fills `w`. */
  lemma RecordedNext(sources: seq<Source>, ts: seq<Transfer>, i: nat, w: Well)
    requires i < |ts|
    ensures RecordedAll(sources, ts[..i + 1], w) ==
      if ts[i].destination == w then Recorded(RecordedAll(sources, ts[..i], w), ts[i]) else RecordedAll(sources, ts[..i], w)
  {
    assert ts[..i + 1][..i] == ts[..i];
  }

  /** The lab of the transfers' own contents covers their steps. */
  lemma CoveredByOwnContents(ts: seq<Transfer>, lab: Lab, steps: seq<Step>)
    requires lab.Keys == ContentsOf(ts)
    requires |steps| == |ts| && forall i | 0 <= i < |ts| ::
      steps[i].source == ts[i].source.content && steps[i].destination == ts[i].destination.content
    ensures Covers(lab, steps)
  {
    forall i | 0 <= i < |steps| ensures steps[i].source in lab && steps[i].destination in lab {
      assert ts[i] in ts;
    }
  }

  /** Each well of `book` lists the sources `book` gives it. */
  ghost predicate Lists(book: map<Well, seq<Source>>)
    reads book.Keys
  {
    forall w | w in book :: w.sources == book[w]
  }

  /** `book` gives each destination the sources it had and the first `i` transfers into it. */
  ghost predicate RecordedUpTo(book: map<Well, seq<Source>>, sources0: map<Well, seq<Source>>, ts: seq<Transfer>, i: nat) {
    i <= |ts| && book.Keys == sources0.Keys &&
    forall w | w in book :: book[w] == RecordedAll(sources0[w], ts[..i], w)
  }

  lemma RecordedUpToNext(book: map<Well, seq<Source>>, sources0: map<Well, seq<Source>>, ts: seq<Transfer>, i: nat)
    requires i < |ts| && RecordedUpTo(book, sources0, ts, i) && ts[i].destination in book
    ensures RecordedUpTo(book[ts[i].destination := Recorded(book[ts[i].destination], ts[i])], sources0, ts, i + 1)
  {
    forall w | w in book {
      RecordedNext(sources0[w], ts, i, w);
    }
  }

  /**
   * The simulation of `ts` has applied its first `i` transfers: the lab is
   * what they left and the contents mirror it, and the destinations list
   * what `book` gives them.
   */
  ghost predicate Reached(ts: seq<Transfer>, lab0: Lab, steps: seq<Step>, sources0: map<Well, seq<Source>>,
                          i: nat, lab: Lab, book: map<Well, seq<Source>>)
    reads lab.Keys, book.Keys
  {
    i <= |ts| && Covers(lab0, steps) && i <= |steps| &&
    RunSteps(lab0, steps[..i]) == Run(Ok, lab, i) && lab.Keys == lab0.Keys && Mirrors(lab) &&
    book.Keys == DestinationsOf(ts) && Lists(book) && RecordedUpTo(book, sources0, ts, i)
  }

  /** Each step of the transfers is read off the transfer at its position. */
  lemma StepsAt(ts: seq<Transfer>)
    ensures forall j | 0 <= j < |ts| :: StepsOf(ts)[j] == StepAt(ts, j)
  {
  }

  /** Before the first transfer the simulation has reached 0: the lab and the book are the wells' current state. */
  lemma StartReached(ts: seq<Transfer>, lab0: Lab, steps: seq<Step>, sources0: map<Well, seq<Source>>)
    requires lab0 == LabOf(ts) && steps == StepsOf(ts)
    requires sources0 == map w | w in DestinationsOf(ts) :: w.sources
    ensures Reached(ts, lab0, steps, sources0, 0, lab0, sources0)
  {
    CoveredByOwnContents(ts, lab0, steps);
    assert ts[..0] == [] && steps[..0] == [];
  }

  /** The lines of to_plain_string, one per transfer. */
  function PlainLines(ts: seq<Transfer>, format: real -> string): (lines: seq<string>)
    ensures |lines| == |ts| && forall i | 0 <= i < |ts| :: lines[i] == ts[i].ToPlainString(format)
  {
    if ts == [] then [] else PlainLines(ts[..|ts| - 1], format) + [ts[|ts| - 1].ToPlainString(format)]
  }

  /** The lines of two lists put together are the lines of the first, then those of the second. */
  lemma PlainLinesAppend(a: seq<Transfer>, b: seq<Transfer>, format: real -> string)
    ensures PlainLines(a + b, format) == PlainLines(a, format) + PlainLines(b, format)
  {
    var l := PlainLines(a + b, format);
    forall i | |a| <= i < |l| ensures l[i] == PlainLines(b, format)[i - |a|] {
      assert (a + b)[i] == b[i - |a|];
    }
  }

  /** The text of two non-empty lists put together is their two texts on consecutive lines. */
  lemma PlainTextAppend(a: seq<Transfer>, b: seq<Transfer>, format: real -> string)
    requires a != [] && b != []
    ensures Join(PlainLines(a + b, format), "\n") == Join(PlainLines(a, format), "\n") + "\n" + Join(PlainLines(b, format), "\n")
  {
    PlainLinesAppend(a, b, format);
    JoinAppend(PlainLines(a, format), PlainLines(b, format), "\n");
  }

  /** The volumes of the transfers, in order. */
  function Volumes(ts: seq<Transfer>): (vs: seq<real>)
    ensures |vs| == |ts| && forall i | 0 <= i < |ts| :: vs[i] == ts[i].volume
  {
    if ts == [] then [] else Volumes(ts[..|ts| - 1]) + [ts[|ts| - 1].volume]
  }

  /** The volume transferred by two lists put together is the sum of theirs. */
  lemma TotalOfConcatenation(a: seq<Transfer>, b: seq<Transfer>)
    ensures Sum(Volumes(a + b)) == Sum(Volumes(a)) + Sum(Volumes(b))
  {
    assert Volumes(a + b) == Volumes(a) + Volumes(b);
    SumAppend(Volumes(a), Volumes(b));
  }

  /** The filter restricted_to builds from a source and a destination well; None matches any well. */
  function WellFilter(source: Option<Well>, destination: Option<Well>): Transfer -> bool {
    (t: Transfer) => (source.None? || source.value == t.source) && (destination.None? || destination.value == t.destination)
  }

  /** A restriction keeps exactly the transfers between the given wells. */
  lemma RestrictedToWells(ts: seq<Transfer>, source: Option<Well>, destination: Option<Well>)
    ensures forall t :: t in Filter(ts, WellFilter(source, destination)) <==>
      t in ts && (source.None? || t.source == source.value) && (destination.None? || t.destination == destination.value)
  {
    FilterMembers(ts, WellFilter(source, destination));
  }

  /** With neither well given, a restriction keeps every transfer, in order. */
  lemma {:induction false} RestrictedToAnyWell(ts: seq<Transfer>)
    ensures Filter(ts, WellFilter(None, None)) == ts
  {
    if ts != [] {
      RestrictedToAnyWell(ts[1..]);
      FilterCons(ts[0], ts[1..], WellFilter(None, None));
      assert [ts[0]] + ts[1..] == ts;
    }
  }

  /**
   * A list of one transfer restricted to its own wells keeps it; restricted
   * to a source well that is not its own, it keeps nothing.
   */
  lemma RestrictedToExample(t: Transfer, other: Well)
    requires other != t.source
    ensures Filter([t], WellFilter(Some(t.source), Some(t.destination))) == [t]
    ensures Filter([t], WellFilter(Some(other), Some(t.destination))) == []
  {
    FilterCons(t, [], WellFilter(Some(t.source), Some(t.destination)));
    FilterCons(t, [], WellFilter(Some(other), Some(t.destination)));
  }

  /** The default sort key of sorted_by: the source well, compared through its repr(). */
  function SourceWellKey(t: Transfer): string {
    t.source.Repr()
  }

  /**
   * Sorting by source well gives a permutation in which no source well is
   * less than the one before it, and the transfers of each source well keep
   * their order.
   */
  lemma SortedBySourceWell(ts: seq<Transfer>)
    ensures var s := SortBy(ts, SourceWellKey);
      multiset(s) == multiset(ts) &&
      (forall i, j | 0 <= i < j < |s| :: !s[j].source.Less(s[i].source)) &&
      forall k :: WithKey(s, SourceWellKey, k) == WithKey(ts, SourceWellKey, k)
  {
    var s := SortBy(ts, SourceWellKey);
    SortByMultiset(ts, SourceWellKey);
    SortBySorted(ts, SourceWellKey);
    forall i, j | 0 <= i < j < |s| ensures !s[j].source.Less(s[i].source) {
      if LexLe(s[j].source.Repr(), s[i].source.Repr()) {
        LexLeAntisymmetric(s[i].source.Repr(), s[j].source.Repr());
      }
    }
    forall k ensures WithKey(s, SourceWellKey, k) == WithKey(ts, SourceWellKey, k) {
      SortByStable(ts, SourceWellKey, k);
    }
  }

  /** Python's int() on a float: rounds toward zero. */
  function Trunc(x: real): (n: int)
    ensures x >= 0.0 ==> 0 <= n && n as real <= x < n as real + 1.0
    ensures x < 0.0 ==> n <= 0 && n as real - 1.0 < x <= n as real
  {
    if x >= 0.0 then x.Floor else -((-x).Floor)
  }

  /** `n` copies of `x`. */
  function Repeat(x: real, n: nat): (r: seq<real>)
    ensures |r| == n && forall i | 0 <= i < n :: r[i] == x
  {
    seq(n, _ => x)
  }

  /** How many full dispenses of `m` fit in `v`: int(v / m). */
  function Dispenses(v: real, m: real): int
    requires m != 0.0
  {
    Trunc(v / m)
  }

  /** What is left of `v` after the full dispenses of `m`. */
  function Leftover(v: real, m: real): real
    requires m != 0.0
  {
    v - Dispenses(v, m) as real * m
  }

  /**
   * The volumes enforce_maximum_dispense_volume splits a transfer of volume
   * `v` into: as many dispenses of `m` as int(v / m), then what is left if it
   * is positive.
   */
  function ChunkVolumes(v: real, m: real): seq<real>
    requires m != 0.0
  {
    Repeat(m, if Dispenses(v, m) > 0 then Dispenses(v, m) else 0) +
    (if Leftover(v, m) > 0.0 then [Leftover(v, m)] else [])
  }

  /** `k` dispenses of `m` make `k * m`. */
  lemma {:induction false} SumRepeat(x: real, n: nat)
    ensures Sum(Repeat(x, n)) == n as real * x
  {
    if n > 0 {
      assert Repeat(x, n)[..n - 1] == Repeat(x, n - 1);
      SumRepeat(x, n - 1);
    }
  }

  lemma MulLess(v: real, a: real, b: real)
    requires v > 0.0 && a < b
    ensures v * a < v * b
  {
    assert v * b - v * a == v * (b - a);
  }

  /** Dividing by a positive number keeps the sign. */
  lemma DivSign(v: real, m: real)
    requires m > 0.0
    ensures v >= 0.0 <==> v / m >= 0.0
  {
    var x := v / m;
    assert m * x == v;
    if x >= 0.0 {
      MulMono(m, 0.0, x);
    } else {
      MulLess(m, x, 0.0);
    }
  }

  /** What is left after the full dispenses, for a positive maximum: below the maximum, and not below 0 for a volume that is not. */
  lemma Rest(v: real, m: real)
    requires m > 0.0
    ensures Leftover(v, m) < m
    ensures v >= 0.0 ==> Dispenses(v, m) >= 0 && Leftover(v, m) >= 0.0
    ensures v < 0.0 ==> Leftover(v, m) <= 0.0
  {
    var x := v / m;
    var nr := Trunc(x) as real;
    assert m * x == v;
    assert nr * m == m * nr;
    DivSign(v, m);
    if v >= 0.0 {
      MulMono(m, nr, x);
      MulLess(m, x, nr + 1.0);
      assert m * (nr + 1.0) == m * nr + m;
    } else {
      MulLess(m, nr - 1.0, x);
      MulMono(m, x, nr);
      assert m * (nr - 1.0) == m * nr - m;
    }
  }

  /** Every dispense of a split is positive and at most the maximum. */
  lemma ChunksBounded(v: real, m: real)
    requires m > 0.0
    ensures forall c | c in ChunkVolumes(v, m) :: 0.0 < c <= m
  {
    Rest(v, m);
  }

  /** The dispenses of a split add up to the volume that was split, unless it was negative. */
  lemma ChunksSum(v: real, m: real)
    requires m > 0.0 && v >= 0.0
    ensures Sum(ChunkVolumes(v, m)) == v
  {
    Rest(v, m);
    var n: nat := Dispenses(v, m);
    var tail := if Leftover(v, m) > 0.0 then [Leftover(v, m)] else [];
    assert ChunkVolumes(v, m) == Repeat(m, n) + tail;
    SumRepeat(m, n);
    SumAppend(Repeat(m, n), tail);
    assert Sum(tail) == Leftover(v, m) by {
      if Leftover(v, m) > 0.0 {
        assert tail[..0] == [];
      }
    }
  }

  /** 25 uL split at 5 uL: five dispenses of 5 uL. */
  lemma ChunksExample()
    ensures ChunkVolumes(0.000025, 0.000005) == Repeat(0.000005, 5)
  {
    assert 0.000025 / 0.000005 == 5.0;
    assert Trunc(5.0) == 5;
  }

  /** A dispense of a split: the transfer it comes from and its volume. */
  datatype Chunk = Chunk(origin: Transfer, volume: real)

  function ChunksOf(t: Transfer, m: real): (cs: seq<Chunk>)
    requires m != 0.0
    ensures |cs| == |ChunkVolumes(t.volume, m)|
    ensures forall j | 0 <= j < |cs| :: cs[j] == Chunk(t, ChunkVolumes(t.volume, m)[j])
  {
    var vs := ChunkVolumes(t.volume, m);
    seq(|vs|, j requires 0 <= j < |vs| => Chunk(t, vs[j]))
  }

  /** The dispenses of every transfer, transfer after transfer. */
  function Plan(ts: seq<Transfer>, m: real): seq<Chunk>
    requires m != 0.0 || ts == []
  {
    if ts == [] then [] else Plan(ts[..|ts| - 1], m) + ChunksOf(ts[|ts| - 1], m)
  }

  /** Splitting two lists put together splits each: the dispenses of each transfer stay together and in order. */
  lemma {:induction false} PlanAppend(a: seq<Transfer>, b: seq<Transfer>, m: real)
    requires m != 0.0
    ensures Plan(a + b, m) == Plan(a, m) + Plan(b, m)
  {
    if b == [] {
      assert a + b == a;
    } else {
      assert (a + b)[..|a + b| - 1] == a + b[..|b| - 1];
      PlanAppend(a, b[..|b| - 1], m);
    }
  }

  /** Every dispense comes from a listed transfer, is positive and does not exceed the maximum. */
  lemma {:induction false} PlanBounded(ts: seq<Transfer>, m: real)
    requires m > 0.0
    ensures forall c | c in Plan(ts, m) :: c.origin in ts && 0.0 < c.volume <= m
  {
    if ts != [] {
      var t := ts[|ts| - 1];
      PlanBounded(ts[..|ts| - 1], m);
      ChunksBounded(t.volume, m);
      forall c | c in ChunksOf(t, m) ensures c.origin in ts && 0.0 < c.volume <= m {
        var j :| 0 <= j < |ChunksOf(t, m)| && ChunksOf(t, m)[j] == c;
        assert c.volume in ChunkVolumes(t.volume, m);
      }
    }
  }

  /** The volumes of the dispenses, in order. */
  function ChunkTotals(cs: seq<Chunk>): (vs: seq<real>)
    ensures |vs| == |cs| && forall i | 0 <= i < |cs| :: vs[i] == cs[i].volume
  {
    if cs == [] then [] else ChunkTotals(cs[..|cs| - 1]) + [cs[|cs| - 1].volume]
  }

  /** Splitting keeps the total volume of transfers that are not negative. */
  lemma {:induction false} PlanTotal(ts: seq<Transfer>, m: real)
    requires m > 0.0 && forall i | 0 <= i < |ts| :: ts[i].volume >= 0.0
    ensures Sum(ChunkTotals(Plan(ts, m))) == Sum(Volumes(ts))
  {
    if ts != [] {
      var init := ts[..|ts| - 1];
      var t := ts[|ts| - 1];
      PlanTotal(init, m);
      assert ChunkTotals(Plan(ts, m)) == ChunkTotals(Plan(init, m)) + ChunkVolumes(t.volume, m);
      SumAppend(ChunkTotals(Plan(init, m)), ChunkVolumes(t.volume, m));
      ChunksSum(t.volume, m);
    }
  }

  /** The new transfers carry out the dispenses: same wells and data as their transfer, the dispense's volume. */
  ghost predicate Realizes(out: seq<Transfer>, plan: seq<Chunk>) {
    |out| == |plan| &&
    forall j | 0 <= j < |out| ::
      out[j].source == plan[j].origin.source && out[j].destination == plan[j].origin.destination &&
      out[j].data == plan[j].origin.data && out[j].volume == plan[j].volume
  }

  lemma RealizesAppend(a: seq<Transfer>, p: seq<Chunk>, b: seq<Transfer>, q: seq<Chunk>)
    requires Realizes(a, p) && Realizes(b, q)
    ensures Realizes(a + b, p + q)
  {
    forall j | |a| <= j < |a| + |b| ensures (a + b)[j] == b[j - |a|] && (p + q)[j] == q[j - |a|] {
    }
  }

  /** The transfers of the pick lists, list after list. */
  function TransferLists(ps: seq<PickList>): (lists: seq<seq<Transfer>>)
    reads set p | p in ps
    ensures |lists| == |ps| && forall i | 0 <= i < |ps| :: lists[i] == ps[i].transfers
  {
    if ps == [] then [] else TransferLists(ps[..|ps| - 1]) + [ps[|ps| - 1].transfers]
  }

  /** Merging a pick list with itself lists its transfers twice. */
  lemma MergedTwice(ts: seq<Transfer>)
    ensures Flatten([ts, ts]) == ts + ts && |Flatten([ts, ts])| == 2 * |ts|
  {
    assert [ts, ts][1..] == [ts];
    assert [ts][1..] == [];
    assert Flatten([ts]) == ts + Flatten([]);
  }

  // ---------------------------------------------------------------------------
  // simulate(inplace=False): the simulation on copies of the plates
  // ---------------------------------------------------------------------------

  /** The plates the transfers take from or fill. */
  function PlatesOf(ts: seq<Transfer>): set<Plate> {
    (set t | t in ts :: t.source.plate) + (set t | t in ts :: t.destination.plate)
  }

  /** The names of the transfer's wells are names of wells of their plates, as the copy's lookups need. */
  ghost predicate WellsNamed(t: Transfer)
    reads t.source.plate, t.destination.plate
  {
    t.source.name in t.source.plate.wells && t.destination.name in t.destination.plate.wells
  }

  ghost predicate Named(ts: seq<Transfer>)
    reads PlatesOf(ts)
  {
    forall t | t in ts :: WellsNamed(t)
  }

  /** Well `w` is the well its plate files under its name. */
  ghost predicate Filed(w: Well)
    reads w.plate
  {
    w.name in w.plate.wells && w.plate.wells[w.name] == w
  }

  /**
   * The plates of the transfers are separate: each transfer's wells are filed
   * in their plates, and no content is held by wells of two different plates.
   * Plates made by the plate constructor are always separate.
   */
  ghost predicate Separate(ts: seq<Transfer>)
    reads PlatesOf(ts)
  {
    (forall t | t in ts :: Filed(t.source) && Filed(t.destination)) &&
    forall p1, p2, k1, k2 | p1 in PlatesOf(ts) && p2 in PlatesOf(ts) && p1 != p2 && k1 in p1.wells && k2 in p2.wells ::
      p1.wells[k1].content != p2.wells[k2].content
  }

  /** Wells of copies of two different plates hold different contents. */
  ghost predicate Apart(copies: map<Plate, Plate>)
    reads copies.Values
  {
    forall p1, p2, k1, k2 | p1 in copies && p2 in copies && p1 != p2 && k1 in copies[p1].wells && k2 in copies[p2].wells ::
      copies[p1].wells[k1].content != copies[p2].wells[k2].content
  }

  /** Each copy has the wells of its plate, under the same names. */
  ghost predicate Shaped(copies: map<Plate, Plate>)
    reads copies.Keys, copies.Values
  {
    forall p | p in copies :: copies[p].wells.Keys == p.wells.Keys
  }

  /** No well of the original plates holds a content that the transfers `ts` touch. */
  ghost predicate Untouched(copies: map<Plate, Plate>, ts: seq<Transfer>)
    reads copies.Keys
  {
    forall p, k | p in copies && k in p.wells :: p.wells[k].content !in ContentsOf(ts)
  }

  /** The contents the wells of the original plates hold. */
  function OriginalContents(copies: map<Plate, Plate>): set<WellContent>
    reads copies.Keys
  {
    set p, k | p in copies && k in p.wells :: p.wells[k].content
  }

  /** Every well of a copy holds what `lab` leaves in the content of the same well of its original plate. */
  ghost predicate HoldFinal(copies: map<Plate, Plate>, lab: Lab)
    reads copies.Keys, copies.Values, CopiedContents(copies), OriginalContents(copies)
  {
    forall p, k | p in copies && k in p.wells ::
      k in copies[p].wells && copies[p].wells[k].content.ToDict() == Final(lab, p.wells[k].content)
  }

  /**
   * Every copied well holds what `lab` says its original ends with, when the
   * copies of the originals hold what `lab` says their originals end with.
   */
  lemma FinalCopies(copies: map<Plate, Plate>, f: map<WellContent, WellContent>, ts: seq<Transfer>, lab: Lab)
    requires Maps(f, copies) && Shaped(copies) && Untouched(copies, ts)
    requires forall c | c in f && c !in ContentsOf(ts) :: f[c].ToDict() == Final(lab, c)
    ensures HoldFinal(copies, lab)
  {
    forall p, k | p in copies && k in p.wells
      ensures k in copies[p].wells && copies[p].wells[k].content.ToDict() == Final(lab, p.wells[k].content)
    {
      assert p.wells[k].content !in ContentsOf(ts);
    }
  }

  /** The wells of the copies. */
  function CopiedWells(copies: map<Plate, Plate>): set<Well>
    reads copies.Values
  {
    set p, k | p in copies && k in copies[p].wells :: copies[p].wells[k]
  }

  /** The contents the wells of the copies hold. */
  function CopiedContents(copies: map<Plate, Plate>): set<WellContent>
    reads copies.Values
  {
    set p, k | p in copies && k in copies[p].wells :: copies[p].wells[k].content
  }

  /** Each plate is copied once, the copies are independent of each other: deepcopy applied plate by plate. */
  method CopyPlates(plates: set<Plate>) returns (copies: map<Plate, Plate>)
    ensures copies.Keys == plates && Apart(copies)
    ensures forall p | p in copies :: fresh(copies[p]) && copies[p].CopyOf(p)
    ensures forall w | w in CopiedWells(copies) :: fresh(w)
    ensures forall c | c in CopiedContents(copies) :: fresh(c)
  {
    copies := map[];
    var todo := plates;
    while todo != {}
      invariant todo <= plates && copies.Keys == plates - todo && Apart(copies)
      invariant forall p | p in copies :: fresh(copies[p]) && copies[p].CopyOf(p)
      invariant forall p, k | p in copies && k in copies[p].wells :: fresh(copies[p].wells[k]) && fresh(copies[p].wells[k].content)
      decreases todo
    {
      var p :| p in todo;
      copies := AddCopy(copies, p);
      todo := todo - {p};
    }
    forall w | w in CopiedWells(copies) ensures fresh(w) {
      var p, k :| p in copies && k in copies[p].wells && w == copies[p].wells[k];
    }
    forall c | c in CopiedContents(copies) ensures fresh(c) {
      var p, k :| p in copies && k in copies[p].wells && c == copies[p].wells[k].content;
    }
  }

  /** `copies` with a new copy of `p` added, apart from the copies already made. */
  method AddCopy(copies: map<Plate, Plate>, p: Plate) returns (copies': map<Plate, Plate>)
    requires p !in copies && Apart(copies) && forall q | q in copies :: copies[q].CopyOf(q)
    ensures copies'.Keys == copies.Keys + {p} && Apart(copies')
    ensures forall q | q in copies :: copies'[q] == copies[q]
    ensures fresh(copies'[p]) && forall k | k in copies'[p].wells :: fresh(copies'[p].wells[k]) && fresh(copies'[p].wells[k].content)
    ensures forall q | q in copies' :: copies'[q].CopyOf(q)
  {
    var copy := new Plate.Copy(p);
    copies' := copies[p := copy];
  }

  /** The wells of each copy have the names and capacities of the original's. */
  lemma CopiedShapes(copies: map<Plate, Plate>)
    requires forall p | p in copies :: copies[p].CopyOf(p)
    ensures forall p | p in copies :: copies[p].wells.Keys == p.wells.Keys
    ensures forall p, k | p in copies && k in p.wells :: copies[p].wells[k].capacity == p.wells[k].capacity
  {
    forall p, k | p in copies && k in p.wells ensures copies[p].wells[k].capacity == p.wells[k].capacity {
      assert copies[p].CopyOf(p) && Cloned(copies[p].wells[k], p.wells[k], copies[p]);
    }
  }

  /**
   * `nt` is `t` rebuilt between the wells of the same names in the copies of
   * their plates, with no data; when the destination is the well its plate
   * files under its name, its copy has the same capacity.
   */
  ghost predicate Rebuilt(nt: Transfer, t: Transfer, copies: map<Plate, Plate>)
    reads copies.Values, nt.destination, t.destination, t.destination.plate
  {
    t.source.plate in copies && t.destination.plate in copies &&
    t.source.name in copies[t.source.plate].wells && t.destination.name in copies[t.destination.plate].wells &&
    nt.source == copies[t.source.plate].wells[t.source.name] &&
    nt.destination == copies[t.destination.plate].wells[t.destination.name] &&
    nt.volume == t.volume && nt.data == None &&
    (Filed(t.destination) ==> nt.destination.capacity == t.destination.capacity)
  }

  /** Each well of a copy has the capacity of the same well of its original plate. */
  ghost predicate SameCapacities(copies: map<Plate, Plate>)
    reads copies.Keys, copies.Values, set p, k | p in copies && k in p.wells :: p.wells[k]
    reads set p, k | p in copies && k in copies[p].wells :: copies[p].wells[k]
  {
    forall p, k | p in copies && k in p.wells && k in copies[p].wells :: copies[p].wells[k].capacity == p.wells[k].capacity
  }

  /** Transfer `i` of `ts` meets what rebuilding it on the copies demands. */
  lemma ReadyToRebuild(ts: seq<Transfer>, copies: map<Plate, Plate>, i: nat)
    requires i < |ts| && PlatesOf(ts) <= copies.Keys && Shaped(copies) && SameCapacities(copies)
    ensures ts[i].source.plate in copies && ts[i].destination.plate in copies
    ensures copies[ts[i].source.plate].wells.Keys == ts[i].source.plate.wells.Keys
    ensures copies[ts[i].destination.plate].wells.Keys == ts[i].destination.plate.wells.Keys
    ensures Filed(ts[i].destination) ==> copies[ts[i].destination.plate].wells[ts[i].destination.name].capacity == ts[i].destination.capacity
  {
    assert ts[i] in ts;
  }

  /** One transfer rebuilt on the copies; a well name missing from its plate's copy raises KeyError. */
  method RebuildOne(t: Transfer, copies: map<Plate, Plate>) returns (r: Result<Transfer>)
    requires t.source.plate in copies && t.destination.plate in copies
    requires copies[t.source.plate].wells.Keys == t.source.plate.wells.Keys
    requires copies[t.destination.plate].wells.Keys == t.destination.plate.wells.Keys
    requires Filed(t.destination) ==> copies[t.destination.plate].wells[t.destination.name].capacity == t.destination.capacity
    ensures r.Failure? <==> !WellsNamed(t)
    ensures r.Failure? ==> r.error == KeyError
    ensures r.Success? ==> fresh(r.value) && Rebuilt(r.value, t, copies)
  {
    var sourcePlate := copies[t.source.plate];
    var destinationPlate := copies[t.destination.plate];
    if t.source.name !in sourcePlate.wells || t.destination.name !in destinationPlate.wells {
      return Failure(KeyError);
    }
    var nt := new Transfer(sourcePlate.wells[t.source.name], destinationPlate.wells[t.destination.name], t.volume, None);
    return Success(nt);
  }

  /** `nt` joins the wells filed under the names of `t`'s wells in `named`, the wells of the copies by plate, with `t`'s volume and no data. */
  ghost predicate RebuiltIn(nt: Transfer, t: Transfer, named: map<Plate, map<string, Well>>) {
    t.source.plate in named && t.destination.plate in named &&
    t.source.name in named[t.source.plate] && t.destination.name in named[t.destination.plate] &&
    nt.source == named[t.source.plate][t.source.name] &&
    nt.destination == named[t.destination.plate][t.destination.name] &&
    nt.volume == t.volume && nt.data == None
  }

  /**
   * The transfers rebuilt on the copies, in order; a well name missing from
   * its plate's copy raises KeyError.
   */
  method Rebuild(ts: seq<Transfer>, copies: map<Plate, Plate>) returns (r: Result<seq<Transfer>>)
    requires PlatesOf(ts) <= copies.Keys && Shaped(copies) && SameCapacities(copies)
    ensures r.Failure? <==> !Named(ts)
    ensures r.Failure? ==> r.error == KeyError
    ensures r.Success? ==> |r.value| == |ts| && forall i | 0 <= i < |ts| :: fresh(r.value[i]) && Rebuilt(r.value[i], ts[i], copies)
  {
    ghost var named := map p | p in copies :: copies[p].wells;
    var rebuilt: seq<Transfer> := [];
    var i := 0;
    while i < |ts|
      invariant i <= |ts| && |rebuilt| == i
      invariant forall j | 0 <= j < i :: fresh(rebuilt[j]) && RebuiltIn(rebuilt[j], ts[j], named)
    {
      ReadyToRebuild(ts, copies, i);
      var nt := RebuildOne(ts[i], copies);
      if nt.Failure? {
        return Failure(KeyError);
      }
      assert RebuiltIn(nt.value, ts[i], named);
      rebuilt := rebuilt + [nt.value];
      i := i + 1;
    }
    assert forall p | p in copies :: copies[p].wells == named[p];
    forall j | 0 <= j < |ts| ensures Rebuilt(rebuilt[j], ts[j], copies) && WellsNamed(ts[j]) {
      ReadyToRebuild(ts, copies, j);
    }
    forall t | t in ts ensures WellsNamed(t) {
      var j :| 0 <= j < |ts| && ts[j] == t;
    }
    return Success(rebuilt);
  }

  /** The rebuilt transfers touch only wells and contents of the copies. */
  lemma RebuiltWithin(ts: seq<Transfer>, copies: map<Plate, Plate>, newTs: seq<Transfer>)
    requires |newTs| == |ts| && forall i | 0 <= i < |ts| :: Rebuilt(newTs[i], ts[i], copies)
    ensures ContentsOf(newTs) <= CopiedContents(copies) && DestinationsOf(newTs) <= CopiedWells(copies)
  {
    forall c | c in ContentsOf(newTs) ensures c in CopiedContents(copies) {
      var j := ContentIndex(newTs, c);
    }
    forall w | w in DestinationsOf(newTs) ensures w in CopiedWells(copies) {
      var t :| t in newTs && t.destination == w;
      var j :| 0 <= j < |newTs| && newTs[j] == t;
    }
  }

  /**
   * Two wells of the original plates share a content exactly when their
   * copies share one.
   */
  ghost predicate Consistent(copies: map<Plate, Plate>)
    reads copies.Keys, copies.Values
  {
    (forall p | p in copies :: copies[p].wells.Keys == p.wells.Keys) &&
    forall p1, p2, k1, k2 | p1 in copies && p2 in copies && k1 in p1.wells && k2 in p2.wells && k1 in copies[p1].wells && k2 in copies[p2].wells ::
      p1.wells[k1].content == p2.wells[k2].content <==> copies[p1].wells[k1].content == copies[p2].wells[k2].content
  }

  /** The content of the copies that stands for `c`: that of the same well of the copy of a plate where `c` sits. */
  ghost function CopyOfContent(copies: map<Plate, Plate>, c: WellContent): WellContent
    reads copies.Keys, copies.Values
    requires Consistent(copies) && c in OriginalContents(copies)
  {
    var p, k :| p in copies && k in p.wells && p.wells[k].content == c;
    copies[p].wells[k].content
  }

  /** Each content of the original plates, mapped to the content of the copies that stands for it. */
  ghost function CloneMap(copies: map<Plate, Plate>): (f: map<WellContent, WellContent>)
    reads copies.Keys, copies.Values
    requires Consistent(copies)
  {
    map c | c in OriginalContents(copies) :: CopyOfContent(copies, c)
  }

  /** The content of an original well stands for the content of the same well of the copy. */
  lemma CloneMapAt(copies: map<Plate, Plate>, p: Plate, k: string)
    requires Consistent(copies) && p in copies && k in p.wells
    ensures p.wells[k].content in CloneMap(copies) && CloneMap(copies)[p.wells[k].content] == copies[p].wells[k].content
  {
    var c := p.wells[k].content;
    assert c in OriginalContents(copies);
    var p', k' :| p' in copies && k' in p'.wells && p'.wells[k'].content == c && CopyOfContent(copies, c) == copies[p'].wells[k'].content;
  }

  /** Different contents of the originals stand for different contents of the copies. */
  lemma CloneMapInjective(copies: map<Plate, Plate>)
    requires Consistent(copies)
    ensures var f := CloneMap(copies); forall c1, c2 | c1 in f && c2 in f && c1 != c2 :: f[c1] != f[c2]
  {
    var f := CloneMap(copies);
    forall c1, c2 | c1 in f && c2 in f && c1 != c2 ensures f[c1] != f[c2] {
      var p1, k1 :| p1 in copies && k1 in p1.wells && p1.wells[k1].content == c1;
      var p2, k2 :| p2 in copies && k2 in p2.wells && p2.wells[k2].content == c2;
      CloneMapAt(copies, p1, k1);
      CloneMapAt(copies, p2, k2);
    }
  }

  /** Copies made plate by plate from separate plates share contents exactly as the originals do. */
  lemma ConsistentCopies(ts: seq<Transfer>, copies: map<Plate, Plate>)
    requires Separate(ts) && copies.Keys == PlatesOf(ts) && Apart(copies)
    requires forall p | p in copies :: copies[p].CopyOf(p)
    ensures Consistent(copies)
  {
    forall p1, p2, k1, k2 | p1 in copies && p2 in copies && k1 in p1.wells && k2 in p2.wells && k1 in copies[p1].wells && k2 in copies[p2].wells
      ensures p1.wells[k1].content == p2.wells[k2].content <==> copies[p1].wells[k1].content == copies[p2].wells[k2].content
    {
      if p1 == p2 {
        assert copies[p1].CopyOf(p1);
      }
    }
  }

  /**
   * `f` maps each content of the original plates to the content of its copy
   * that the same well holds, one to one.
   */
  ghost predicate Maps(f: map<WellContent, WellContent>, copies: map<Plate, Plate>)
    reads copies.Keys, copies.Values
  {
    (forall p, k | p in copies && k in p.wells && k in copies[p].wells ::
      p.wells[k].content in f && f[p.wells[k].content] == copies[p].wells[k].content) &&
    forall c1, c2 | c1 in f && c2 in f && c1 != c2 :: f[c1] != f[c2]
  }

  /** `f` maps the contents of the original plates to their copies, with both in the same state. */
  ghost predicate Clones(f: map<WellContent, WellContent>, copies: map<Plate, Plate>)
    reads copies.Keys, copies.Values, f.Keys, f.Values
  {
    Maps(f, copies) && forall c | c in f :: f[c].ToDict() == c.ToDict()
  }

  /** The copy of each original content is in the same state as the original. */
  lemma CloneMapClones(copies: map<Plate, Plate>)
    requires Consistent(copies) && forall p | p in copies :: copies[p].CopyOf(p)
    ensures Clones(CloneMap(copies), copies)
  {
    var f := CloneMap(copies);
    CloneMapInjective(copies);
    forall p, k | p in copies && k in p.wells && k in copies[p].wells
      ensures p.wells[k].content in f && f[p.wells[k].content] == copies[p].wells[k].content
    {
      CloneMapAt(copies, p, k);
    }
    forall c | c in f ensures f[c].ToDict() == c.ToDict() {
      var p, k :| p in copies && k in p.wells && p.wells[k].content == c;
      CloneMapAt(copies, p, k);
      assert copies[p].CopyOf(p) && Cloned(copies[p].wells[k], p.wells[k], copies[p]);
    }
  }

  /** The rebuilt transfer `i` moves the same volume between the copies of the original contents, under the same capacity. */
  lemma RebuiltStep(ts: seq<Transfer>, copies: map<Plate, Plate>, newTs: seq<Transfer>, f: map<WellContent, WellContent>, i: nat)
    requires Separate(ts) && Clones(f, copies)
    requires i < |ts| == |newTs| && Rebuilt(newTs[i], ts[i], copies)
    ensures ts[i].source.content in f && ts[i].destination.content in f
    ensures newTs[i].source.content == f[ts[i].source.content]
    ensures newTs[i].destination.content == f[ts[i].destination.content]
    ensures newTs[i].volume == ts[i].volume && newTs[i].destination.capacity == ts[i].destination.capacity
  {
    var t := ts[i];
    assert t in ts;
    assert Filed(t.source) && Filed(t.destination);
  }

  /** A content the transfers touch is touched by the transfer at some position. */
  lemma ContentIndex(ts: seq<Transfer>, c: WellContent) returns (i: nat)
    requires c in ContentsOf(ts)
    ensures i < |ts| && (c == ts[i].source.content || c == ts[i].destination.content)
  {
    var t :| t in ts && (c == t.source.content || c == t.destination.content);
    i :| 0 <= i < |ts| && ts[i] == t;
  }

  /** Before the simulation, the lab of the rebuilt transfers corresponds to the lab of the original ones. */
  lemma CloneLab(ts: seq<Transfer>, copies: map<Plate, Plate>, newTs: seq<Transfer>, f: map<WellContent, WellContent>)
    requires Separate(ts) && Clones(f, copies)
    requires |newTs| == |ts| && forall i | 0 <= i < |ts| :: Rebuilt(newTs[i], ts[i], copies)
    ensures Corresponds(LabOf(ts), LabOf(newTs), f)
  {
    forall c | c in ContentsOf(ts) ensures c in f && f[c] in ContentsOf(newTs) && f[c].ToDict() == c.ToDict() {
      var i := ContentIndex(ts, c);
      RebuiltStep(ts, copies, newTs, f, i);
      assert newTs[i] in newTs;
    }
  }

  /** The steps of the rebuilt transfers are the steps of the original ones, renamed. */
  lemma CloneSteps(ts: seq<Transfer>, copies: map<Plate, Plate>, newTs: seq<Transfer>, f: map<WellContent, WellContent>)
    requires Separate(ts) && Clones(f, copies)
    requires |newTs| == |ts| && forall i | 0 <= i < |ts| :: Rebuilt(newTs[i], ts[i], copies)
    ensures Renamed(StepsOf(ts), StepsOf(newTs), f)
  {
    forall i | 0 <= i < |ts|
      ensures ts[i].source.content in f && ts[i].destination.content in f
      ensures StepOf(newTs[i]) == Step(f[ts[i].source.content], f[ts[i].destination.content], ts[i].volume, ts[i].destination.capacity)
    {
      RebuiltStep(ts, copies, newTs, f, i);
    }
  }

  /** The only copies the rebuilt transfers touch are copies of contents the original transfers touch. */
  lemma CloneTouches(ts: seq<Transfer>, copies: map<Plate, Plate>, newTs: seq<Transfer>, f: map<WellContent, WellContent>)
    requires Separate(ts) && Clones(f, copies)
    requires |newTs| == |ts| && forall i | 0 <= i < |ts| :: Rebuilt(newTs[i], ts[i], copies)
    ensures forall c | c in f && f[c] in ContentsOf(newTs) :: c in ContentsOf(ts)
  {
    forall c | c in f && f[c] in ContentsOf(newTs) ensures c in ContentsOf(ts) {
      var i := ContentIndex(newTs, f[c]);
      RebuiltStep(ts, copies, newTs, f, i);
      assert ts[i] in ts;
    }
  }

  /** The map from the contents of separate plates to the contents of their copies. */
  lemma CloneContents(ts: seq<Transfer>, copies: map<Plate, Plate>) returns (f: map<WellContent, WellContent>)
    requires Separate(ts) && copies.Keys == PlatesOf(ts) && Apart(copies)
    requires forall p | p in copies :: copies[p].CopyOf(p)
    ensures Clones(f, copies)
  {
    ConsistentCopies(ts, copies);
    f := CloneMap(copies);
    CloneMapClones(copies);
  }

  /**
   * On separate plates, the rebuilt transfers match the originals through the
   * map `f` from original contents to their copies: the run of the rebuilt
   * transfers ends as the run of the originals, on the copies of the
   * contents; the rebuilt transfers touch no other copies.
   */
  lemma CopiesMatch(ts: seq<Transfer>, copies: map<Plate, Plate>, newTs: seq<Transfer>, f: map<WellContent, WellContent>)
    requires Separate(ts) && Clones(f, copies)
    requires |newTs| == |ts| && forall i | 0 <= i < |ts| :: Rebuilt(newTs[i], ts[i], copies)
    ensures Covers(LabOf(ts), StepsOf(ts)) && Covers(LabOf(newTs), StepsOf(newTs))
    ensures var run, run2 := RunSteps(LabOf(ts), StepsOf(ts)), RunSteps(LabOf(newTs), StepsOf(newTs));
      run2.outcome == run.outcome && Corresponds(run.lab, run2.lab, f)
    ensures forall c | c in f && f[c] in ContentsOf(newTs) :: c in ContentsOf(ts)
  {
    CloneLab(ts, copies, newTs, f);
    CloneSteps(ts, copies, newTs, f);
    CloneTouches(ts, copies, newTs, f);
    CoveredByOwnContents(ts, LabOf(ts), StepsOf(ts));
    RunRenamed(LabOf(ts), LabOf(newTs), StepsOf(ts), StepsOf(newTs), f);
  }

  /** What a content holds at the end of a run: its state in the run's lab, or its own state when the run leaves it out. */
  function Final(lab: Lab, c: WellContent): Snapshot
    reads c
  {
    if c in lab then lab[c] else c.ToDict()
  }

  /**
   * merge_picklists: the sum of the lists, starting from an empty one, so
   * their transfers one list after the other.
   */
  method MergePickLists(ps: seq<PickList>) returns (p: PickList)
    ensures fresh(p) && p.transfers == Flatten(TransferLists(ps)) && p.data == map[]
  {
    p := new PickList([], None);
    var i := 0;
    while i < |ps|
      invariant 0 <= i <= |ps|
      invariant fresh(p) && p.transfers == Flatten(TransferLists(ps)[..i]) && p.data == map[]
    {
      FlattenAppend(TransferLists(ps)[..i], [ps[i].transfers]);
      assert TransferLists(ps)[..i + 1] == TransferLists(ps)[..i] + [ps[i].transfers];
      p := p.Concat(ps[i]);
      i := i + 1;
    }
    assert TransferLists(ps)[..i] == TransferLists(ps);
  }

  class PickList {
    /** The transfers, in the order in which they are meant to be simulated. */
    var transfers: seq<Transfer>
    /** Free information on the pick list; derived lists record their parent under "parent". */
    var data: map<string, object>

    /** A pick list of the given transfers; missing data is an empty dict. */
    constructor (transfers: seq<Transfer>, data: Option<map<string, object>>)
      ensures this.transfers == transfers
      ensures this.data == if data.Some? then data.value else map[]
    {
      this.transfers := transfers;
      this.data := if data.Some? then data.value else map[];
    }

    /** add_transfer(transfer=t): `t` goes at the end; the transfers already listed keep their order. */
    method AddTransfer(t: Transfer)
      modifies this
      ensures transfers == old(transfers) + [t] && data == old(data)
    {
      transfers := transfers + [t];
    }

    /** add_transfer(source_well, destination_well, volume, data): a new transfer at the end. */
    method AddNewTransfer(source: Well, destination: Well, volume: real, transferData: Option<WellData>) returns (t: Transfer)
      modifies this
      ensures fresh(t) && t.source == source && t.destination == destination
      ensures t.volume == volume && t.data == transferData
      ensures transfers == old(transfers) + [t] && data == old(data)
    {
      t := new Transfer(source, destination, volume, transferData);
      transfers := transfers + [t];
    }

    /** to_plain_string: one line per transfer. */
    function PlainString(format: real -> string): (s: string)
      reads this
      ensures transfers == [] ==> s == ""
      ensures |transfers| == 1 ==> s == transfers[0].ToPlainString(format)
      ensures transfers != [] ==> transfers[0].ToPlainString(format) <= s
      ensures transfers != [] ==> var last := transfers[|transfers| - 1].ToPlainString(format);
        |last| <= |s| && s[|s| - |last|..] == last
    {
      if transfers == [] then ""
      else
        JoinEnds(PlainLines(transfers, format), "\n");
        Join(PlainLines(transfers, format), "\n")
    }

    /**
     * restricted_to: the transfers that pass the filter, in their order, in a
     * new pick list that records this one as its parent. Without a filter,
     * the source and destination wells given (None for any) make one.
     */
    method RestrictedTo(filter: Option<Transfer -> bool>, source: Option<Well>, destination: Option<Well>) returns (p: PickList)
      ensures fresh(p) && p.data == map["parent" := this]
      ensures p.transfers == Filter(transfers, if filter.Some? then filter.value else WellFilter(source, destination))
    {
      var keep := if filter.Some? then filter.value else WellFilter(source, destination);
      p := new PickList(Filter(transfers, keep), Some(map["parent" := this]));
    }

    /** sorted_by: the transfers stably sorted by the key, in a new pick list that records this one as its parent. */
    method SortedBy(key: Transfer -> string) returns (p: PickList)
      ensures fresh(p) && p.data == map["parent" := this]
      ensures p.transfers == SortBy(transfers, key)
    {
      p := new PickList(SortBy(transfers, key), Some(map["parent" := this]));
    }

    /** total_transferred_volume: the sum of the volumes. */
    function TotalTransferredVolume(): (v: real)
      reads this
      ensures transfers == [] ==> v == 0.0
      ensures (forall i | 0 <= i < |transfers| :: transfers[i].volume >= 0.0) ==> v >= 0.0
    {
      if forall i | 0 <= i < |transfers| :: transfers[i].volume >= 0.0 then
        SumNonNegative(Volumes(transfers));
        Sum(Volumes(transfers))
      else Sum(Volumes(transfers))
    }

    /**
     * enforce_maximum_dispense_volume: each transfer replaced by its split,
     * in a new pick list. A maximum of 0 raises ZeroDivisionError as soon as
     * there is a transfer to split.
     */
    method EnforceMaximumDispenseVolume(maximum: real) returns (r: Result<PickList>)
      ensures r.Failure? <==> maximum == 0.0 && transfers != []
      ensures r.Failure? ==> r.error == ZeroDivisionError
      ensures r.Success? ==>
        fresh(r.value) && r.value.data == map[] &&
        Realizes(r.value.transfers, Plan(transfers, maximum)) &&
        forall j | 0 <= j < |r.value.transfers| :: fresh(r.value.transfers[j])
    {
      if maximum == 0.0 && transfers != [] {
        return Failure(ZeroDivisionError);
      }
      var out: seq<Transfer> := [];
      var i := 0;
      while i < |transfers|
        invariant 0 <= i <= |transfers|
        invariant Realizes(out, Plan(transfers[..i], maximum))
        invariant forall j | 0 <= j < |out| :: fresh(out[j])
      {
        var pieces := Split(transfers[i], maximum);
        RealizesAppend(out, Plan(transfers[..i], maximum), pieces, ChunksOf(transfers[i], maximum));
        out := out + pieces;
        assert transfers[..i + 1][..i] == transfers[..i];
        i := i + 1;
      }
      assert transfers[..i] == transfers;
      var p := new PickList(out, None);
      return Success(p);
    }

    /** The loop body of enforce_maximum_dispense_volume: the new transfers that replace `t`. */
    static method Split(t: Transfer, maximum: real) returns (pieces: seq<Transfer>)
      requires maximum != 0.0
      ensures Realizes(pieces, ChunksOf(t, maximum))
      ensures forall j | 0 <= j < |pieces| :: fresh(pieces[j])
    {
      ghost var chunks := ChunksOf(t, maximum);
      var n := Dispenses(t.volume, maximum);
      var rest := Leftover(t.volume, maximum);
      pieces := [];
      var k := 0;
      while k < n
        invariant 0 <= k <= (if n > 0 then n else 0)
        invariant Realizes(pieces, chunks[..k])
        invariant forall j | 0 <= j < |pieces| :: fresh(pieces[j])
      {
        var c := t.WithNewVolume(maximum);
        assert chunks[..k + 1] == chunks[..k] + [chunks[k]];
        pieces := pieces + [c];
        k := k + 1;
      }
      if rest > 0.0 {
        var c := t.WithNewVolume(rest);
        assert chunks == chunks[..k] + [chunks[k]];
        pieces := pieces + [c];
      } else {
        assert chunks == chunks[..k];
      }
    }

    /** __add__: the transfers of this list, then those of `other`, in a new pick list. */
    method Concat(other: PickList) returns (p: PickList)
      ensures fresh(p) && p.transfers == transfers + other.transfers && p.data == map[]
    {
      p := new PickList(transfers + other.transfers, None);
    }

    /**
     * simulate(inplace=True): the transfers applied one after the other to
     * the wells themselves. The contents end as the value-level run leaves
     * them; the first refusal is returned and the transfers before it stay
     * applied; each destination records the transfers applied into it.
     */
    method Simulate() returns (outcome: Outcome)
      modifies ContentsOf(transfers), DestinationsOf(transfers)`sources
      ensures Covers(old(LabOf(transfers)), old(StepsOf(transfers)))
      ensures var r := RunSteps(old(LabOf(transfers)), old(StepsOf(transfers)));
        outcome == r.outcome && Mirrors(r.lab) &&
        forall w | w in DestinationsOf(transfers) :: w.sources == RecordedAll(old(w.sources), transfers[..r.applied], w)
    {
      outcome := ApplyInOrder(transfers);
    }

    /**
     * simulate(inplace=False): each plate the transfers touch is copied once,
     * the transfers are rebuilt between the wells of the same names in the
     * copies, and the rebuilt list is simulated in place; the copies are
     * returned by original plate. A name missing from its plate raises
     * KeyError before anything is simulated; a refused transfer raises
     * TransferError. The method modifies no object that exists before it is
     * called, so the plates given, their wells and contents stay as they are.
     * On separate plates the copies end as the run of the original transfers
     * leaves the contents: every well of a copy holds the state the run gives
     * the content of the original well.
     */
    method SimulateCopy() returns (r: Result<map<Plate, Plate>>)
      ensures r.Failure? ==> r.error == KeyError || r.error == TransferError
      ensures (r.Failure? && r.error == KeyError) <==> !old(Named(transfers))
      ensures r.Success? ==> r.value.Keys == PlatesOf(transfers)
      ensures r.Success? ==> (forall p | p in r.value :: fresh(r.value[p])) && Shaped(r.value)
      ensures old(Separate(transfers)) ==>
        old(Covers(LabOf(transfers), StepsOf(transfers))) &&
        var run := old(RunSteps(LabOf(transfers), StepsOf(transfers)));
        (r.Success? <==> run.outcome.Ok?) &&
        (r.Success? ==> HoldFinal(r.value, run.lab))
    {
      var ts := transfers;
      ghost var named, separate := Named(ts), Separate(ts);
      ghost var lab, steps := LabOf(ts), StepsOf(ts);
      CoveredByOwnContents(ts, lab, steps);
      ghost var run := RunSteps(lab, steps);
      TransfersAllocated(ts);
      var copied, f := CopyAndRebuild(ts);
      assert Named(ts) == named && Separate(ts) == separate;
      assert LabOf(ts) == lab by {
        forall c | c in ContentsOf(ts) ensures c.ToDict() == lab[c] {
        }
        LabOfHolds(ts, lab);
      }
      assert StepsOf(ts) == steps by {
        forall i | 0 <= i < |ts| ensures StepOf(ts[i]) == steps[i] {
          assert ts[i].destination in DestinationsOf(ts);
        }
        StepsOfHolds(ts, steps);
      }
      if copied.Failure? {
        return Failure(KeyError);
      }
      var (copies, newTs) := copied.value;
      var outcome := SimulateRebuilt(ts, copies, newTs, f, run, {this});
      r := if outcome.Err? then Failure(outcome.error) else Success(copies);
    }

    /**
     * The rebuilt transfers simulated in place, as a new pick list of them
     * would simulate them. On separate plates, the run ends as `run`, the run
     * of the original transfers, and every well of a copy ends holding what
     * that run leaves in the content of the original well. The plates and
     * the pick lists in `lists` are not changed.
     */
    static method SimulateRebuilt(ghost ts: seq<Transfer>, copies: map<Plate, Plate>, newTs: seq<Transfer>,
                                  ghost f: map<WellContent, WellContent>, ghost run: Run, ghost lists: set<PickList>)
      returns (outcome: Outcome)
      requires |newTs| == |ts| && forall i | 0 <= i < |ts| :: Rebuilt(newTs[i], ts[i], copies)
      requires PlatesOf(ts) <= copies.Keys && Shaped(copies) && Untouched(copies, newTs)
      requires Separate(ts) ==> Clones(f, copies) && Covers(LabOf(ts), StepsOf(ts)) && run == RunSteps(LabOf(ts), StepsOf(ts))
      modifies ContentsOf(newTs), DestinationsOf(newTs)`sources
      ensures outcome.Err? ==> outcome.error == TransferError
      ensures unchanged(copies.Keys) && unchanged(copies.Values) && unchanged(lists)
      ensures Shaped(copies)
      ensures old(Separate(ts)) ==> (outcome.Ok? <==> run.outcome.Ok?)
      ensures old(Separate(ts)) && outcome.Ok? ==> HoldFinal(copies, run.lab)
    {
      ghost var separate := Separate(ts);
      if separate {
        CopiesMatch(ts, copies, newTs, f);
      }
      outcome := RunRebuilt(copies, newTs, f, run, separate, lists);
    }

    /**
     * The second half of simulate(inplace=False): the rebuilt transfers
     * simulated in place, as the simulation of a new pick list of them
     * applies them. When they match the originals through `f`, the run ends
     * as `run`, the run of the originals, and the copy of each original
     * content holds what `run` leaves in the original.
     */
    static method RunRebuilt(ghost copies: map<Plate, Plate>, newTs: seq<Transfer>, ghost f: map<WellContent, WellContent>,
                             ghost run: Run, ghost matched: bool, ghost lists: set<PickList>)
      returns (outcome: Outcome)
      requires Shaped(copies) && Untouched(copies, newTs)
      requires matched ==> Maps(f, copies)
      requires matched ==> (forall c | c in f :: f[c].ToDict() == c.ToDict()) && Covers(LabOf(newTs), StepsOf(newTs))
      requires matched ==> var run2 := RunSteps(LabOf(newTs), StepsOf(newTs));
        run2.outcome == run.outcome && Corresponds(run.lab, run2.lab, f)
      requires matched ==> forall c | c in f && f[c] in ContentsOf(newTs) :: c in run.lab
      modifies ContentsOf(newTs), DestinationsOf(newTs)`sources
      ensures outcome.Err? ==> outcome.error == TransferError
      ensures matched ==> (outcome.Ok? <==> run.outcome.Ok?)
      ensures unchanged(copies.Keys) && unchanged(copies.Values) && unchanged(lists)
      ensures Shaped(copies)
      ensures matched && outcome.Ok? ==> HoldFinal(copies, run.lab)
    {
      outcome := ApplyLeavingPlates(newTs, copies.Keys + copies.Values, lists);
      if matched && outcome.Ok? {
        ghost var run2 := old(RunSteps(LabOf(newTs), StepsOf(newTs)));
        forall c | c in f ensures f[c].ToDict() == old(Final(run.lab, c)) {
          if c in run.lab {
            assert f[c] in run2.lab;
          } else {
            assert f[c] !in ContentsOf(newTs);
          }
        }
        assert HoldFinal(copies, run.lab) by {
          forall c | c in f && c !in ContentsOf(newTs) ensures f[c].ToDict() == Final(run.lab, c) {
            assert f[c].ToDict() == old(Final(run.lab, c));
          }
          FinalCopies(copies, f, newTs, run.lab);
        }
      }
    }

    /**
     * The first half of simulate(inplace=False): the plates copied and the
     * transfers rebuilt on the copies; a well name missing from its plate
     * raises KeyError. On separate plates, `f` maps the original contents to
     * their copies.
     */
    static method CopyAndRebuild(ts: seq<Transfer>) returns (r: Result<(map<Plate, Plate>, seq<Transfer>)>, ghost f: map<WellContent, WellContent>)
      ensures r.Failure? <==> !Named(ts)
      ensures r.Failure? ==> r.error == KeyError
      ensures r.Success? ==> var (copies, newTs) := r.value;
        copies.Keys == PlatesOf(ts) &&
        (forall p | p in copies :: fresh(copies[p])) && Shaped(copies) &&
        |newTs| == |ts| && (forall i | 0 <= i < |ts| :: Rebuilt(newTs[i], ts[i], copies)) &&
        (forall c | c in ContentsOf(newTs) :: fresh(c)) && forall w | w in DestinationsOf(newTs) :: fresh(w)
      ensures r.Success? ==> var (copies, newTs) := r.value;
        ContentsOf(ts) !! ContentsOf(newTs) &&
        Untouched(copies, newTs)
      ensures r.Success? && Separate(ts) ==> Clones(f, r.value.0)
    {
      var copies;
      copies, f := CopyAndClone(ts);
      var rebuilt := Rebuild(ts, copies);
      if rebuilt.Failure? {
        return Failure(KeyError), f;
      }
      RebuiltWithin(ts, copies, rebuilt.value);
      r := Success((copies, rebuilt.value));
    }

    /**
     * The plates of the transfers copied, with the correspondence `f` from
     * the original contents to their copies on separate plates. The copies
     * hold none of the original contents.
     */
    static method CopyAndClone(ts: seq<Transfer>) returns (copies: map<Plate, Plate>, ghost f: map<WellContent, WellContent>)
      ensures copies.Keys == PlatesOf(ts)
      ensures (forall p | p in copies :: fresh(copies[p])) && Shaped(copies)
      ensures SameCapacities(copies)
      ensures forall w | w in CopiedWells(copies) :: fresh(w)
      ensures forall c | c in CopiedContents(copies) :: fresh(c)
      ensures ContentsOf(ts) !! CopiedContents(copies)
      ensures forall p, k | p in copies && k in p.wells :: p.wells[k].content !in CopiedContents(copies)
      ensures Separate(ts) ==> Clones(f, copies)
    {
      copies := CopyPlates(PlatesOf(ts));
      f := map[];
      if Separate(ts) {
        f := CloneContents(ts, copies);
      }
      CopiedShapes(copies);
      forall c | c in ContentsOf(ts) ensures c !in CopiedContents(copies) {
        assert old(allocated(c));
      }
      forall p, k | p in copies && k in p.wells ensures p.wells[k].content !in CopiedContents(copies) {
        assert old(allocated(p.wells[k].content));
      }
    }

    /** ApplyInOrder, which changes contents and the records of wells but no plate and no pick list. */
    static method ApplyLeavingPlates(ts: seq<Transfer>, ghost plates: set<Plate>, ghost lists: set<PickList>) returns (outcome: Outcome)
      modifies ContentsOf(ts), DestinationsOf(ts)`sources
      ensures Covers(old(LabOf(ts)), old(StepsOf(ts)))
      ensures var r := RunSteps(old(LabOf(ts)), old(StepsOf(ts)));
        outcome == r.outcome && Mirrors(r.lab)
      ensures unchanged(plates) && unchanged(lists)
    {
      outcome := ApplyInOrder(ts);
    }

    /** The transfers applied to their wells one after the other, up to the first that is refused. */
    static method ApplyInOrder(ts: seq<Transfer>) returns (outcome: Outcome)
      modifies ContentsOf(ts), DestinationsOf(ts)`sources
      ensures Covers(old(LabOf(ts)), old(StepsOf(ts)))
      ensures var r := RunSteps(old(LabOf(ts)), old(StepsOf(ts)));
        outcome == r.outcome && Mirrors(r.lab) &&
        forall w | w in DestinationsOf(ts) :: w.sources == RecordedAll(old(w.sources), ts[..r.applied], w)
    {
      ghost var lab0 := LabOf(ts);
      ghost var steps := StepsOf(ts);
      ghost var sources0: map<Well, seq<Source>> := map w | w in DestinationsOf(ts) :: w.sources;
      StartReached(ts, lab0, steps, sources0);
      StepsAt(ts);
      ghost var lab := lab0;
      ghost var book := sources0;
      var i := 0;
      while i < |ts|
        invariant Reached(ts, lab0, steps, sources0, i, lab, book)
      {
        assert steps[i] == old(StepAt(ts, i));
        outcome, lab, book := Advance(ts, lab0, steps, sources0, i, lab, book);
        if outcome.Err? {
          return;
        }
        i := i + 1;
      }
      assert steps[..i] == steps && ts[..i] == ts;
      outcome := Ok;
    }

    /**
     * The transfer at `i` applied: either the simulation stops there, with
     * the run refused at that transfer, or it has reached `i + 1`.
     */
    static method Advance(ts: seq<Transfer>, ghost lab0: Lab, ghost steps: seq<Step>, ghost sources0: map<Well, seq<Source>>,
                          i: nat, ghost lab: Lab, ghost book: map<Well, seq<Source>>)
        returns (outcome: Outcome, ghost next: Lab, ghost nextBook: map<Well, seq<Source>>)
      requires i < |ts| && |steps| == |ts| && steps[i] == StepAt(ts, i) && Reached(ts, lab0, steps, sources0, i, lab, book)
      modifies ts[i].source.content, ts[i].destination.content, ts[i].destination`sources
      ensures outcome.Ok? ==> Reached(ts, lab0, steps, sources0, i + 1, next, nextBook)
      ensures outcome.Err? ==>
        RunSteps(lab0, steps) == Run(outcome, next, i) && Mirrors(next) &&
        nextBook.Keys == DestinationsOf(ts) && Lists(nextBook) && RecordedUpTo(nextBook, sources0, ts, i)
    {
      var t := ts[i];
      RunStep(lab0, steps, i, lab);
      assert t in ts;
      outcome, next, nextBook := ApplyTracked(t, lab, steps[i], book);
      if outcome.Ok? {
        RecordedUpToNext(book, sources0, ts, i);
      }
    }

    /** One transfer applied to the wells, tracked in the lab that mirrors their contents and in the book of sources. */
    static method ApplyTracked(t: Transfer, ghost lab: Lab, ghost s: Step, ghost book: map<Well, seq<Source>>)
        returns (outcome: Outcome, ghost next: Lab, ghost nextBook: map<Well, seq<Source>>)
      requires s == Step(t.source.content, t.destination.content, t.volume, t.destination.capacity)
      requires s.source in lab && s.destination in lab && Mirrors(lab)
      requires t.destination in book && Lists(book)
      modifies t.source.content, t.destination.content, t.destination`sources
      ensures var r := ApplyStep(lab, s);
        Mirrors(next) && Lists(nextBook) &&
        (r.Failure? ==> outcome == Err(r.error) && next == lab && nextBook == book) &&
        (r.Success? ==>
          outcome == Ok && next == r.value &&
          nextBook == book[t.destination := Recorded(book[t.destination], t)])
    {
      outcome := t.Apply();
      next := lab;
      nextBook := book;
      if outcome.Ok? {
        next := ApplyStep(lab, s).value;
        nextBook := book[t.destination := Recorded(book[t.destination], t)];
      }
      forall c | c in next && c != s.source && c != s.destination ensures c.ToDict() == next[c] {
        assert c.ToDict() == old(c.ToDict());
      }
      forall w | w in nextBook && w != t.destination ensures w.sources == nextBook[w] {
        assert w.sources == old(w.sources);
      }
    }
  }
}
