/** The build loop, which skips everything below a failure, and the batch runner, whose threads
    run the models of one generation in any interleaving. */
module Build {
  import opened Text
  import opened Sorting
  import opened Graph
  import opened Dag

  // ----- build_project -----

  /** What running one model and its tests came to. */
  datatype Outcome =
    | RaisedRunError
    | Ran(hasErrors: bool, testsHardFail: bool)

  datatype Project = Project(successors: Adjacency, search: set<string>, outcome: string -> Outcome) {
    /** Search models have no tests of their own. */
    predicate Fails(n: string) {
      match outcome(n)
      case RaisedRunError => true
      case Ran(hasErrors, testsHardFail) => hasErrors || (n !in search && testsHardFail)
    }

    predicate RunsTests(n: string) {
      outcome(n).Ran? && !outcome(n).hasErrors && n !in search
    }
  }

  datatype BuildResult = BuildResult(runs: seq<string>, skipped: seq<string>, tested: seq<string>)

  /** Some model of `runs` failed above `n` in the full graph. */
  ghost predicate FailedAbove(project: Project, runs: seq<string>, n: string) {
    exists m :: m in runs && project.Fails(m) && Reaches(project.successors, m, n)
  }

  /** Each name went exactly one way: skipped when a model above it ran and failed, otherwise run
      once. Both lists keep the order of the selection. */
  ghost predicate Decided(project: Project, selected: seq<string>, out: BuildResult) {
    && (forall n :: n in selected ==> (n in out.skipped <==> FailedAbove(project, out.runs, n)))
    && out.runs == Filtered(selected, set n | n in selected && n !in out.skipped)
    && out.skipped == Filtered(selected, set n | n in out.skipped)
    && out.tested == Filtered(out.runs, set n | n in out.runs && project.RunsTests(n))
  }

  /** No name reaches itself or an earlier one: what a topological selection guarantees. */
  ghost predicate Downward(successors: Adjacency, selected: seq<string>) {
    forall i, j :: 0 <= i <= j < |selected| ==> !Reaches(successors, selected[j], selected[i])
  }

  lemma FailedAboveSnoc(project: Project, runs: seq<string>, name: string, n: string)
    ensures FailedAbove(project, runs + [name], n) <==>
      FailedAbove(project, runs, n) || (project.Fails(name) && Reaches(project.successors, name, n))
  {
    hide Reaches;
    if FailedAbove(project, runs, n) {
      var m :| m in runs && project.Fails(m) && Reaches(project.successors, m, n);
      assert m in runs + [name];
    }
    assert name in runs + [name];
  }

  lemma {:induction false} FilteredAgrees(order: seq<string>, keep: set<string>, keep2: set<string>)
    requires forall n :: n in order ==> (n in keep <==> n in keep2)
    ensures Filtered(order, keep) == Filtered(order, keep2)
  {
    if order != [] {
      assert order == order[..|order| - 1] + [order[|order| - 1]];
      FilteredAgrees(order[..|order| - 1], keep, keep2);
    }
  }

  /** Filtering one more name by a set that grew by at most that name. */
  lemma FilteredGrows(done: seq<string>, name: string, keep: set<string>, more: set<string>)
    requires name !in done && forall n :: n != name ==> (n in keep <==> n in more)
    ensures Filtered(done + [name], more) == Filtered(done, keep) + if name in more then [name] else []
  {
    FilteredAgrees(done, more, keep);
  }

  lemma RunStep(project: Project, done: seq<string>, out: BuildResult, name: string)
    requires Decided(project, done, out) && name !in done && !FailedAbove(project, out.runs, name)
    requires forall n :: n in done + [name] ==> !Reaches(project.successors, name, n)
    requires forall n :: n in out.skipped ==> n in done
    ensures Decided(project, done + [name],
      BuildResult(out.runs + [name], out.skipped, if project.RunsTests(name) then out.tested + [name] else out.tested))
  {
    hide Reaches, FailedAbove, Filtered, Project.RunsTests, Project.Fails;
    forall n ensures n in done + [name] ==> (FailedAbove(project, out.runs + [name], n) <==> FailedAbove(project, out.runs, n)) {
      FailedAboveSnoc(project, out.runs, name, n);
    }
    RunsGrow(done, name, out.skipped);
    FilteredGrows(done, name, set n | n in out.skipped, set n | n in out.skipped);
    FilteredMembers(done, set n | n in done && n !in out.skipped);
    TestedGrow(project, out.runs, name);
  }

  lemma RunsGrow(done: seq<string>, name: string, skipped: seq<string>)
    requires name !in done && name !in skipped
    ensures Filtered(done + [name], set n | n in done + [name] && n !in skipped)
         == Filtered(done, set n | n in done && n !in skipped) + [name]
  {
    hide Filtered;
    FilteredGrows(done, name, set n | n in done && n !in skipped, set n | n in done + [name] && n !in skipped);
  }

  lemma TestedGrow(project: Project, runs: seq<string>, name: string)
    requires name !in runs
    ensures Filtered(runs + [name], set n | n in runs + [name] && project.RunsTests(n))
         == Filtered(runs, set n | n in runs && project.RunsTests(n)) + if project.RunsTests(name) then [name] else []
  {
    hide Filtered, Project.RunsTests;
    FilteredGrows(runs, name, set n | n in runs && project.RunsTests(n), set n | n in runs + [name] && project.RunsTests(n));
  }

  lemma SkipStep(project: Project, done: seq<string>, out: BuildResult, name: string)
    requires Decided(project, done, out) && name !in done && FailedAbove(project, out.runs, name)
    requires forall n :: n in out.skipped ==> n in done
    ensures Decided(project, done + [name], out.(skipped := out.skipped + [name]))
  {
    hide FailedAbove, Filtered, Project.RunsTests, Project.Fails;
    SkippedGrow(done, name, out.skipped);
  }

  lemma SkippedGrow(done: seq<string>, name: string, skipped: seq<string>)
    requires name !in done && forall n :: n in skipped ==> n in done
    ensures Filtered(done + [name], set n | n in done + [name] && n !in skipped + [name])
         == Filtered(done, set n | n in done && n !in skipped)
    ensures Filtered(done + [name], set n | n in skipped + [name]) == Filtered(done, set n | n in skipped) + [name]
  {
    hide Filtered;
    FilteredGrows(done, name, set n | n in done && n !in skipped, set n | n in done + [name] && n !in skipped + [name]);
    FilteredGrows(done, name, set n | n in skipped, set n | n in skipped + [name]);
  }

  /** The loop of `build_project`. */
  method RunSelected(project: Project, selected: seq<string>) returns (out: BuildResult)
    requires Distinct(selected) && Downward(project.successors, selected)
    ensures Decided(project, selected, out)
  {
    hide Decided, FailedAbove, Distinct, Downward;
    out := BuildResult([], [], []);
    var blocked: set<string> := {};
    NothingDecided(project);
    for k := 0 to |selected|
      invariant Decided(project, selected[..k], out)
      invariant forall n :: n in out.skipped ==> n in selected[..k]
      invariant forall n :: n in blocked <==> FailedAbove(project, out.runs, n)
    {
      var name := selected[k];
      assert selected[..k + 1] == selected[..k] + [name];
      NextName(project.successors, selected, k);
      if name in blocked {
        SkipStep(project, selected[..k], out, name);
        out := out.(skipped := out.skipped + [name]);
        continue;
      }
      RunStep(project, selected[..k], out, name);
      forall n ensures FailedAbove(project, out.runs + [name], n) <==>
        FailedAbove(project, out.runs, n) || (project.Fails(name) && Reaches(project.successors, name, n))
      {
        FailedAboveSnoc(project, out.runs, name, n);
      }
      out := out.(runs := out.runs + [name]);
      match project.outcome(name)
      case RaisedRunError =>
        var descendants := Bfs(name, project.successors);
        blocked := blocked + descendants;
      case Ran(hasErrors, testsHardFail) =>
        if hasErrors {
          var descendants := Bfs(name, project.successors);
          blocked := blocked + descendants;
        } else if name !in project.search {
          out := out.(tested := out.tested + [name]);
          if testsHardFail {
            var descendants := Bfs(name, project.successors);
            blocked := blocked + descendants;
          }
        }
    }
    assert selected[..|selected|] == selected;
  }

  lemma NothingDecided(project: Project)
    ensures Decided(project, [], BuildResult([], [], []))
    ensures forall n :: !FailedAbove(project, [], n)
  {
  }

  lemma NextName(successors: Adjacency, selected: seq<string>, k: nat)
    requires Distinct(selected) && Downward(successors, selected) && k < |selected|
    ensures selected[k] !in selected[..k]
    ensures forall n :: n in selected[..k] + [selected[k]] ==> !Reaches(successors, selected[k], n)
  {
    hide Reaches;
  }

  /** However a topological order is filtered, nothing reaches back. */
  lemma {:induction false} FilteredDownward(preds: Adjacency, succs: Adjacency, order: seq<string>, k: nat, keep: set<string>)
    requires IsTopological(preds, order) && Mirror(preds, succs) && k <= |order|
    ensures Downward(succs, Filtered(order[..k], keep))
  {
    if k > 0 {
      FilteredDownward(preds, succs, order, k - 1, keep);
      var init, last := order[..k - 1], order[k - 1];
      assert order[..k][..k - 1] == init;
      FilteredMembers(init, keep);
      forall n | n in init + [last]
        ensures !Reaches(succs, last, n)
      {
        if Reaches(succs, last, n) {
          MirrorReaches(succs, preds, last, n);
          assert n in order[..k];
          var i :| 0 <= i < k && order[..k][i] == n;
          TopologicalReach(preds, order, i, last);
        }
      }
      hide Reaches, IsTopological, Mirror;
      var rest := Filtered(init, keep);
      assert Filtered(order[..k], keep) == rest + if last in keep then [last] else [];
      forall n | n in rest ensures n in init + [last] {}
    }
  }

  ghost predicate AllAccepted(dag: ProjectDag, select: Option<seq<string>>, exclude: Option<seq<string>>, modified: Option<set<string>>)
    reads dag
  {
    forall t :: (select.Some? && t in select.value) || (exclude.Some? && t in exclude.value) ==> dag.Accepts(t, modified)
  }

  /** The project a graph stands for: its search indexes are among its nodes. */
  function ProjectOf(dag: ProjectDag, outcome: string -> Outcome): Project
    reads dag
  {
    Project(dag.successors, (set n | n in dag.nodes && dag.nodes[n].kind.SearchIndex?), outcome)
  }

  /** A whole build: select, then run in topological order. Nothing runs exactly when a selector
      is refused. */
  method BuildProject(dag: ProjectDag, outcome: string -> Outcome,
                      select: Option<seq<string>>, exclude: Option<seq<string>>, modified: Option<set<string>>)
    returns (selected: Option<seq<string>>, out: BuildResult)
    requires dag.Valid()
    ensures selected.Some? <==> AllAccepted(dag, select, exclude, modified)
    ensures selected.None? ==> out == BuildResult([], [], [])
    ensures selected.Some? ==> forall n :: n in selected.value <==> dag.Chosen(select, exclude, modified, n)
    ensures selected.Some? ==> Distinct(selected.value)
    ensures selected.Some? ==> selected.value == Filtered(dag.sorted, set n | n in selected.value)
    ensures selected.Some? ==> Decided(ProjectOf(dag, outcome), selected.value, out)
    ensures selected.Some? ==> RunOrSkipped(selected.value, out)
  {
    out := BuildResult([], [], []);
    selected := dag.SelectModels(select, exclude, modified);
    if selected.Some? {
      var keep := set n | n in selected.value;
      assert dag.sorted[..|dag.sorted|] == dag.sorted;
      FilteredDownward(dag.predecessors, dag.successors, dag.sorted, |dag.sorted|, keep);
      FilteredMembers(dag.sorted, keep);
      out := RunSelected(ProjectOf(dag, outcome), selected.value);
      DecidedOnce(ProjectOf(dag, outcome), selected.value, out);
    }
  }

  /** Each name ran once or was skipped once, and nothing else was. */
  ghost predicate RunOrSkipped(selected: seq<string>, out: BuildResult) {
    && Distinct(out.runs) && Distinct(out.skipped)
    && (forall n :: n in selected ==> (n in out.runs <==> n !in out.skipped))
    && (forall n :: n in out.runs || n in out.skipped ==> n in selected)
  }

  lemma DecidedOnce(project: Project, selected: seq<string>, out: BuildResult)
    requires Distinct(selected) && Decided(project, selected, out)
    ensures RunOrSkipped(selected, out)
  {
    hide Distinct;
    FilteredMembers(selected, set n | n in selected && n !in out.skipped);
    FilteredMembers(selected, set n | n in out.skipped);
  }

  /** Below a model that raised, that ran with errors, or - search models apart - whose tests failed
      hard, nothing runs; a model is skipped only below one of these; and tests run exactly for the
      models that ran without errors, search models apart. */
  lemma NoRunBelowFailure(project: Project, selected: seq<string>, out: BuildResult, m: string, n: string)
    requires Distinct(selected) && Decided(project, selected, out) && n in selected
    ensures m in out.runs && Reaches(project.successors, m, n) && project.outcome(m) == RaisedRunError ==> n !in out.runs
    ensures m in out.runs && Reaches(project.successors, m, n) && project.outcome(m).Ran? && project.outcome(m).hasErrors ==> n !in out.runs
    ensures m in out.runs && Reaches(project.successors, m, n) && m !in project.search && project.outcome(m) == Ran(false, true) ==> n !in out.runs
    ensures n in out.skipped ==> exists above :: above in selected && above in out.runs && Reaches(project.successors, above, n) && BadOutcome(project, above)
    ensures n in out.tested <==> n in out.runs && n !in project.search && project.outcome(n).Ran? && !project.outcome(n).hasErrors
  {
    DecidedOnce(project, selected, out);
    FilteredMembers(out.runs, set r | r in out.runs && project.RunsTests(r));
    hide Reaches, Filtered, Distinct;
    if n in out.skipped {
      var above :| above in out.runs && project.Fails(above) && Reaches(project.successors, above, n);
      assert BadOutcome(project, above);
    }
  }

  predicate BadOutcome(project: Project, m: string) {
    || project.outcome(m) == RaisedRunError
    || (project.outcome(m).Ran? && project.outcome(m).hasErrors)
    || (project.outcome(m) == Ran(false, true) && m !in project.search)
  }

  // ----- _run_in_batches -----

  /** Which batch is being run, what was handed to a worker, and what finished. */
  datatype RunState = RunState(current: nat, started: set<string>, finished: set<string>)

  datatype Event = Start(name: string) | Finish(name: string) | NextBatch

  const IDLE := RunState(0, {}, {})

  /** One step of the runner: the pool starts a model of the current batch when a worker is free,
      a started model finishes, or the pool is left once the whole batch finished. */
  ghost predicate Step(batches: seq<seq<string>>, threads: nat, s: RunState, e: Event, t: RunState) {
    s.current < |batches| &&
    match e
    case Start(n) =>
      && n in batches[s.current] && n !in s.started
      && |s.started - s.finished| < (if threads < |batches[s.current]| then threads else |batches[s.current]|)
      && t == s.(started := s.started + {n})
    case Finish(n) =>
      && n in s.started && n !in s.finished
      && t == s.(finished := s.finished + {n})
    case NextBatch =>
      && (forall n :: n in batches[s.current] ==> n in s.finished)
      && t == s.(current := s.current + 1)
  }

  ghost predicate IsRun(batches: seq<seq<string>>, threads: nat, states: seq<RunState>, events: seq<Event>) {
    && |states| == |events| + 1 && states[0] == IDLE
    && forall k :: 0 <= k < |events| ==> Step(batches, threads, states[k], events[k], states[k + 1])
  }

  /** Earlier batches are finished, later ones untouched, and no more models are under way than
      there are threads. */
  ghost predicate RunInv(batches: seq<seq<string>>, threads: nat, s: RunState) {
    && s.current <= |batches|
    && (forall i, n :: 0 <= i < s.current && n in batches[i] ==> n in s.finished)
    && (forall n :: n in s.started ==> exists i :: 0 <= i <= s.current && i < |batches| && n in batches[i])
    && s.finished <= s.started
    && |s.started - s.finished| <= threads
  }

  lemma StepKeepsInv(batches: seq<seq<string>>, threads: nat, s: RunState, e: Event, t: RunState)
    requires RunInv(batches, threads, s) && Step(batches, threads, s, e, t)
    ensures RunInv(batches, threads, t)
  {
    match e
    case Start(n) =>
    case Finish(n) =>
      assert t.started - t.finished == (s.started - s.finished) - {n};
    case NextBatch =>
  }

  lemma {:induction false} RunKeepsInv(batches: seq<seq<string>>, threads: nat, states: seq<RunState>, events: seq<Event>, k: nat)
    requires IsRun(batches, threads, states, events) && k < |states|
    ensures RunInv(batches, threads, states[k])
  {
    if k > 0 {
      hide RunInv, Step;
      RunKeepsInv(batches, threads, states, events, k - 1);
      StepKeepsInv(batches, threads, states[k - 1], events[k - 1], states[k]);
    }
  }

  /** In any interleaving a model starts only after its direct selected dependencies finished, and
      it starts at most once. */
  lemma StartsAfterDependencies(batches: seq<seq<string>>, g: Adjacency, threads: nat,
                                states: seq<RunState>, events: seq<Event>, k: nat)
    requires Generations(batches, g) && IsRun(batches, threads, states, events)
    requires k < |events| && events[k].Start?
    ensures Next(g, events[k].name) <= states[k].finished
    ensures events[k].name !in states[k].started
  {
    RunKeepsInv(batches, threads, states, events, k);
    var s, n := states[k], events[k].name;
    assert Step(batches, threads, s, events[k], states[k + 1]);
    forall p | p in Next(g, n)
      ensures p in s.finished
    {
      assert InBatches(batches[..s.current], p);
      var i :| 0 <= i < s.current && p in batches[..s.current][i];
      assert p in batches[i];
    }
  }

  /** A run that left the last batch has finished every model, and nothing is under way. */
  lemma CompleteRunFinishes(batches: seq<seq<string>>, g: Adjacency, threads: nat,
                            states: seq<RunState>, events: seq<Event>, k: nat)
    requires Generations(batches, g) && IsRun(batches, threads, states, events)
    requires k < |states| && states[k].current == |batches|
    ensures states[k].finished == g.Keys == states[k].started
  {
    var s := states[k];
    RunKeepsInv(batches, threads, states, events, k);
    forall n ensures n in g <==> n in s.finished {
      if n in g {
        assert InBatches(batches, n);
      }
      if n in s.finished {
        assert n in s.started;
        assert InBatches(batches, n);
      }
    }
    forall n | n in s.started ensures n in g { assert InBatches(batches, n); }
  }

  /** The runner never gets stuck: until every batch is left, some step is possible. */
  lemma RunnerProgresses(batches: seq<seq<string>>, threads: nat, states: seq<RunState>, events: seq<Event>, k: nat)
    requires threads >= 1 && (forall b :: b in batches ==> b != [])
    requires IsRun(batches, threads, states, events) && k < |states| && states[k].current < |batches|
    ensures exists e, t :: Step(batches, threads, states[k], e, t)
  {
    var s := states[k];
    RunKeepsInv(batches, threads, states, events, k);
    var batch := batches[s.current];
    if under :| under in s.started - s.finished {
      assert Step(batches, threads, s, Finish(under), s.(finished := s.finished + {under}));
    } else if n :| n in batch && n !in s.finished {
      assert s.started - s.finished == {};
      assert batch in batches;
      assert Step(batches, threads, s, Start(n), s.(started := s.started + {n}));
    } else {
      assert Step(batches, threads, s, NextBatch, s.(current := s.current + 1));
    }
  }
}
