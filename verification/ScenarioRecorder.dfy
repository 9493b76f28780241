/** Recording scenario evidence: runs, their steps, assertions and latency samples
    (crates/pengu-mesh-core/src/scenario_recorder.rs over the tables of
    crates/pengu-mesh-state/src/lib.rs). */
module ScenarioRecords {
  import opened Common
  import opened Text

  const RUNNING := "running"

  datatype Run = Run(
    id: string, name: string, family: string, version: string, surface: string, startedAt: string,
    finishedAt: Option<string>, status: string, summaryPath: Option<string>)

  datatype Step = Step(
    id: string, runId: string, ordinal: nat, name: string, kind: string, commandLine: Option<string>,
    startedAt: string, finishedAt: Option<string>, status: string, errorCode: Option<string>)

  datatype Assertion = Assertion(
    id: string, runId: string, stepId: Option<string>, name: string, expected: Option<string>,
    actual: Option<string>, status: string, failureCategory: Option<string>, notes: Option<string>)

  datatype Sample = Sample(
    id: string, runId: string, stepId: Option<string>, metric: string, ms: Float, captureMethod: Option<string>)

  /** The four tables, by primary key. */
  datatype Store = Store(
    runs: map<string, Run>, steps: map<string, Step>, assertions: map<string, Assertion>, samples: map<string, Sample>)

  datatype RecorderError =
    | Blank(what: string) | UnknownRun | RunFinished | UnknownStep | WrongRun | StepFinished | ActiveSteps
    | NegativeSample | DuplicateId

  /** The calls that write. `id` is the freshly generated key, `now` the clock reading. */
  datatype Call =
    | StartRun(id: string, name: string, family: string, version: string, surface: string, now: string)
    | AddStep(id: string, runId: string, name: string, kind: string, commandLine: Option<string>, now: string)
    | AddAssertion(id: string, runId: string, stepId: Option<string>, name: string, expected: Option<string>,
                   actual: Option<string>, status: string, failureCategory: Option<string>, notes: Option<string>)
    | AddSample(id: string, runId: string, stepId: Option<string>, metric: string, ms: Float,
      captureMethod: Option<string>)
    | FinishStep(step: string, status: string, errorCode: Option<string>, now: string)
    | FinishRun(run: string, status: string, summaryPath: Option<string>, now: string)

  predicate RunActive(run: Run) {
    run.finishedAt.None? && run.status == RUNNING
  }

  predicate StepActive(step: Step) {
    step.finishedAt.None? && step.status == RUNNING
  }

  predicate IsBlank(s: string) {
    Trim(s) == ""
  }

  /** Trimmed, with blank text taken for no text. */
  function Tidy(s: Option<string>): Option<string> {
    if s.None? || IsBlank(s.value) then None else Some(Trim(s.value))
  }

  function TrimOption(s: Option<string>): Option<string> {
    if s.None? then None else Some(Trim(s.value))
  }

  function OrElse<T>(a: Option<T>, b: Option<T>): Option<T> {
    if a.Some? then a else b
  }

  // ----- the guards

  function EnsureRunActive(store: Store, runId: string): Option<RecorderError> {
    if runId !in store.runs then Some(UnknownRun)
    else if !RunActive(store.runs[runId]) then Some(RunFinished)
    else None
  }

  function EnsureStep(store: Store, stepId: Option<string>, runId: string): Option<RecorderError> {
    if stepId.None? then None
    else if stepId.value !in store.steps then Some(UnknownStep)
    else if store.steps[stepId.value].runId != runId then Some(WrongRun)
    else if !StepActive(store.steps[stepId.value]) then Some(StepFinished)
    else None
  }

  /** What stops a call before it writes. */
  function Check(store: Store, call: Call): Option<RecorderError> {
    match call
    case StartRun(id, name, family, version, surface, now) =>
      if IsBlank(name) then Some(Blank("scenario name"))
      else if IsBlank(family) then Some(Blank("scenario family"))
      else if IsBlank(version) then Some(Blank("scenario version"))
      else if IsBlank(surface) then Some(Blank("tool surface"))
      else None
    case AddStep(id, runId, name, kind, commandLine, now) =>
      if IsBlank(runId) then Some(Blank("run id"))
      else if IsBlank(name) then Some(Blank("step name"))
      else if IsBlank(kind) then Some(Blank("step kind"))
      else EnsureRunActive(store, runId)
    case AddAssertion(id, runId, stepId, name, expected, actual, status, failureCategory, notes) =>
      if IsBlank(runId) then Some(Blank("run id"))
      else if IsBlank(name) then Some(Blank("assertion name"))
      else if IsBlank(status) then Some(Blank("assertion status"))
      else OrElse(EnsureRunActive(store, runId), EnsureStep(store, stepId, runId))
    case AddSample(id, runId, stepId, metric, ms, captureMethod) =>
      if IsBlank(runId) then Some(Blank("run id"))
      else if IsBlank(metric) then Some(Blank("metric name"))
      else if !NonNegative(ms) then Some(NegativeSample)
      else OrElse(EnsureRunActive(store, runId), EnsureStep(store, stepId, runId))
    case FinishStep(stepId, status, errorCode, now) =>
      if IsBlank(stepId) then Some(Blank("step id"))
      else if IsBlank(status) then Some(Blank("step status"))
      else if stepId !in store.steps then Some(UnknownStep)
      else if !StepActive(store.steps[stepId]) then Some(StepFinished)
      else None
    case FinishRun(runId, status, summaryPath, now) =>
      if IsBlank(runId) then Some(Blank("run id"))
      else if IsBlank(status) then Some(Blank("run status"))
      else if runId !in store.runs then Some(UnknownRun)
      else if !RunActive(store.runs[runId]) then Some(RunFinished)
      else if exists s :: s in store.steps && store.steps[s].runId == runId && store.steps[s].finishedAt.None? then
        Some(ActiveSteps)
      else None
  }

  /** `sample_ms >= 0.0`, false for a NaN and true for an infinity. */
  predicate NonNegative(ms: Float) {
    ms.Infinity? || (ms.Finite? && ms.value >= 0.0)
  }

  // ----- the writes

  /** `MAX(ordinal) + 1` over the steps of the run. */
  function NextOrdinal(steps: map<string, Step>, runId: string): (n: nat)
    ensures n > 0
    ensures forall s | s in steps && steps[s].runId == runId :: steps[s].ordinal < n
    ensures n == 1 || exists s :: s in steps && steps[s].runId == runId && steps[s].ordinal == n - 1
  {
    var ordinals := set s | s in steps && steps[s].runId == runId :: steps[s].ordinal;
    assert forall s | s in steps && steps[s].runId == runId :: steps[s].ordinal in ordinals;
    1 + MaxOf(ordinals)
  }

  function MaxOf(ns: set<nat>): (m: nat)
    ensures forall n | n in ns :: n <= m
    ensures m in ns || (ns == {} && m == 0)
  {
    if ns == {} then 0 else GreatestExists(ns); var m :| m in ns && forall n | n in ns :: n <= m; m
  }

  lemma {:induction false} GreatestExists(ns: set<nat>)
    requires ns != {}
    ensures exists m :: m in ns && forall n | n in ns :: n <= m
  {
    var x :| x in ns;
    var rest := ns - {x};
    if rest == {} {
      assert ns == {x};
    } else {
      GreatestExists(rest);
      var m :| m in rest && forall n | n in rest :: n <= m;
      var best := if m < x then x else m;
      assert best in ns && forall n | n in ns :: n == x || n in rest;
    }
  }

  /** The row that finishing a step writes, given the row it read. */
  function FinishedStep(step: Step, status: string, errorCode: Option<string>, now: string): Step {
    step.(finishedAt := Some(now), status := Trim(status), errorCode := OrElse(Tidy(errorCode), step.errorCode))
  }

  function FinishedRun(run: Run, status: string, summaryPath: Option<string>, now: string): Run {
    run.(finishedAt := Some(now), status := Trim(status), summaryPath := OrElse(Tidy(summaryPath), run.summaryPath))
  }

  function Write(store: Store, call: Call): Result<Store, RecorderError> {
    match call
    case StartRun(id, name, family, version, surface, now) =>
      if id in store.runs then Err(DuplicateId)
      else
        var run := Run(id, Trim(name), Trim(family), Trim(version), Trim(surface), now, None, RUNNING, None);
        Ok(store.(runs := store.runs[id := run]))
    case AddStep(id, runId, name, kind, commandLine, now) =>
      if id in store.steps then Err(DuplicateId)
      else
        var step := Step(id, Trim(runId), NextOrdinal(store.steps, Trim(runId)), Trim(name), Trim(kind),
                         Tidy(commandLine), now, None, RUNNING, None);
        Ok(store.(steps := store.steps[id := step]))
    case AddAssertion(id, runId, stepId, name, expected, actual, status, failureCategory, notes) =>
      if id in store.assertions then Err(DuplicateId)
      else
        var assertion := Assertion(id, Trim(runId), TrimOption(stepId), Trim(name), Tidy(expected), Tidy(actual),
                                   Trim(status), Tidy(failureCategory), Tidy(notes));
        Ok(store.(assertions := store.assertions[id := assertion]))
    case AddSample(id, runId, stepId, metric, ms, captureMethod) =>
      if id in store.samples then Err(DuplicateId)
      else
        var sample := Sample(id, Trim(runId), TrimOption(stepId), Trim(metric), ms, Tidy(captureMethod));
        Ok(store.(samples := store.samples[id := sample]))
    case FinishStep(stepId, status, errorCode, now) =>
      if stepId !in store.steps then Err(UnknownStep)
      else
        Ok(store.(steps := store.steps[stepId := FinishedStep(store.steps[stepId], status, errorCode, now)]))
    case FinishRun(runId, status, summaryPath, now) =>
      if runId !in store.runs then Err(UnknownRun)
      else
        Ok(store.(runs := store.runs[runId := FinishedRun(store.runs[runId], status, summaryPath, now)]))
  }

  /** One call, guards and write together. */
  function Apply(store: Store, call: Call): Result<Store, RecorderError> {
    match Check(store, call)
    case Some(error) => Err(error)
    case None => Write(store, call)
  }

  // ----- what a record holds, field by field

  /** Text that was given, trimmed; text that is missing or blank is no text. */
  predicate IsTidied(text: Option<string>, given: Option<string>) {
    if given.Some? && Trim(given.value) != "" then text == Some(Trim(given.value)) else text.None?
  }

  lemma TidyTidies(given: Option<string>)
    ensures IsTidied(Tidy(given), given)
  {
  }

  predicate HoldsRun(run: Run, call: Call) {
    && call.StartRun? && run.id == call.id
    && run.name == Trim(call.name) && run.family == Trim(call.family)
    && run.version == Trim(call.version) && run.surface == Trim(call.surface)
    && run.startedAt == call.now && run.finishedAt.None? && run.status == "running" && run.summaryPath.None?
  }

  predicate HoldsStep(step: Step, call: Call) {
    && call.AddStep? && step.id == call.id && step.runId == Trim(call.runId)
    && step.name == Trim(call.name) && step.kind == Trim(call.kind) && IsTidied(step.commandLine, call.commandLine)
    && step.startedAt == call.now && step.finishedAt.None? && step.status == "running" && step.errorCode.None?
  }

  predicate HoldsAssertion(x: Assertion, call: Call) {
    && call.AddAssertion? && x.id == call.id && x.runId == Trim(call.runId)
    && (if call.stepId.Some? then x.stepId == Some(Trim(call.stepId.value)) else x.stepId.None?)
    && x.name == Trim(call.name) && x.status == Trim(call.status)
    && IsTidied(x.expected, call.expected) && IsTidied(x.actual, call.actual)
    && IsTidied(x.failureCategory, call.failureCategory) && IsTidied(x.notes, call.notes)
  }

  predicate HoldsSample(x: Sample, call: Call) {
    && call.AddSample? && x.id == call.id && x.runId == Trim(call.runId)
    && (if call.stepId.Some? then x.stepId == Some(Trim(call.stepId.value)) else x.stepId.None?)
    && x.metric == Trim(call.metric) && x.ms == call.ms && IsTidied(x.captureMethod, call.captureMethod)
  }

  /** `after` is `before`, finished: only stamp, status and, if there is one, the error code are new. */
  predicate ClosesStep(before: Step, after: Step, status: string, errorCode: Option<string>, now: string) {
    && after.id == before.id && after.runId == before.runId && after.ordinal == before.ordinal
    && after.name == before.name && after.kind == before.kind && after.commandLine == before.commandLine
    && after.startedAt == before.startedAt && after.finishedAt == Some(now) && after.status == Trim(status)
    && (if errorCode.Some? && Trim(errorCode.value) != "" then after.errorCode == Some(Trim(errorCode.value))
        else after.errorCode == before.errorCode)
  }

  predicate ClosesRun(before: Run, after: Run, status: string, summaryPath: Option<string>, now: string) {
    && after.id == before.id && after.name == before.name && after.family == before.family
    && after.version == before.version && after.surface == before.surface
    && after.startedAt == before.startedAt && after.finishedAt == Some(now) && after.status == Trim(status)
    && (if summaryPath.Some? && Trim(summaryPath.value) != "" then after.summaryPath == Some(Trim(summaryPath.value))
        else after.summaryPath == before.summaryPath)
  }

  /** The store after a sequence of calls; calls that fail leave it as it is. */
  function After(store: Store, calls: seq<Call>): Store
    decreases |calls|
  {
    if calls == [] then store
    else
      var n := |calls| - 1;
      var before := After(store, calls[..n]);
      match Apply(before, calls[n])
      case Err(error) => before
      case Ok(after) => after
  }

  // ----- the invariant

  /** Generated keys consist of letters, digits and underscores; what matters is that trimming
      leaves them alone. */
  predicate IsKey(id: string) {
    Trim(id) == id
  }

  predicate FreshKey(call: Call) {
    match call
    case FinishStep(stepId, status, errorCode, now) => true
    case FinishRun(runId, status, summaryPath, now) => true
    case _ => IsKey(call.id)
  }

  /** A record names an existing run, and a step of that very run if it names one. */
  ghost predicate Anchored(store: Store, runId: string, stepId: Option<string>) {
    && runId in store.runs
    && (stepId.Some? ==> stepId.value in store.steps && store.steps[stepId.value].runId == runId)
  }

  ghost predicate Invariant(store: Store) {
    && KeysAreClean(store) && RowsHaveTheirKeys(store)
    && RunsAndStepsAgree(store)
    && NoStrayStep(store)
    && OrdinalsDiffer(store)
    && RecordsAreAnchored(store)
  }

  ghost predicate RunsAndStepsAgree(store: Store) {
    && (forall r | r in store.runs :: store.runs[r].finishedAt.None? ==> RunActive(store.runs[r]))
    && (forall s | s in store.steps :: store.steps[s].runId in store.runs && IsKey(s))
  }

  ghost predicate OrdinalsDiffer(store: Store) {
    forall s, t | s in store.steps && t in store.steps && s != t && store.steps[s].runId == store.steps[t].runId ::
      store.steps[s].ordinal != store.steps[t].ordinal
  }

  ghost predicate RecordsAreAnchored(store: Store) {
    && (forall a | a in store.assertions :: Anchored(store, store.assertions[a].runId, store.assertions[a].stepId))
    && (forall a | a in store.samples :: Anchored(store, store.samples[a].runId, store.samples[a].stepId))
  }

  /** An unfinished step is active, and so is its run. */
  ghost predicate NoStrayStep(store: Store) {
    forall s | s in store.steps && store.steps[s].finishedAt.None? ::
      StepActive(store.steps[s]) && store.steps[s].runId in store.runs && RunActive(store.runs[store.steps[s].runId])
  }

  /** Every call keeps the invariant. */
  lemma ApplyKeepsInvariant(store: Store, call: Call)
    requires Invariant(store) && FreshKey(call) && Apply(store, call).Ok?
    ensures Invariant(Apply(store, call).value)
  {
    hide Invariant, Apply;
    match call
    case StartRun(_, _, _, _, _, _) => StartRunKeepsInvariant(store, call);
    case AddStep(_, _, _, _, _, _) => AddStepKeepsInvariant(store, call);
    case AddAssertion(_, _, _, _, _, _, _, _, _) => AddAssertionKeepsInvariant(store, call);
    case AddSample(_, _, _, _, _, _) => AddSampleKeepsInvariant(store, call);
    case FinishStep(_, _, _, _) => FinishStepKeepsInvariant(store, call);
    case FinishRun(_, _, _, _) => FinishRunKeepsInvariant(store, call);
  }

  lemma StartRunKeepsInvariant(store: Store, call: Call)
    requires Invariant(store) && FreshKey(call) && call.StartRun? && Apply(store, call).Ok?
    ensures Invariant(Apply(store, call).value)
  {
    hide Trim, IsBlank, Tidy, NonNegative;
  }

  lemma AddStepKeepsInvariant(store: Store, call: Call)
    requires Invariant(store) && FreshKey(call) && call.AddStep? && Apply(store, call).Ok?
    ensures Invariant(Apply(store, call).value)
  {
    hide Trim, Invariant, Write;
    WriteStepKeepsInvariant(store, call);
  }

  lemma AddAssertionKeepsInvariant(store: Store, call: Call)
    requires Invariant(store) && FreshKey(call) && call.AddAssertion? && Apply(store, call).Ok?
    ensures Invariant(Apply(store, call).value)
  {
    hide Trim, IsBlank, Tidy, NonNegative;
  }

  lemma AddSampleKeepsInvariant(store: Store, call: Call)
    requires Invariant(store) && FreshKey(call) && call.AddSample? && Apply(store, call).Ok?
    ensures Invariant(Apply(store, call).value)
  {
    hide Trim, IsBlank, Tidy, NonNegative;
  }

  lemma FinishStepKeepsInvariant(store: Store, call: Call)
    requires Invariant(store) && FreshKey(call) && call.FinishStep? && Apply(store, call).Ok?
    ensures Invariant(Apply(store, call).value)
  {
    FinishStepWrites(store, call);
    var step := FinishedStep(store.steps[call.step], call.status, call.errorCode, call.now);
    assert store.steps[call.step].id == call.step;
    ClosedStepKeepsInvariant(store, step);
  }

  /** An update that finishes a step and leaves its run and ordinal alone. */
  lemma ClosedStepKeepsInvariant(store: Store, step: Step)
    requires Invariant(store) && step.id in store.steps && step.finishedAt.Some?
    requires step.runId == store.steps[step.id].runId && step.ordinal == store.steps[step.id].ordinal
    ensures Invariant(store.(steps := store.steps[step.id := step]))
  {
    hide IsKey;
    var after := store.(steps := store.steps[step.id := step]);
    assert forall s | s in store.steps && s != step.id :: after.steps[s] == store.steps[s];
    ClosedStepKeepsOrdinals(store, step);
    ClosedStepKeepsAnchors(store, step);
    hide OrdinalsDiffer, RecordsAreAnchored;
  }

  lemma ClosedStepKeepsOrdinals(store: Store, step: Step)
    requires OrdinalsDiffer(store) && step.id in store.steps
    requires step.runId == store.steps[step.id].runId && step.ordinal == store.steps[step.id].ordinal
    ensures OrdinalsDiffer(store.(steps := store.steps[step.id := step]))
  {
  }

  lemma ClosedStepKeepsAnchors(store: Store, step: Step)
    requires RecordsAreAnchored(store) && step.id in store.steps && step.runId == store.steps[step.id].runId
    ensures RecordsAreAnchored(store.(steps := store.steps[step.id := step]))
  {
  }

  lemma FinishRunKeepsInvariant(store: Store, call: Call)
    requires Invariant(store) && FreshKey(call) && call.FinishRun? && Apply(store, call).Ok?
    ensures Invariant(Apply(store, call).value)
  {
    hide Trim, IsBlank, Tidy, NonNegative;
  }

  lemma {:induction false} CallsKeepInvariant(store: Store, calls: seq<Call>)
    requires Invariant(store) && forall c :: c in calls ==> FreshKey(c)
    ensures Invariant(After(store, calls))
  {
    if calls == [] {
    } else {
      var n := |calls| - 1;
      assert forall c :: c in calls[..n] ==> c in calls;
      CallsKeepInvariant(store, calls[..n]);
      if Apply(After(store, calls[..n]), calls[n]).Ok? {
        ApplyKeepsInvariant(After(store, calls[..n]), calls[n]);
      }
    }
  }

  // ----- what a finished run keeps

  ghost function StepsOf(steps: map<string, Step>, r: string): map<string, Step> {
    map k | k in steps && steps[k].runId == r :: steps[k]
  }

  ghost function AssertionsOf(assertions: map<string, Assertion>, r: string): map<string, Assertion> {
    map k | k in assertions && assertions[k].runId == r :: assertions[k]
  }

  ghost function SamplesOf(samples: map<string, Sample>, r: string): map<string, Sample> {
    map k | k in samples && samples[k].runId == r :: samples[k]
  }

  /** Everything stored about a run: its record, its steps, its assertions and its samples. */
  ghost function Evidence(store: Store, r: string)
    : (Run, map<string, Step>, map<string, Assertion>, map<string, Sample>)
    requires r in store.runs
  {
    (store.runs[r], StepsOf(store.steps, r), AssertionsOf(store.assertions, r), SamplesOf(store.samples, r))
  }

  ghost predicate IsActiveIn(store: Store, r: string) {
    r in store.runs && RunActive(store.runs[r])
  }

  ghost predicate KeysAreClean(store: Store) {
    forall r | r in store.runs :: IsKey(r)
  }

  ghost predicate RowsHaveTheirKeys(store: Store) {
    (forall r | r in store.runs :: store.runs[r].id == r) && (forall s | s in store.steps :: store.steps[s].id == s)
  }

  // Rows are only ever added, and only to active runs; a stored row changes only while active.

  lemma OnlyActiveRunsChange(store: Store, call: Call, k: string)
    requires Apply(store, call).Ok? && k in store.runs
    ensures var after := Apply(store, call).value;
      k in after.runs && (after.runs[k] == store.runs[k] || RunActive(store.runs[k]))
  {
    hide Trim, IsBlank, Tidy, NonNegative;
  }

  lemma OnlyActiveStepsChange(store: Store, call: Call, k: string)
    requires Apply(store, call).Ok? && KeysAreClean(store)
    ensures var after := Apply(store, call).value.steps;
      && (k in store.steps ==>
            k in after && after[k].runId == store.steps[k].runId
            && (after[k] == store.steps[k] || StepActive(store.steps[k])))
      && (k in after && k !in store.steps ==> IsActiveIn(store, after[k].runId))
  {
    hide Trim, IsBlank, Tidy, NonNegative;
  }

  lemma AssertionsAreOnlyAdded(store: Store, call: Call, k: string)
    requires Apply(store, call).Ok? && KeysAreClean(store)
    ensures var after := Apply(store, call).value.assertions;
      && (k in store.assertions ==> k in after && after[k] == store.assertions[k])
      && (k in after && k !in store.assertions ==> IsActiveIn(store, after[k].runId))
  {
    hide Trim, IsBlank, Tidy, NonNegative;
  }

  lemma SamplesAreOnlyAdded(store: Store, call: Call, k: string)
    requires Apply(store, call).Ok? && KeysAreClean(store)
    ensures var after := Apply(store, call).value.samples;
      && (k in store.samples ==> k in after && after[k] == store.samples[k])
      && (k in after && k !in store.samples ==> IsActiveIn(store, after[k].runId))
  {
    hide Trim, IsBlank, Tidy, NonNegative;
  }

  /** A call changes no evidence of a run that is not active. */
  lemma InactiveEvidenceIsKept(store: Store, call: Call, r: string)
    requires Apply(store, call).Ok? && KeysAreClean(store) && NoStrayStep(store)
    requires r in store.runs && !RunActive(store.runs[r])
    ensures r in Apply(store, call).value.runs
    ensures Evidence(Apply(store, call).value, r) == Evidence(store, r)
  {
    hide Apply;
    var after := Apply(store, call).value;
    OnlyActiveRunsChange(store, call, r);
    forall k ensures k in StepsOf(after.steps, r) <==> k in StepsOf(store.steps, r)
      ensures k in StepsOf(store.steps, r) ==> after.steps[k] == store.steps[k]
    {
      OnlyActiveStepsChange(store, call, k);
    }
    assert StepsOf(after.steps, r) == StepsOf(store.steps, r);
    forall k ensures k in AssertionsOf(after.assertions, r) <==> k in AssertionsOf(store.assertions, r)
      ensures k in AssertionsOf(store.assertions, r) ==> after.assertions[k] == store.assertions[k]
    {
      AssertionsAreOnlyAdded(store, call, k);
    }
    assert AssertionsOf(after.assertions, r) == AssertionsOf(store.assertions, r);
    forall k ensures k in SamplesOf(after.samples, r) <==> k in SamplesOf(store.samples, r)
      ensures k in SamplesOf(store.samples, r) ==> after.samples[k] == store.samples[k]
    {
      SamplesAreOnlyAdded(store, call, k);
    }
    assert SamplesOf(after.samples, r) == SamplesOf(store.samples, r);
  }

  /** Once a run is finished, no sequence of calls ever changes its record, its steps, its
      assertions or its samples, and none of its steps is active. */
  lemma {:induction false} FinishedRunStaysFrozen(store: Store, calls: seq<Call>, r: string)
    requires Invariant(store) && forall c :: c in calls ==> FreshKey(c)
    requires r in store.runs && store.runs[r].finishedAt.Some?
    ensures r in After(store, calls).runs
    ensures Evidence(After(store, calls), r) == Evidence(store, r)
    ensures forall s | s in Evidence(store, r).1 :: Evidence(store, r).1[s].finishedAt.Some?
  {
    hide Apply, Evidence;
    assert forall s | s in Evidence(store, r).1 :: Evidence(store, r).1[s].finishedAt.Some? by {
      StepsOfFinished(store, r);
    }
    if calls == [] {
    } else {
      var n := |calls| - 1;
      assert forall c :: c in calls[..n] ==> c in calls;
      FinishedRunStaysFrozen(store, calls[..n], r);
      CallsKeepInvariant(store, calls[..n]);
      var before := After(store, calls[..n]);
      SameRecord(before, store, r);
      if Apply(before, calls[n]).Ok? {
        InactiveEvidenceIsKept(before, calls[n], r);
      }
    }
  }

  lemma StepsOfFinished(store: Store, r: string)
    requires Invariant(store) && r in store.runs && store.runs[r].finishedAt.Some?
    ensures forall s | s in Evidence(store, r).1 :: Evidence(store, r).1[s].finishedAt.Some?
  {
  }

  lemma SameRecord(s: Store, t: Store, r: string)
    requires r in s.runs && r in t.runs && Evidence(s, r) == Evidence(t, r)
    ensures s.runs[r] == t.runs[r]
  {
  }

  /** At the moment of recording, the run was active, and so was the step, which was the run's own. */
  ghost predicate RecordedWhileActive(store: Store, runId: string, stepId: Option<string>) {
    && runId in store.runs && RunActive(store.runs[runId])
    && (stepId.Some? ==>
        && stepId.value in store.steps
        && store.steps[stepId.value].runId == runId && StepActive(store.steps[stepId.value]))
  }

  /** An assertion that a call adds is recorded under an active run and, if it names one, an active
      step of that run, both named exactly as stored. */
  lemma NewAssertionIsAnchored(store: Store, call: Call, a: string)
    requires Invariant(store) && FreshKey(call) && Apply(store, call).Ok?
    requires a in Apply(store, call).value.assertions && a !in store.assertions
    ensures var x := Apply(store, call).value.assertions[a];
      HoldsAssertion(x, call) && RecordedWhileActive(store, x.runId, x.stepId)
  {
    hide Trim, NonNegative;
  }

  lemma NewSampleIsAnchored(store: Store, call: Call, a: string)
    requires Invariant(store) && FreshKey(call) && Apply(store, call).Ok?
    requires a in Apply(store, call).value.samples && a !in store.samples
    ensures var x := Apply(store, call).value.samples[a];
      HoldsSample(x, call) && RecordedWhileActive(store, x.runId, x.stepId) && NonNegative(x.ms)
  {
    hide Trim, NonNegative;
  }

  /** Hence every assertion in the store after any sequence of calls was recorded by one of them,
      while its run and its step were active, and is unchanged since. */
  lemma {:induction false} EveryAssertionWasAnchored(store: Store, calls: seq<Call>, a: string)
    requires Invariant(store) && forall c :: c in calls ==> FreshKey(c)
    requires a !in store.assertions && a in After(store, calls).assertions
    ensures exists i :: 0 <= i < |calls| && RecordedBy(store, calls, i, a)
  {
    hide Apply, RecordedWhileActive, HoldsAssertion, Invariant;
    var n := |calls| - 1;
    var before := After(store, calls[..n]);
    assert forall c :: c in calls[..n] ==> c in calls;
    CallsKeepInvariant(store, calls[..n]);
    assert calls[n] in calls;
    if a in before.assertions {
      EveryAssertionWasAnchored(store, calls[..n], a);
      var i :| 0 <= i < n && RecordedBy(store, calls[..n], i, a);
      assert calls[..n][..i] == calls[..i];
      if Apply(before, calls[n]).Ok? {
        InvariantKeys(before);
        AssertionsAreOnlyAdded(before, calls[n], a);
      }
      assert RecordedBy(store, calls, i, a);
    } else {
      NewAssertionIsAnchored(before, calls[n], a);
      assert RecordedBy(store, calls, n, a);
    }
  }

  lemma InvariantKeys(store: Store)
    requires Invariant(store)
    ensures KeysAreClean(store) && RowsHaveTheirKeys(store) && NoStrayStep(store)
  {
  }

  ghost predicate RecordedBy(store: Store, calls: seq<Call>, i: int, a: string) {
    && 0 <= i < |calls|
    && a !in After(store, calls[..i]).assertions && Apply(After(store, calls[..i]), calls[i]).Ok?
    && a in Apply(After(store, calls[..i]), calls[i]).value.assertions
    && a in After(store, calls).assertions
    && After(store, calls).assertions[a] == Apply(After(store, calls[..i]), calls[i]).value.assertions[a]
    && var x := After(store, calls).assertions[a];
       HoldsAssertion(x, calls[i]) && RecordedWhileActive(After(store, calls[..i]), x.runId, x.stepId)
  }

  /** The same for samples, none of which is negative. */
  lemma {:induction false} EverySampleWasAnchored(store: Store, calls: seq<Call>, a: string)
    requires Invariant(store) && forall c :: c in calls ==> FreshKey(c)
    requires a !in store.samples && a in After(store, calls).samples
    ensures exists i :: 0 <= i < |calls| && SampledBy(store, calls, i, a)
  {
    hide Apply, RecordedWhileActive, HoldsSample, Invariant, NonNegative;
    var n := |calls| - 1;
    var before := After(store, calls[..n]);
    assert forall c :: c in calls[..n] ==> c in calls;
    CallsKeepInvariant(store, calls[..n]);
    assert calls[n] in calls;
    if a in before.samples {
      EverySampleWasAnchored(store, calls[..n], a);
      var i :| 0 <= i < n && SampledBy(store, calls[..n], i, a);
      assert calls[..n][..i] == calls[..i];
      if Apply(before, calls[n]).Ok? {
        InvariantKeys(before);
        SamplesAreOnlyAdded(before, calls[n], a);
      }
      assert SampledBy(store, calls, i, a);
    } else {
      NewSampleIsAnchored(before, calls[n], a);
      assert SampledBy(store, calls, n, a);
    }
  }

  ghost predicate SampledBy(store: Store, calls: seq<Call>, i: int, a: string) {
    && 0 <= i < |calls|
    && a !in After(store, calls[..i]).samples && Apply(After(store, calls[..i]), calls[i]).Ok?
    && a in Apply(After(store, calls[..i]), calls[i]).value.samples
    && a in After(store, calls).samples
    && After(store, calls).samples[a] == Apply(After(store, calls[..i]), calls[i]).value.samples[a]
    && var x := After(store, calls).samples[a];
       && HoldsSample(x, calls[i])
       && RecordedWhileActive(After(store, calls[..i]), x.runId, x.stepId) && NonNegative(x.ms)
  }

  // ----- guards and writes that are not one transaction

  /** The guards and the write of a call are separate store operations. If a run has no unfinished
      step, its finish can slip in between the two halves of adding a step. */
  lemma FinishCanSlipIn(store: Store, add: Call, finish: Call)
    requires Invariant(store) && FreshKey(add) && add.AddStep? && add.id !in store.steps && Check(store, add).None?
    requires finish.FinishRun? && finish.run == add.runId && Apply(store, finish).Ok?
    ensures var finished := Apply(store, finish).value;
      && Write(finished, add).Ok?
      && !NoStrayStep(Write(finished, add).value)
  {
    hide Trim, IsBlank, Tidy, NonNegative;
    var late := Write(Apply(store, finish).value, add).value;
    assert late.steps[add.id].runId == add.runId;
  }

  /** A late write of a step is harmless exactly if its run is still active when it is made. */
  lemma LateStepIsSafeExactly(store: Store, add: Call)
    requires Invariant(store) && FreshKey(add) && add.AddStep? && add.runId in store.runs && Write(store, add).Ok?
    ensures Invariant(Write(store, add).value) <==> RunActive(store.runs[add.runId])
  {
    hide Trim, Tidy;
    var late := Write(store, add).value;
    assert late.steps[add.id].runId == add.runId && late.runs == store.runs;
    if RunActive(store.runs[add.runId]) {
      WriteStepKeepsInvariant(store, add);
    }
  }

  lemma WriteStepKeepsInvariant(store: Store, add: Call)
    requires Invariant(store) && FreshKey(add) && add.AddStep? && add.runId in store.runs
    requires RunActive(store.runs[add.runId]) && Write(store, add).Ok?
    ensures Invariant(Write(store, add).value)
  {
    hide Write, KeysAreClean, RowsHaveTheirKeys, RunsAndStepsAgree, NoStrayStep, OrdinalsDiffer, RecordsAreAnchored;
    WriteStepKeepsRows(store, add);
    WriteStepKeepsOrdinals(store, add);
    WriteStepKeepsAnchors(store, add);
  }

  lemma WriteStepKeepsRows(store: Store, add: Call)
    requires KeysAreClean(store) && RowsHaveTheirKeys(store) && RunsAndStepsAgree(store) && NoStrayStep(store)
    requires FreshKey(add) && add.AddStep? && add.runId in store.runs
    requires RunActive(store.runs[add.runId]) && Write(store, add).Ok?
    ensures var after := Write(store, add).value;
      KeysAreClean(after) && RowsHaveTheirKeys(after) && RunsAndStepsAgree(after) && NoStrayStep(after)
  {
    hide Trim, Tidy, NextOrdinal;
  }

  lemma WriteStepKeepsOrdinals(store: Store, add: Call)
    requires OrdinalsDiffer(store) && add.AddStep? && Write(store, add).Ok?
    ensures OrdinalsDiffer(Write(store, add).value)
  {
    hide Trim, Tidy;
  }

  lemma WriteStepKeepsAnchors(store: Store, add: Call)
    requires RecordsAreAnchored(store) && add.AddStep? && Write(store, add).Ok?
    ensures RecordsAreAnchored(Write(store, add).value)
  {
    hide Trim, Tidy, NextOrdinal;
  }

  ghost predicate Finished(store: Store, r: string) {
    r in store.runs && store.runs[r].finishedAt.Some?
  }

  /** A write whose guards were passed at some earlier time: the insertion of a call that adds a row,
      or a whole row that a finish has prepared from the one it read. */
  datatype LateWrite = Insert(call: Call) | UpdateStep(step: Step) | UpdateRun(run: Run)

  predicate Adds(call: Call) {
    !call.FinishStep? && !call.FinishRun?
  }

  /** An update replaces every column of its row, and does nothing if there is none. */
  function WriteLate(store: Store, late: LateWrite): Result<Store, RecorderError> {
    match late
    case Insert(call) => Write(store, call)
    case UpdateStep(step) => Ok(if step.id in store.steps then store.(steps := store.steps[step.id := step]) else store)
    case UpdateRun(run) => Ok(if run.id in store.runs then store.(runs := store.runs[run.id := run]) else store)
  }

  /** The write adds no row to a finished run, and an update changes no row of one. */
  ghost predicate Harmless(store: Store, late: LateWrite) {
    match late
    case Insert(StartRun(_, _, _, _, _, _)) => true
    case Insert(AddStep(_, runId, _, _, _, _)) => !Finished(store, Trim(runId))
    case Insert(AddAssertion(_, runId, _, _, _, _, _, _, _)) => !Finished(store, Trim(runId))
    case Insert(AddSample(_, runId, _, _, _, _)) => !Finished(store, Trim(runId))
    case UpdateStep(step) =>
      step.id in store.steps && (Finished(store, store.steps[step.id].runId) || Finished(store, step.runId)) ==>
        store.steps[step.id] == step
    case UpdateRun(run) => Finished(store, run.id) ==> store.runs[run.id] == run
    case _ => false
  }

  ghost predicate KeepsFinishedRuns(before: Store, after: Store) {
    forall r | Finished(before, r) :: r in after.runs && Evidence(after, r) == Evidence(before, r)
  }

  /** The guards are what keeps finished runs frozen: a write made after its guards have become stale
      leaves the evidence of every finished run alone exactly if it is harmless by itself. */
  lemma LateWriteIsHarmlessExactly(store: Store, late: LateWrite)
    requires late.Insert? ==> Adds(late.call)
    requires WriteLate(store, late).Ok?
    ensures KeepsFinishedRuns(store, WriteLate(store, late).value) <==> Harmless(store, late)
  {
    hide KeepsFinishedRuns, Harmless, WriteLate;
    match late
    case Insert(StartRun(_, _, _, _, _, _)) => LateStart(store, late);
    case Insert(AddStep(_, _, _, _, _, _)) => LateStep(store, late);
    case Insert(AddAssertion(_, _, _, _, _, _, _, _, _)) => LateAssertion(store, late);
    case Insert(AddSample(_, _, _, _, _, _)) => LateSample(store, late);
    case UpdateStep(_) => LateStepUpdate(store, late);
    case UpdateRun(_) => LateRunUpdate(store, late);
  }

  /** For the two finishes: the row prepared from the one the guard read must be the stored one. */
  lemma LateFinishIsHarmlessExactly(store: Store, step: Step, run: Run, status: string, text: Option<string>,
                                    now: string)
    requires step.id in store.steps && store.steps[step.id].runId == step.runId
    ensures KeepsFinishedRuns(store, WriteLate(store, UpdateStep(FinishedStep(step, status, text, now))).value)
      <==> (Finished(store, step.runId) ==> store.steps[step.id] == FinishedStep(step, status, text, now))
    ensures KeepsFinishedRuns(store, WriteLate(store, UpdateRun(FinishedRun(run, status, text, now))).value)
      <==> (Finished(store, run.id) ==> store.runs[run.id] == FinishedRun(run, status, text, now))
  {
    hide KeepsFinishedRuns, Trim, Tidy;
    LateWriteIsHarmlessExactly(store, UpdateStep(FinishedStep(step, status, text, now)));
    LateWriteIsHarmlessExactly(store, UpdateRun(FinishedRun(run, status, text, now)));
  }

  lemma LateStart(store: Store, late: LateWrite)
    requires late.Insert? && late.call.StartRun? && WriteLate(store, late).Ok?
    ensures KeepsFinishedRuns(store, WriteLate(store, late).value) <==> Harmless(store, late)
  {
    hide Trim, Tidy;
  }

  lemma LateStep(store: Store, late: LateWrite)
    requires late.Insert? && late.call.AddStep? && WriteLate(store, late).Ok?
    ensures KeepsFinishedRuns(store, WriteLate(store, late).value) <==> Harmless(store, late)
  {
    hide Trim, Tidy;
    var after, r, id := WriteLate(store, late).value, Trim(late.call.runId), late.call.id;
    forall q | q != r ensures StepsOf(after.steps, q) == StepsOf(store.steps, q) {}
    if Finished(store, r) { assert id in Evidence(after, r).1 && id !in Evidence(store, r).1; }
  }

  lemma LateAssertion(store: Store, late: LateWrite)
    requires late.Insert? && late.call.AddAssertion? && WriteLate(store, late).Ok?
    ensures KeepsFinishedRuns(store, WriteLate(store, late).value) <==> Harmless(store, late)
  {
    hide Trim, Tidy;
    var after, r, id := WriteLate(store, late).value, Trim(late.call.runId), late.call.id;
    forall q | q != r ensures AssertionsOf(after.assertions, q) == AssertionsOf(store.assertions, q) {}
    if Finished(store, r) { assert id in Evidence(after, r).2 && id !in Evidence(store, r).2; }
  }

  lemma LateSample(store: Store, late: LateWrite)
    requires late.Insert? && late.call.AddSample? && WriteLate(store, late).Ok?
    ensures KeepsFinishedRuns(store, WriteLate(store, late).value) <==> Harmless(store, late)
  {
    hide Trim, Tidy;
    var after, r, id := WriteLate(store, late).value, Trim(late.call.runId), late.call.id;
    forall q | q != r ensures SamplesOf(after.samples, q) == SamplesOf(store.samples, q) {}
    if Finished(store, r) { assert id in Evidence(after, r).3 && id !in Evidence(store, r).3; }
  }

  lemma LateStepUpdate(store: Store, late: LateWrite)
    requires late.UpdateStep?
    ensures KeepsFinishedRuns(store, WriteLate(store, late).value) <==> Harmless(store, late)
  {
    var after, id := WriteLate(store, late).value, late.step.id;
    if id in store.steps {
      var old', new' := store.steps[id], late.step;
      forall q | q != old'.runId && q != new'.runId ensures StepsOf(after.steps, q) == StepsOf(store.steps, q) {}
      if old' == new' {
        assert after.steps == store.steps;
      } else if Finished(store, old'.runId) {
        assert Evidence(store, old'.runId).1[id] == old';
        assert id !in Evidence(after, old'.runId).1 || Evidence(after, old'.runId).1[id] == new';
      } else if Finished(store, new'.runId) {
        assert id in Evidence(after, new'.runId).1 && id !in Evidence(store, new'.runId).1;
      }
    }
  }

  lemma LateRunUpdate(store: Store, late: LateWrite)
    requires late.UpdateRun?
    ensures KeepsFinishedRuns(store, WriteLate(store, late).value) <==> Harmless(store, late)
  {
    var after, id := WriteLate(store, late).value, late.run.id;
    if Finished(store, id) {
      assert Evidence(store, id).0 == store.runs[id] && Evidence(after, id).0 == late.run;
    }
  }

  /** What this costs: of two callers that finish a step at the same time, the later write takes the
      whole row from what it read. If it has no error code to give, it erases the one that the other
      has recorded, even in a run that was finished in between. */
  lemma StaleFinishErasesCode(store: Store, id: string, status: string, code: string, now: string, done: Store,
                              finish: Call, finished: Store)
    requires Invariant(store) && id in store.steps && store.steps[id].errorCode.None? && !IsBlank(code)
    requires Apply(store, FinishStep(id, status, Some(code), now)) == Ok(done)
    requires finish.FinishRun? && finish.run == store.steps[id].runId && Apply(done, finish) == Ok(finished)
    ensures id in finished.steps && finished.steps[id].errorCode == Some(Trim(code))
    ensures var late := WriteLate(finished, UpdateStep(FinishedStep(store.steps[id], status, None, now))).value;
      id in late.steps && late.steps[id].errorCode == None && !KeepsFinishedRuns(finished, late)
  {
    var late := UpdateStep(FinishedStep(store.steps[id], status, None, now));
    FinishStepWrites(store, FinishStep(id, status, Some(code), now));
    FinishedTogether(done, finish);
    InvariantKeys(store);
    LateWriteIsHarmlessExactly(finished, late);
    hide Trim, Apply, Invariant, KeepsFinishedRuns;
    assert finished.steps[id].errorCode == Some(Trim(code)) && late.step.errorCode == None;
  }

  lemma FinishStepWrites(store: Store, call: Call)
    requires call.FinishStep? && Apply(store, call).Ok?
    ensures call.step in store.steps
    ensures Apply(store, call).value == store.(
      steps := store.steps[call.step := FinishedStep(store.steps[call.step], call.status, call.errorCode, call.now)])
  {
    hide Trim, IsBlank, Tidy;
  }

  lemma FinishedTogether(store: Store, finish: Call)
    requires finish.FinishRun? && Apply(store, finish).Ok?
    ensures Apply(store, finish).value.steps == store.steps && Finished(Apply(store, finish).value, finish.run)
  {
    hide Trim, IsBlank, Tidy;
  }

  // ----- the imperative form

  class StateStore {
    var runs: map<string, Run>
    var steps: map<string, Step>
    var assertions: map<string, Assertion>
    var samples: map<string, Sample>

    function Tables(): Store
      reads this
    {
      Store(runs, steps, assertions, samples)
    }
  }

  /** The outcome of a call made on the store is that of `Apply`. */
  ghost predicate Follows(before: Store, call: Call, store: StateStore, error: Option<RecorderError>)
    reads store
  {
    match Apply(before, call)
    case Err(e) => error == Some(e) && store.Tables() == before
    case Ok(after) => error == None && store.Tables() == after
  }

  predicate RunIsOpen(store: Store, runId: string) {
    runId in store.runs && store.runs[runId].finishedAt.None? && store.runs[runId].status == "running"
  }

  /** The step, if any, is an open one of this run. */
  predicate StepFits(store: Store, stepId: Option<string>, runId: string) {
    stepId.Some? ==>
      && stepId.value in store.steps && store.steps[stepId.value].runId == runId
      && store.steps[stepId.value].finishedAt.None? && store.steps[stepId.value].status == "running"
  }

  /** The error names what is wrong. */
  predicate Explained(error: RecorderError, store: Store, runId: string, stepId: Option<string>) {
    match error
    case UnknownRun => runId !in store.runs
    case RunFinished => runId in store.runs && !RunIsOpen(store, runId)
    case UnknownStep => stepId.Some? && stepId.value !in store.steps
    case WrongRun => stepId.Some? && stepId.value in store.steps && store.steps[stepId.value].runId != runId
    case StepFinished =>
      stepId.Some? && stepId.value in store.steps && !StepFits(store, stepId, store.steps[stepId.value].runId)
    case _ => true
  }

  method StartScenarioRun(store: StateStore, id: string, name: string, family: string, version: string, surface: string,
                          now: string) returns (r: Result<Run, RecorderError>)
    modifies store
    ensures Follows(old(store.Tables()), StartRun(id, name, family, version, surface, now), store,
                    if r.Ok? then None else Some(r.error))
    ensures r.Ok? <==>
      && Trim(name) != "" && Trim(family) != "" && Trim(version) != "" && Trim(surface) != ""
      && id !in old(store.runs)
    ensures r.Ok? ==>
      && store.runs == old(store.runs)[id := r.value]
      && HoldsRun(r.value, StartRun(id, name, family, version, surface, now))
  {
    hide Trim;
    if IsBlank(name) { return Err(Blank("scenario name")); }
    if IsBlank(family) { return Err(Blank("scenario family")); }
    if IsBlank(version) { return Err(Blank("scenario version")); }
    if IsBlank(surface) { return Err(Blank("tool surface")); }
    if id in store.runs { return Err(DuplicateId); }
    var run := Run(id, Trim(name), Trim(family), Trim(version), Trim(surface), now, None, RUNNING, None);
    store.runs := store.runs[id := run];
    return Ok(run);
  }

  method CreateScenarioStep(store: StateStore, id: string, runId: string, name: string, kind: string,
                            commandLine: Option<string>, now: string) returns (r: Result<Step, RecorderError>)
    modifies store
    ensures Follows(old(store.Tables()), AddStep(id, runId, name, kind, commandLine, now), store,
                    if r.Ok? then None else Some(r.error))
    ensures r.Ok? <==>
      && Trim(runId) != "" && Trim(name) != "" && Trim(kind) != ""
      && RunIsOpen(old(store.Tables()), runId) && id !in old(store.steps)
    ensures r.Err? ==> Explained(r.error, old(store.Tables()), runId, None)
    ensures r.Ok? ==>
      && store.steps == old(store.steps)[id := r.value]
      && HoldsStep(r.value, AddStep(id, runId, name, kind, commandLine, now))
      && forall s | s in old(store.steps) && old(store.steps)[s].runId == Trim(runId) ::
           old(store.steps)[s].ordinal < r.value.ordinal
  {
    hide Trim;
    if IsBlank(runId) { return Err(Blank("run id")); }
    if IsBlank(name) { return Err(Blank("step name")); }
    if IsBlank(kind) { return Err(Blank("step kind")); }
    var inactive := EnsureRunActive(store.Tables(), runId);
    if inactive.Some? { return Err(inactive.value); }
    if id in store.steps { return Err(DuplicateId); }
    var step := Step(id, Trim(runId), NextOrdinal(store.steps, Trim(runId)), Trim(name), Trim(kind),
                     Tidy(commandLine), now, None, RUNNING, None);
    store.steps := store.steps[id := step];
    return Ok(step);
  }

  method CreateAssertionRecord(store: StateStore, id: string, runId: string, stepId: Option<string>, name: string,
                               expected: Option<string>, actual: Option<string>, status: string,
                               failureCategory: Option<string>, notes: Option<string>)
    returns (r: Result<Assertion, RecorderError>)
    modifies store
    ensures Follows(old(store.Tables()),
                    AddAssertion(id, runId, stepId, name, expected, actual, status, failureCategory, notes), store,
                    if r.Ok? then None else Some(r.error))
    ensures r.Ok? <==>
      && Trim(runId) != "" && Trim(name) != "" && Trim(status) != ""
      && RunIsOpen(old(store.Tables()), runId) && StepFits(old(store.Tables()), stepId, runId)
      && id !in old(store.assertions)
    ensures r.Err? ==> Explained(r.error, old(store.Tables()), runId, stepId)
    ensures r.Ok? ==>
      && store.assertions == old(store.assertions)[id := r.value]
      && HoldsAssertion(r.value,
         AddAssertion(id, runId, stepId, name, expected, actual, status, failureCategory, notes))
  {
    hide Trim, Tidy, IsTidied;
    if IsBlank(runId) { return Err(Blank("run id")); }
    if IsBlank(name) { return Err(Blank("assertion name")); }
    if IsBlank(status) { return Err(Blank("assertion status")); }
    var inactive := EnsureRunActive(store.Tables(), runId);
    if inactive.Some? { return Err(inactive.value); }
    var unusable := EnsureStep(store.Tables(), stepId, runId);
    if unusable.Some? { return Err(unusable.value); }
    if id in store.assertions { return Err(DuplicateId); }
    var assertion := Assertion(id, Trim(runId), TrimOption(stepId), Trim(name), Tidy(expected), Tidy(actual),
                               Trim(status), Tidy(failureCategory), Tidy(notes));
    TidyTidies(expected);
    TidyTidies(actual);
    TidyTidies(failureCategory);
    TidyTidies(notes);
    store.assertions := store.assertions[id := assertion];
    return Ok(assertion);
  }

  method CreateLatencyRecord(store: StateStore, id: string, runId: string, stepId: Option<string>, metric: string,
                             ms: Float, captureMethod: Option<string>)
    returns (r: Result<Sample, RecorderError>)
    modifies store
    ensures Follows(old(store.Tables()), AddSample(id, runId, stepId, metric, ms, captureMethod), store,
                    if r.Ok? then None else Some(r.error))
    ensures r.Ok? <==>
      && Trim(runId) != "" && Trim(metric) != "" && (ms == Infinity || (ms.Finite? && ms.value >= 0.0))
      && RunIsOpen(old(store.Tables()), runId) && StepFits(old(store.Tables()), stepId, runId)
      && id !in old(store.samples)
    ensures r.Err? ==> Explained(r.error, old(store.Tables()), runId, stepId)
    ensures r.Ok? ==>
      && store.samples == old(store.samples)[id := r.value]
      && HoldsSample(r.value, AddSample(id, runId, stepId, metric, ms, captureMethod))
  {
    hide Trim, Tidy, IsTidied;
    if IsBlank(runId) { return Err(Blank("run id")); }
    if IsBlank(metric) { return Err(Blank("metric name")); }
    if !NonNegative(ms) { return Err(NegativeSample); }
    var inactive := EnsureRunActive(store.Tables(), runId);
    if inactive.Some? { return Err(inactive.value); }
    var unusable := EnsureStep(store.Tables(), stepId, runId);
    if unusable.Some? { return Err(unusable.value); }
    if id in store.samples { return Err(DuplicateId); }
    var sample := Sample(id, Trim(runId), TrimOption(stepId), Trim(metric), ms, Tidy(captureMethod));
    TidyTidies(captureMethod);
    store.samples := store.samples[id := sample];
    return Ok(sample);
  }

  method FinishStepRecord(store: StateStore, stepId: string, status: string, errorCode: Option<string>, now: string)
    returns (r: Result<Step, RecorderError>)
    modifies store
    ensures Follows(old(store.Tables()), FinishStep(stepId, status, errorCode, now), store,
                    if r.Ok? then None else Some(r.error))
    ensures r.Ok? <==>
      && Trim(stepId) != "" && Trim(status) != ""
      && stepId in old(store.steps) && StepFits(old(store.Tables()), Some(stepId), old(store.steps)[stepId].runId)
    ensures r.Err? ==> Explained(r.error, old(store.Tables()), "", Some(stepId))
    ensures r.Ok? ==>
      && store.steps == old(store.steps)[stepId := r.value]
      && ClosesStep(old(store.steps)[stepId], r.value, status, errorCode, now)
  {
    hide Trim;
    if IsBlank(stepId) { return Err(Blank("step id")); }
    if IsBlank(status) { return Err(Blank("step status")); }
    if stepId !in store.steps { return Err(UnknownStep); }
    var step := store.steps[stepId];
    if !StepActive(step) { return Err(StepFinished); }
    step := FinishedStep(step, status, errorCode, now);
    store.steps := store.steps[stepId := step];
    return Ok(step);
  }

  method FinishRunRecord(store: StateStore, runId: string, status: string, summaryPath: Option<string>, now: string)
    returns (r: Result<Run, RecorderError>)
    modifies store
    ensures Follows(old(store.Tables()), FinishRun(runId, status, summaryPath, now), store,
                    if r.Ok? then None else Some(r.error))
    ensures r.Ok? <==>
      && Trim(runId) != "" && Trim(status) != "" && RunIsOpen(old(store.Tables()), runId)
      && forall s | s in old(store.steps) && old(store.steps)[s].runId == runId :: old(store.steps)[s].finishedAt.Some?
    ensures r.Err? ==> Explained(r.error, old(store.Tables()), runId, None)
    ensures r.Ok? ==>
      && store.runs == old(store.runs)[runId := r.value]
      && ClosesRun(old(store.runs)[runId], r.value, status, summaryPath, now)
  {
    hide Trim;
    if IsBlank(runId) { return Err(Blank("run id")); }
    if IsBlank(status) { return Err(Blank("run status")); }
    if runId !in store.runs { return Err(UnknownRun); }
    var run := store.runs[runId];
    if !RunActive(run) { return Err(RunFinished); }
    if exists s :: s in store.steps && store.steps[s].runId == runId && store.steps[s].finishedAt.None? {
      return Err(ActiveSteps);
    }
    run := FinishedRun(run, status, summaryPath, now);
    store.runs := store.runs[runId := run];
    return Ok(run);
  }
}
