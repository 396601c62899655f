/** Execution budgets: ledgers that gate the next provider call and charge what it used, and what
    they guarantee when several workers share them. */
module Budget {
  import opened Text

  /** Measured usage. `calls` are provider requests. */
  datatype Usage = Usage(calls: nat, input: nat, output: nat, cost: real) {
    function Plus(more: Usage): Usage {
      Usage(calls + more.calls, input + more.input, output + more.output, cost + more.cost)
    }

    function Of(meter: Meter): real {
      match meter
      case Input => input as real
      case Output => output as real
      case Cost => cost
    }

    function In(column: Column): real {
      match column
      case Calls => calls as real
      case Metered(meter) => Of(meter)
    }
  }

  const ZERO := Usage(0, 0, 0, 0.0)

  /** What can only be measured after a response. */
  datatype Meter = Input | Output | Cost

  /** The four figures of a ledger. */
  datatype Column = Calls | Metered(meter: Meter)

  datatype Limit = MaxDocuments | MaxTotalBytes | MaxApiCalls | MaxMeter(meter: Meter)

  datatype Caps = Caps(documents: Option<nat>, totalBytes: Option<nat>,
    calls: Option<nat>, input: Option<nat>, output: Option<nat>, cost: Option<real>)
  {
    function Of(meter: Meter): Option<real> {
      match meter
      case Input => if input.Some? then Some(input.value as real) else None
      case Output => if output.Some? then Some(output.value as real) else None
      case Cost => cost
    }

    /** The declared bounds: counts of at least one, a positive cost. */
    predicate Valid() {
      && (documents.Some? ==> documents.value >= 1)
      && (totalBytes.Some? ==> totalBytes.value >= 1) && (calls.Some? ==> calls.value >= 1)
      && (input.Some? ==> input.value >= 1) && (output.Some? ==> output.value >= 1)
      && (cost.Some? ==> cost.value > 0.0)
    }
  }

  // ----- One ledger -----

  predicate Spent(caps: Caps, used: Usage, meter: Meter) {
    caps.Of(meter).Some? && used.Of(meter) >= caps.Of(meter).value
  }

  /** The gate passes when the next calls still fit and no measured cap is used up. */
  predicate Headroom(caps: Caps, used: Usage, nextCalls: nat) {
    && (caps.calls.Some? ==> used.calls + nextCalls <= caps.calls.value)
    && forall meter :: !Spent(caps, used, meter)
  }

  /** What a response is charged as: negative counts and a negative or non-finite cost are zero. */
  function Charged(calls: int, input: int, output: int, cost: Option<real>): Usage {
    Usage(NotNegative(calls), NotNegative(input), NotNegative(output),
      if cost.Some? && cost.value >= 0.0 then cost.value else 0.0)
  }

  function NotNegative(n: int): nat { if n < 0 then 0 else n }

  /** A figure that is not negative counts as it is, any other as nothing. */
  lemma ChargedIs(calls: int, input: int, output: int, cost: Option<real>)
    ensures var u := Charged(calls, input, output, cost);
      && (calls >= 0 ==> u.calls == calls) && (calls < 0 ==> u.calls == 0)
      && (input >= 0 ==> u.input == input) && (input < 0 ==> u.input == 0)
      && (output >= 0 ==> u.output == output) && (output < 0 ==> u.output == 0)
      && (cost.Some? && cost.value >= 0.0 ==> u.cost == cost.value) && (cost.None? || cost.value < 0.0 ==> u.cost == 0.0)
  {
  }

  /** The gate: calls may come up to their cap, everything measured must still be below its own. */
  lemma HeadroomIs(caps: Caps, used: Usage, n: nat)
    ensures Headroom(caps, used, n) <==>
      && (caps.calls.Some? ==> used.calls + n <= caps.calls.value)
      && (caps.input.Some? ==> used.input < caps.input.value)
      && (caps.output.Some? ==> used.output < caps.output.value)
      && (caps.cost.Some? ==> used.cost < caps.cost.value)
  {
    assert Spent(caps, used, Input) <==> caps.input.Some? && used.input >= caps.input.value;
    assert Spent(caps, used, Output) <==> caps.output.Some? && used.output >= caps.output.value;
    assert Spent(caps, used, Cost) <==> caps.cost.Some? && used.cost >= caps.cost.value;
  }

  class BudgetLedger {
    const caps: Caps
    const scope: string
    var documents: nat
    var totalBytes: nat
    var used: Usage

    constructor (caps: Caps, scope: string)
      ensures this.caps == caps && this.scope == scope && documents == 0 && totalBytes == 0 && used == ZERO
    {
      this.caps, this.scope, documents, totalBytes, used := caps, scope, 0, 0, ZERO;
    }

    predicate OverDocuments()
      reads this`documents
    {
      caps.documents.Some? && documents > caps.documents.value
    }

    /** Charges first and complains after: the count stays charged. */
    method ChargeDocuments(count: nat) returns (exceeded: Option<Limit>)
      modifies this`documents
      ensures documents == old(documents) + count
      ensures exceeded == if OverDocuments() then Some(MaxDocuments) else None
      ensures exceeded.Some? <==> caps.documents.Some? && documents > caps.documents.value
    {
      documents := documents + count;
      return if OverDocuments() then Some(MaxDocuments) else None;
    }

    method ChargeBytes(count: nat) returns (exceeded: Option<Limit>)
      modifies this`totalBytes
      ensures totalBytes == old(totalBytes) + count
      ensures exceeded == if caps.totalBytes.Some? && totalBytes > caps.totalBytes.value then Some(MaxTotalBytes) else None
    {
      totalBytes := totalBytes + count;
      return if caps.totalBytes.Some? && totalBytes > caps.totalBytes.value then Some(MaxTotalBytes) else None;
    }

    /** The gate, reporting the first cap in the order calls, input, output, cost. */
    method EnsureHeadroom(nextCalls: nat) returns (exceeded: Option<Limit>)
      ensures exceeded == None <==> Headroom(caps, used, nextCalls)
      ensures exceeded == Some(MaxApiCalls) <==> caps.calls.Some? && used.calls + nextCalls > caps.calls.value
      ensures exceeded.Some? && exceeded.value.MaxMeter? ==> Spent(caps, used, exceeded.value.meter)
      ensures exceeded.Some? ==> exceeded.value.MaxApiCalls? || exceeded.value.MaxMeter?
      ensures exceeded == Some(MaxMeter(Output)) || exceeded == Some(MaxMeter(Cost)) ==> !Spent(caps, used, Input)
      ensures exceeded == Some(MaxMeter(Cost)) ==> !Spent(caps, used, Output)
    {
      if caps.calls.Some? && used.calls + nextCalls > caps.calls.value {
        return Some(MaxApiCalls);
      }
      var meters := [Input, Output, Cost];
      assert meters[0] == Input && meters[1] == Output && meters[2] == Cost;
      for k := 0 to |meters|
        invariant forall i :: 0 <= i < k ==> !Spent(caps, used, meters[i])
      {
        if Spent(caps, used, meters[k]) {
          return Some(MaxMeter(meters[k]));
        }
      }
      return None;
    }

    /** Never complains: the call already happened. */
    method ChargeUsage(calls: int, input: int, output: int, cost: Option<real>)
      modifies this`used
      ensures used == old(used).Plus(Charged(calls, input, output, cost))
    {
      used := used.Plus(Charged(calls, input, output, cost));
    }
  }

  // ----- The guard over a model ledger and a run ledger -----

  class BudgetGuard {
    const ledgers: seq<BudgetLedger>

    /** The model's own ledger, the run's ledger, either may be missing. */
    constructor (model: Option<BudgetLedger>, run: Option<BudgetLedger>)
      requires model.Some? && run.Some? ==> model.value != run.value
      ensures Valid()
      ensures ledgers == (if model.Some? then [model.value] else []) + if run.Some? then [run.value] else []
    {
      ledgers := (if model.Some? then [model.value] else []) + if run.Some? then [run.value] else [];
    }

    predicate Valid() { forall i, j :: 0 <= i < j < |ledgers| ==> ledgers[i] != ledgers[j] }

    /** Every ledger must have room. */
    method EnsureHeadroom(nextCalls: nat) returns (exceeded: Option<Limit>)
      ensures exceeded == None <==> forall ledger :: ledger in ledgers ==> Headroom(ledger.caps, ledger.used, nextCalls)
    {
      for k := 0 to |ledgers|
        invariant forall i :: 0 <= i < k ==> Headroom(ledgers[i].caps, ledgers[i].used, nextCalls)
      {
        exceeded := ledgers[k].EnsureHeadroom(nextCalls);
        if exceeded.Some? {
          return;
        }
      }
      return None;
    }

    /** Every ledger is charged the same. */
    method ChargeUsage(calls: int, input: int, output: int, cost: Option<real>)
      requires Valid()
      modifies ledgers`used
      ensures forall ledger :: ledger in ledgers ==> ledger.used == old(ledger.used).Plus(Charged(calls, input, output, cost))
    {
      for k := 0 to |ledgers|
        invariant forall i :: 0 <= i < |ledgers| ==>
          ledgers[i].used == if i < k then old(ledgers[i].used).Plus(Charged(calls, input, output, cost)) else old(ledgers[i].used)
      {
        ledgers[k].ChargeUsage(calls, input, output, cost);
      }
    }

    /** Ledgers are charged in turn up to and including the first that complains: a model over its
        cap leaves the run's count alone, but not the other way round. */
    method ChargeDocuments(count: nat) returns (exceeded: Option<Limit>, ghost charged: nat)
      requires Valid()
      modifies ledgers`documents
      ensures forall i :: 0 <= i < |ledgers| ==> ledgers[i].documents == old(ledgers[i].documents) + if i < charged then count else 0
      ensures exceeded == None ==> charged == |ledgers| && forall ledger :: ledger in ledgers ==> !ledger.OverDocuments()
      ensures exceeded.Some? ==> 0 < charged <= |ledgers| && ledgers[charged - 1].OverDocuments()
      ensures exceeded.Some? ==> forall i :: 0 <= i < charged - 1 < |ledgers| ==> !ledgers[i].OverDocuments()
    {
      charged := 0;
      for k := 0 to |ledgers|
        invariant charged == k
        invariant forall i :: 0 <= i < |ledgers| ==> ledgers[i].documents == old(ledgers[i].documents) + if i < k then count else 0
        invariant forall i :: 0 <= i < k ==> !ledgers[i].OverDocuments()
      {
        exceeded := ledgers[k].ChargeDocuments(count);
        charged := charged + 1;
        if exceeded.Some? {
          return;
        }
      }
      exceeded := None;
    }
  }

  // ----- One ledger under several workers -----

  /** `workers` threads gate at most `batch` calls at a time; each is charged once, for at most
      `response`. A call that was retried is billed as several. */
  datatype Setting = Setting(workers: nat, batch: nat, response: Usage)

  /** A ledger as its workers see it: `owed[w]` responses may still be charged by worker `w`
      without asking again. */
  datatype View = View(used: Usage, owed: seq<nat>)

  predicate Within(u: Usage, most: Usage) {
    u.calls <= most.calls && u.input <= most.input && u.output <= most.output && 0.0 <= u.cost <= most.cost
  }

  predicate Gates(s: Setting, caps: Caps, v: View, v': View, w: nat, n: nat) {
    && w < |v.owed| && v.owed[w] == 0 && n <= s.batch && Headroom(caps, v.used, n)
    && v' == v.(owed := v.owed[w := n])
  }

  predicate Charges(s: Setting, v: View, v': View, w: nat, u: Usage) {
    && w < |v.owed| && v.owed[w] > 0 && Within(u, s.response)
    && v' == View(v.used.Plus(u), v.owed[w := v.owed[w] - 1])
  }

  predicate GivesUp(v: View, v': View, w: nat) {
    w < |v.owed| && v' == v.(owed := v.owed[w := 0])
  }

  ghost predicate ViewStep(s: Setting, caps: Caps, v: View, v': View) {
    || v' == v
    || (exists w, n :: Gates(s, caps, v, v', w, n))
    || (exists w, u :: Charges(s, v, v', w, u))
    || (exists w :: GivesUp(v, v', w))
  }

  function Total(xs: seq<nat>): nat {
    if xs == [] then 0 else xs[0] + Total(xs[1..])
  }

  function Times(n: nat, k: nat): nat {
    if n == 0 then 0 else k + Times(n - 1, k)
  }

  /** Each of `n - m` more entries adds at least one. */
  lemma {:induction false} TimesGrow(m: nat, n: nat, k: nat)
    requires m <= n && k >= 1
    ensures Times(m, k) + (n - m) <= Times(n, k)
  {
    if m < n {
      TimesGrow(m, n - 1, k);
    }
  }

  /** `n` responses of the largest kind. */
  function Most(s: Setting, n: nat, meter: Meter): real {
    if n == 0 then 0.0 else s.response.Of(meter) + Most(s, n - 1, meter)
  }

  lemma {:induction false} TotalUpdate(xs: seq<nat>, w: nat, n: nat)
    requires w < |xs|
    ensures Total(xs[w := n]) + xs[w] == Total(xs) + n
  {
    if w == 0 {
      assert xs[w := n][1..] == xs[1..];
    } else {
      assert xs[w := n][1..] == xs[1..][w - 1 := n];
      TotalUpdate(xs[1..], w - 1, n);
    }
  }

  lemma {:induction false} TotalBound(xs: seq<nat>, k: nat)
    requires forall i :: 0 <= i < |xs| ==> xs[i] <= k
    ensures Total(xs) <= Times(|xs|, k)
  {
    if xs != [] {
      TotalBound(xs[1..], k);
    }
  }

  /** All but one worker. */
  lemma {:induction false} TotalOthers(xs: seq<nat>, w: nat, k: nat)
    requires w < |xs| && xs[w] == 0 && forall i :: 0 <= i < |xs| ==> xs[i] <= k
    ensures Total(xs) <= Times(|xs| - 1, k)
  {
    if w == 0 {
      TotalBound(xs[1..], k);
    } else {
      assert xs[1..][w - 1] == xs[w];
      TotalOthers(xs[1..], w - 1, k);
    }
  }

  lemma {:induction false} MostMonotone(s: Setting, m: nat, n: nat, meter: Meter)
    requires m <= n && s.response.cost >= 0.0
    ensures Most(s, m, meter) <= Most(s, n, meter)
  {
    if m < n {
      MostMonotone(s, m, n - 1, meter);
    }
  }

  /** What every run keeps: even if every response still owed is charged in full, the calls stay
      within the cap and the largest bill of every worker's batch, less one batch, and what is
      measured stays below the cap and one batch of largest responses of every worker. */
  ghost predicate ViewInv(s: Setting, caps: Caps, v: View) {
    && s.workers > 0 && |v.owed| == s.workers && (forall w :: 0 <= w < |v.owed| ==> v.owed[w] <= s.batch)
    && (caps.calls.Some? ==>
      v.used.calls + Billed(s, Total(v.owed)) + s.batch <= caps.calls.value + Billed(s, Times(s.workers, s.batch)))
    && forall meter :: caps.Of(meter).Some? ==> MeterInv(s, caps, v, meter)
  }

  /** The calls that `n` responses are billed as at most. */
  function Billed(s: Setting, n: nat): nat { Times(n, s.response.calls) }

  predicate MeterInv(s: Setting, caps: Caps, v: View, meter: Meter)
    requires caps.Of(meter).Some?
  {
    v.used.Of(meter) + Most(s, Total(v.owed), meter) < caps.Of(meter).value + Most(s, Times(s.workers, s.batch), meter)
  }

  predicate Sensible(s: Setting, caps: Caps) {
    s.workers > 0 && s.response.calls >= 1 && s.response.cost >= 0.0 && caps.Valid()
  }

  lemma GatesKeeps(s: Setting, caps: Caps, v: View, v': View, w: nat, n: nat)
    requires Sensible(s, caps) && ViewInv(s, caps, v) && Gates(s, caps, v, v', w, n)
    ensures ViewInv(s, caps, v')
  {
    TotalUpdate(v.owed, w, n);
    TotalOthers(v.owed, w, s.batch);
    TotalBound(v'.owed, s.batch);
    TimesGrow(Total(v'.owed), Times(s.workers, s.batch), s.response.calls);
    forall meter | caps.Of(meter).Some?
      ensures MeterInv(s, caps, v', meter)
    {
      assert !Spent(caps, v.used, meter);
      MostMonotone(s, Total(v'.owed), Times(s.workers, s.batch), meter);
    }
  }

  lemma ChargesKeeps(s: Setting, caps: Caps, v: View, v': View, w: nat, u: Usage)
    requires Sensible(s, caps) && ViewInv(s, caps, v) && Charges(s, v, v', w, u)
    ensures ViewInv(s, caps, v')
  {
    TotalUpdate(v.owed, w, v.owed[w] - 1);
    assert Total(v.owed) == Total(v'.owed) + 1;
    forall meter | caps.Of(meter).Some?
      ensures MeterInv(s, caps, v', meter)
    {
      assert MeterInv(s, caps, v, meter);
      assert u.Of(meter) <= s.response.Of(meter);
    }
  }

  lemma GivesUpKeeps(s: Setting, caps: Caps, v: View, v': View, w: nat)
    requires Sensible(s, caps) && ViewInv(s, caps, v) && GivesUp(v, v', w)
    ensures ViewInv(s, caps, v')
  {
    TotalUpdate(v.owed, w, 0);
    TimesGrow(Total(v'.owed), Total(v.owed), s.response.calls);
    forall meter | caps.Of(meter).Some?
      ensures MeterInv(s, caps, v', meter)
    {
      assert MeterInv(s, caps, v, meter);
      MostMonotone(s, Total(v'.owed), Total(v.owed), meter);
    }
  }

  lemma ViewStepKeeps(s: Setting, caps: Caps, v: View, v': View)
    requires Sensible(s, caps) && ViewInv(s, caps, v) && ViewStep(s, caps, v, v')
    ensures ViewInv(s, caps, v')
  {
    hide ViewInv, Gates, Charges, GivesUp;
    if v' == v {
    } else if exists w, n :: Gates(s, caps, v, v', w, n) {
      var w, n :| Gates(s, caps, v, v', w, n);
      GatesKeeps(s, caps, v, v', w, n);
    } else if exists w, u :: Charges(s, v, v', w, u) {
      var w, u :| Charges(s, v, v', w, u);
      ChargesKeeps(s, caps, v, v', w, u);
    } else {
      var w :| GivesUp(v, v', w);
      GivesUpKeeps(s, caps, v, v', w);
    }
  }

  function Unowed(n: nat): seq<nat> { seq(n, i => 0) }

  lemma InitialView(s: Setting, caps: Caps)
    requires Sensible(s, caps)
    ensures ViewInv(s, caps, View(ZERO, Unowed(s.workers)))
  {
    TotalBound(Unowed(s.workers), 0);
    TimesZero(s.workers);
    TimesGrow(0, Times(s.workers, s.batch), s.response.calls);
    forall meter | caps.Of(meter).Some?
      ensures MeterInv(s, caps, View(ZERO, Unowed(s.workers)), meter)
    {
      MostMonotone(s, 0, Times(s.workers, s.batch), meter);
    }
  }

  lemma {:induction false} TimesZero(n: nat)
    ensures Times(n, 0) == 0
  {
    if n > 0 {
      TimesZero(n - 1);
    }
  }

  // ----- A run: several models, one run ledger -----

  /** A worker between two lock acquisitions. Work starts for a model; the guard asks the model's
      ledger, then the run's, and charges them in the same order. */
  datatype Worker =
    | Idle
    | Asking(model: nat, calls: nat)
    | Calling(model: nat, responses: nat)
    | Charging(model: nat, responses: nat, usage: Usage)

  datatype System = System(run: Usage, models: seq<Usage>, workers: seq<Worker>)

  datatype Event =
    | AskModel(model: nat, calls: nat)
    | AskRun
    | Refused
    | ChargeModel(usage: Usage)
    | ChargeRun
    | Finish

  datatype Budgets = Budgets(setting: Setting, run: Caps, models: seq<Caps>)

  /** Worker `w` takes one step; `None` when it cannot take that one. */
  function Next(b: Budgets, s: System, w: nat, event: Event): Option<System>
    requires w < |s.workers| && |s.models| == |b.models|
  {
    var worker := s.workers[w];
    match event
    case AskModel(m, n) =>
      if worker.Idle? && m < |s.models| && n <= b.setting.batch && Headroom(b.models[m], s.models[m], n)
      then Some(s.(workers := s.workers[w := Asking(m, n)])) else None
    case AskRun =>
      if worker.Asking? && Headroom(b.run, s.run, worker.calls)
      then Some(s.(workers := s.workers[w := Calling(worker.model, worker.calls)])) else None
    case Refused =>
      if worker.Asking? && !Headroom(b.run, s.run, worker.calls)
      then Some(s.(workers := s.workers[w := Idle])) else None
    case ChargeModel(u) =>
      if worker.Calling? && worker.model < |s.models| && worker.responses > 0 && Within(u, b.setting.response)
      then
        Some(System(s.run, s.models[worker.model := s.models[worker.model].Plus(u)],
          s.workers[w := Charging(worker.model, worker.responses - 1, u)]))
      else None
    case ChargeRun =>
      if worker.Charging?
      then Some(System(s.run.Plus(worker.usage), s.models, s.workers[w := Calling(worker.model, worker.responses)])) else None
    case Finish =>
      if worker.Calling? then Some(s.(workers := s.workers[w := Idle])) else None
  }

  function Zeros(n: nat): (us: seq<Usage>)
    ensures |us| == n && forall m :: 0 <= m < n ==> us[m] == ZERO
  {
    if n == 0 then [] else [ZERO] + Zeros(n - 1)
  }

  function AllIdle(n: nat): (workers: seq<Worker>)
    ensures |workers| == n && forall w :: 0 <= w < n ==> workers[w] == Idle
  {
    if n == 0 then [] else [Idle] + AllIdle(n - 1)
  }

  function Start(b: Budgets): System {
    System(ZERO, Zeros(|b.models|), AllIdle(b.setting.workers))
  }

  /** The state after a schedule of steps, for as long as each can be taken. */
  function After(b: Budgets, schedule: seq<(nat, Event)>): (s: Option<System>)
    ensures s.Some? ==> |s.value.models| == |b.models| && |s.value.workers| == b.setting.workers
  {
    if schedule == [] then Some(Start(b))
    else
      var (w, event) := schedule[|schedule| - 1];
      match After(b, schedule[..|schedule| - 1])
      case Some(s) => if w < |s.workers| then Next(b, s, w, event) else None
      case None => None
  }

  /** What a worker may still charge to the run's ledger without asking it again. */
  function OwedToRun(worker: Worker): nat {
    match worker
    case Calling(_, r) => r
    case Charging(_, r, _) => r + 1
    case _ => 0
  }

  function OwedToModel(worker: Worker, m: nat): nat {
    match worker
    case Asking(model, n) => if model == m then n else 0
    case Calling(model, r) => if model == m then r else 0
    case Charging(model, r, _) => if model == m then r else 0
    case Idle => 0
  }

  function RunView(s: System): View {
    View(s.run, seq(|s.workers|, i requires 0 <= i < |s.workers| => OwedToRun(s.workers[i])))
  }

  function ModelView(s: System, m: nat): View
    requires m < |s.models|
  {
    View(s.models[m], seq(|s.workers|, i requires 0 <= i < |s.workers| => OwedToModel(s.workers[i], m)))
  }

  ghost predicate SystemInv(b: Budgets, s: System) {
    && |s.models| == |b.models|
    && ViewInv(b.setting, b.run, RunView(s))
    && (forall m :: 0 <= m < |s.models| ==> ViewInv(b.setting, b.models[m], ModelView(s, m)))
    && (forall w :: 0 <= w < |s.workers| && s.workers[w].Charging? ==> Within(s.workers[w].usage, b.setting.response))
    && (forall w :: 0 <= w < |s.workers| && s.workers[w].Asking? ==> s.workers[w].calls <= b.setting.batch)
  }

  lemma RunViewSteps(b: Budgets, s: System, w: nat, event: Event)
    requires w < |s.workers| && SystemInv(b, s) && Next(b, s, w, event).Some?
    ensures ViewStep(b.setting, b.run, RunView(s), RunView(Next(b, s, w, event).value))
  {
    hide Headroom, ViewInv;
    var s' := Next(b, s, w, event).value;
    var v, v', worker := RunView(s), RunView(s'), s.workers[w];
    assert v'.owed == v.owed[w := OwedToRun(s'.workers[w])];
    match event
    case AskModel(m, n) => assert v' == v;
    case AskRun => assert Gates(b.setting, b.run, v, v', w, worker.calls);
    case Refused => assert v' == v;
    case ChargeModel(u) => assert v' == v;
    case ChargeRun => assert Charges(b.setting, v, v', w, worker.usage);
    case Finish => assert GivesUp(v, v', w);
  }

  lemma ModelViewSteps(b: Budgets, s: System, w: nat, event: Event, m: nat)
    requires w < |s.workers| && m < |s.models| && SystemInv(b, s) && Next(b, s, w, event).Some?
    ensures ViewStep(b.setting, b.models[m], ModelView(s, m), ModelView(Next(b, s, w, event).value, m))
  {
    hide Headroom, ViewInv;
    var s' := Next(b, s, w, event).value;
    var v, v', worker := ModelView(s, m), ModelView(s', m), s.workers[w];
    assert v'.owed == v.owed[w := OwedToModel(s'.workers[w], m)];
    if worker.Idle? {
      if event.model == m {
        assert Gates(b.setting, b.models[m], v, v', w, event.calls);
      } else {
        assert v' == v;
      }
    } else if worker.model != m {
      assert v' == v;
    } else {
      match event
      case AskRun => assert v' == v;
      case Refused => assert GivesUp(v, v', w);
      case ChargeModel(u) => assert Charges(b.setting, v, v', w, u);
      case ChargeRun => assert v' == v;
      case Finish => assert GivesUp(v, v', w);
    }
  }

  predicate SensibleBudgets(b: Budgets) {
    Sensible(b.setting, b.run) && forall m :: 0 <= m < |b.models| ==> Sensible(b.setting, b.models[m])
  }

  lemma StepKeepsInv(b: Budgets, s: System, w: nat, event: Event)
    requires SensibleBudgets(b) && SystemInv(b, s) && w < |s.workers| && Next(b, s, w, event).Some?
    ensures SystemInv(b, Next(b, s, w, event).value)
  {
    hide ViewInv, ViewStep, RunView, ModelView;
    var s' := Next(b, s, w, event).value;
    RunViewSteps(b, s, w, event);
    ViewStepKeeps(b.setting, b.run, RunView(s), RunView(s'));
    forall m | 0 <= m < |s'.models|
      ensures ViewInv(b.setting, b.models[m], ModelView(s', m))
    {
      ModelViewSteps(b, s, w, event, m);
      ViewStepKeeps(b.setting, b.models[m], ModelView(s, m), ModelView(s', m));
    }
  }

  lemma {:induction false} ScheduleKeepsInv(b: Budgets, schedule: seq<(nat, Event)>)
    requires SensibleBudgets(b) && After(b, schedule).Some?
    ensures SystemInv(b, After(b, schedule).value)
  {
    if schedule == [] {
      var s := Start(b);
      assert RunView(s) == View(ZERO, Unowed(b.setting.workers));
      InitialView(b.setting, b.run);
      forall m | 0 <= m < |s.models|
        ensures ViewInv(b.setting, b.models[m], ModelView(s, m))
      {
        assert ModelView(s, m) == View(ZERO, Unowed(b.setting.workers));
        InitialView(b.setting, b.models[m]);
      }
    } else {
      var (w, event) := schedule[|schedule| - 1];
      ScheduleKeepsInv(b, schedule[..|schedule| - 1]);
      StepKeepsInv(b, After(b, schedule[..|schedule| - 1]).value, w, event);
    }
  }

  lemma {:induction false} TimesIs(n: nat, k: nat)
    ensures Times(n, k) == n * k
  {
    if n > 0 {
      TimesIs(n - 1, k);
    }
  }

  function Scaled(n: nat, x: real): real { n as real * x }

  lemma OneMoreScaled(n: nat, x: real)
    ensures Scaled(0, x) == 0.0 && Scaled(n + 1, x) == Scaled(n, x) + x
  {}

  lemma {:induction false} MostIs(s: Setting, n: nat, meter: Meter)
    ensures Most(s, n, meter) == Scaled(n, s.response.Of(meter))
  {
    hide Scaled;
    OneMoreScaled(if n > 0 then n - 1 else 0, s.response.Of(meter));
    if n > 0 {
      MostIs(s, n - 1, meter);
    }
  }

  /** How far usage may pass its caps when `workers` threads gate up to `batch` calls each. */
  ghost predicate WithinCaps(s: Setting, caps: Caps, used: Usage)
    requires s.workers > 0
  {
    && (caps.calls.Some? ==> used.calls <= caps.calls.value + s.workers * s.batch * s.response.calls - s.batch)
    && forall meter :: caps.Of(meter).Some? ==>
      used.Of(meter) < caps.Of(meter).value + Scaled(s.workers * s.batch, s.response.Of(meter))
  }

  lemma ViewWithinCaps(s: Setting, caps: Caps, v: View)
    requires Sensible(s, caps) && ViewInv(s, caps, v)
    ensures WithinCaps(s, caps, v.used)
  {
    hide Scaled;
    TimesIs(s.workers, s.batch);
    TimesIs(s.workers * s.batch, s.response.calls);
    forall meter | caps.Of(meter).Some?
      ensures v.used.Of(meter) < caps.Of(meter).value + Scaled(s.workers * s.batch, s.response.Of(meter))
    {
      assert MeterInv(s, caps, v, meter);
      MostMonotone(s, 0, Total(v.owed), meter);
      MostIs(s, Times(s.workers, s.batch), meter);
    }
  }

  /** In every interleaving, on the run's ledger and on every model's: calls pass their cap by at
      most the largest bill of every worker's batch, less one batch - so, when a response is one
      call, by one batch of every other worker, never with one worker; tokens and cost by less
      than one batch of largest responses of every worker. */
  lemma CapsHold(b: Budgets, schedule: seq<(nat, Event)>)
    requires SensibleBudgets(b) && After(b, schedule).Some?
    ensures var s := After(b, schedule).value;
      && WithinCaps(b.setting, b.run, s.run)
      && forall m :: 0 <= m < |s.models| ==> WithinCaps(b.setting, b.models[m], s.models[m])
  {
    ScheduleKeepsInv(b, schedule);
    hide ViewInv, WithinCaps, After;
    var s := After(b, schedule).value;
    ViewWithinCaps(b.setting, b.run, RunView(s));
    forall m | 0 <= m < |s.models|
      ensures WithinCaps(b.setting, b.models[m], s.models[m])
    {
      ViewWithinCaps(b.setting, b.models[m], ModelView(s, m));
    }
  }

  // ----- Usage is conserved -----

  /** What the models' ledgers hold together. */
  function Sum(us: seq<Usage>, column: Column): real {
    if us == [] then 0.0 else us[0].In(column) + Sum(us[1..], column)
  }

  /** Charged to a model, not yet to the run. */
  function Pending(worker: Worker, column: Column): real {
    if worker.Charging? then worker.usage.In(column) else 0.0
  }

  function PendingAll(workers: seq<Worker>, column: Column): real {
    if workers == [] then 0.0 else Pending(workers[0], column) + PendingAll(workers[1..], column)
  }

  lemma PlusAdds(u: Usage, more: Usage, column: Column)
    ensures u.Plus(more).In(column) == u.In(column) + more.In(column)
  {}

  lemma {:induction false} SumUpdate(us: seq<Usage>, m: nat, u: Usage, column: Column)
    requires m < |us|
    ensures Sum(us[m := u], column) + us[m].In(column) == Sum(us, column) + u.In(column)
  {
    var after := us[m := u];
    if m == 0 {
      assert after[1..] == us[1..];
    } else {
      assert after[1..] == us[1..][m - 1 := u];
      SumUpdate(us[1..], m - 1, u, column);
    }
  }

  lemma {:induction false} PendingUpdate(workers: seq<Worker>, w: nat, worker: Worker, column: Column)
    requires w < |workers|
    ensures PendingAll(workers[w := worker], column) + Pending(workers[w], column)
         == PendingAll(workers, column) + Pending(worker, column)
  {
    hide Pending;
    var after := workers[w := worker];
    if w == 0 {
      assert after[1..] == workers[1..];
    } else {
      assert after[1..] == workers[1..][w - 1 := worker];
      PendingUpdate(workers[1..], w - 1, worker, column);
    }
  }

  lemma {:induction false} NothingCharged(n: nat, column: Column)
    ensures Sum(Zeros(n), column) == 0.0 && PendingAll(AllIdle(n), column) == 0.0
  {
    if n > 0 {
      NothingCharged(n - 1, column);
      assert Zeros(n)[1..] == Zeros(n - 1) && AllIdle(n)[1..] == AllIdle(n - 1);
    }
  }

  lemma StepConserves(b: Budgets, s: System, w: nat, event: Event, column: Column)
    requires w < |s.workers| && |s.models| == |b.models| && Next(b, s, w, event).Some?
    requires Sum(s.models, column) == s.run.In(column) + PendingAll(s.workers, column)
    ensures var s' := Next(b, s, w, event).value;
      Sum(s'.models, column) == s'.run.In(column) + PendingAll(s'.workers, column)
  {
    hide Headroom, Sum, PendingAll;
    var s', worker := Next(b, s, w, event).value, s.workers[w];
    PendingUpdate(s.workers, w, s'.workers[w], column);
    assert s'.workers == s.workers[w := s'.workers[w]];
    if event.ChargeModel? {
      var m := worker.model;
      PlusAdds(s.models[m], event.usage, column);
      SumUpdate(s.models, m, s.models[m].Plus(event.usage), column);
    } else if event.ChargeRun? {
      PlusAdds(s.run, worker.usage, column);
    }
  }

  lemma {:induction false} Conserved(b: Budgets, schedule: seq<(nat, Event)>, column: Column)
    requires After(b, schedule).Some?
    ensures var s := After(b, schedule).value;
      Sum(s.models, column) == s.run.In(column) + PendingAll(s.workers, column)
  {
    if schedule == [] {
      NothingCharged(|b.models|, column);
      NothingCharged(b.setting.workers, column);
    } else {
      var init := schedule[..|schedule| - 1];
      var (w, event) := schedule[|schedule| - 1];
      Conserved(b, init, column);
      hide Next, Sum, PendingAll;
      StepConserves(b, After(b, init).value, w, event, column);
    }
  }

  /** A worker between its two charges holds a response, whose figures are not negative. */
  lemma {:induction false} ChargingIsWithin(b: Budgets, schedule: seq<(nat, Event)>)
    requires After(b, schedule).Some?
    ensures forall worker :: worker in After(b, schedule).value.workers && worker.Charging? ==>
      Within(worker.usage, b.setting.response)
  {
    if schedule != [] {
      hide Headroom, Within;
      ChargingIsWithin(b, schedule[..|schedule| - 1]);
    }
  }

  lemma {:induction false} NothingPendingIff(workers: seq<Worker>, most: Usage, column: Column)
    requires forall worker :: worker in workers && worker.Charging? ==> Within(worker.usage, most)
    ensures PendingAll(workers, column) >= 0.0
    ensures PendingAll(workers, column) == 0.0 <==>
      forall worker :: worker in workers && worker.Charging? ==> worker.usage.In(column) == 0.0
  {
    if workers != [] {
      assert workers == [workers[0]] + workers[1..];
      NothingPendingIff(workers[1..], most, column);
    }
  }

  /** In every interleaving and for every figure, the models' ledgers add up to the run's plus what
      workers have charged to a model but not yet to the run; so the run's total never leads, and
      the totals agree exactly when every worker between its two charges has a response that used
      nothing. */
  lemma UsageConserved(b: Budgets, schedule: seq<(nat, Event)>, column: Column)
    requires After(b, schedule).Some?
    ensures var s := After(b, schedule).value;
      && Sum(s.models, column) == s.run.In(column) + PendingAll(s.workers, column)
      && Sum(s.models, column) >= s.run.In(column)
      && (Sum(s.models, column) == s.run.In(column) <==>
          forall worker :: worker in s.workers && worker.Charging? ==> worker.usage.In(column) == 0.0)
  {
    hide After, PendingAll, Sum;
    Conserved(b, schedule, column);
    ChargingIsWithin(b, schedule);
    NothingPendingIff(After(b, schedule).value.workers, b.setting.response, column);
  }

  // ----- The bounds are reached, and the totals do disagree in between -----

  const NO_CAPS := Caps(None, None, None, None, None, None)

  /** One model without caps of its own. */
  function OneModel(s: Setting, run: Caps): Budgets { Budgets(s, run, [NO_CAPS]) }

  /** `n` more charges of one kind. */
  function Repeat(base: Usage, u: Usage, n: nat): Usage {
    if n == 0 then base else Repeat(base, u, n - 1).Plus(u)
  }

  lemma {:induction false} RepeatTwice(base: Usage, u: Usage, m: nat, n: nat)
    ensures Repeat(Repeat(base, u, m), u, n) == Repeat(base, u, m + n)
  {
    if n > 0 {
      RepeatTwice(base, u, m, n - 1);
    }
  }

  lemma {:induction false} RepeatIn(base: Usage, u: Usage, n: nat, column: Column)
    ensures Repeat(base, u, n).In(column) == base.In(column) + Scaled(n, u.In(column))
  {
    hide Scaled;
    OneMoreScaled(if n > 0 then n - 1 else 0, u.In(column));
    if n > 0 {
      RepeatIn(base, u, n - 1, column);
      hide Repeat;
      PlusAdds(Repeat(base, u, n - 1), u, column);
    }
  }

  /** Workers up to `from` are through, those up to `to` have all calls of their batch to make. */
  function Standing(s: Setting, from: nat, to: nat): seq<Worker>
    requires from <= to <= s.workers
  {
    seq(s.workers, i => if from <= i < to then Calling(0, s.batch) else Idle)
  }

  function Even(u: Usage, workers: seq<Worker>): System { System(u, [u], workers) }

  lemma AfterOneMore(b: Budgets, schedule: seq<(nat, Event)>, w: nat, event: Event)
    requires After(b, schedule).Some? && w < b.setting.workers
    ensures After(b, schedule + [(w, event)]) == Next(b, After(b, schedule).value, w, event)
  {
    assert (schedule + [(w, event)])[..|schedule|] == schedule;
  }

  /** Worker `w` goes from idle to calling. */
  lemma Ask(b: Budgets, schedule: seq<(nat, Event)>, w: nat, n: nat) returns (longer: seq<(nat, Event)>)
    requires After(b, schedule).Some? && w < b.setting.workers && n <= b.setting.batch && b.models == [NO_CAPS]
    requires var s := After(b, schedule).value; s.workers[w] == Idle && Headroom(b.run, s.run, n)
    ensures var s := After(b, schedule).value;
      After(b, longer) == Some(s.(workers := s.workers[w := Calling(0, n)]))
  {
    var s := After(b, schedule).value;
    NoCapsHasRoom(s.models[0], n);
    hide After, Headroom;
    AfterOneMore(b, schedule, w, AskModel(0, n));
    AfterOneMore(b, schedule + [(w, AskModel(0, n))], w, AskRun);
    longer := schedule + [(w, AskModel(0, n))] + [(w, AskRun)];
    assert s.workers[w := Asking(0, n)][w := Calling(0, n)] == s.workers[w := Calling(0, n)];
  }

  lemma NoCapsHasRoom(used: Usage, n: nat)
    ensures Headroom(NO_CAPS, used, n)
  {}

  /** Worker `w` charges a response to its model, then to the run. */
  lemma Bill(b: Budgets, schedule: seq<(nat, Event)>, w: nat, n: nat, u: Usage) returns (longer: seq<(nat, Event)>)
    requires After(b, schedule).Some? && w < b.setting.workers && |b.models| == 1 && Within(u, b.setting.response)
    requires After(b, schedule).value.workers[w] == Calling(0, n + 1)
    ensures var s := After(b, schedule).value;
      After(b, longer) == Some(System(s.run.Plus(u), [s.models[0].Plus(u)], s.workers[w := Calling(0, n)]))
  {
    hide After, Headroom;
    var s := After(b, schedule).value;
    AfterOneMore(b, schedule, w, ChargeModel(u));
    var first := schedule + [(w, ChargeModel(u))];
    AfterOneMore(b, first, w, ChargeRun);
    longer := first + [(w, ChargeRun)];
    assert s.models[0 := s.models[0].Plus(u)] == [s.models[0].Plus(u)];
    assert s.workers[w := Charging(0, n, u)][w := Calling(0, n)] == s.workers[w := Calling(0, n)];
  }

  /** Worker `w` charges all it may, and is idle again. */
  lemma {:induction false} BillAll(b: Budgets, schedule: seq<(nat, Event)>, used: Usage, workers: seq<Worker>, w: nat, n: nat, u: Usage)
    returns (longer: seq<(nat, Event)>)
    requires After(b, schedule) == Some(Even(used, workers)) && w < b.setting.workers == |workers|
    requires |b.models| == 1 && Within(u, b.setting.response) && workers[w] == Calling(0, n)
    ensures After(b, longer) == Some(Even(Repeat(used, u, n), workers[w := Idle]))
    decreases n
  {
    hide After, Headroom, Next;
    if n == 0 {
      AfterOneMore(b, schedule, w, Finish);
      longer := schedule + [(w, Finish)];
      FinishIs(b, Even(used, workers), w);
    } else {
      longer := Bill(b, schedule, w, n - 1, u);
      var next := workers[w := Calling(0, n - 1)];
      longer := BillAll(b, longer, used.Plus(u), next, w, n - 1, u);
      assert next[w := Idle] == workers[w := Idle];
      RepeatTwice(used, u, 1, n - 1);
      assert Repeat(used, u, 1) == used.Plus(u);
    }
  }

  lemma FinishIs(b: Budgets, s: System, w: nat)
    requires w < |s.workers| && |s.models| == |b.models| && s.workers[w].Calling?
    ensures Next(b, s, w, Finish) == Some(s.(workers := s.workers[w := Idle]))
  {}

  /** Single charges of `unit` one after another, the other workers idle. */
  lemma {:induction false} Warm(s: Setting, run: Caps, unit: Usage, n: nat) returns (schedule: seq<(nat, Event)>)
    requires s.workers > 0 && s.batch >= 1 && Within(unit, s.response)
    requires forall k :: 0 <= k < n ==> Headroom(run, Repeat(ZERO, unit, k), 1)
    ensures After(OneModel(s, run), schedule) == Some(Even(Repeat(ZERO, unit, n), Standing(s, 0, 0)))
    decreases n
  {
    hide After, Headroom, Next;
    var b := OneModel(s, run);
    if n == 0 {
      schedule := [];
      BeforeAnyStep(s, run);
    } else {
      schedule := Warm(s, run, unit, n - 1);
      var used, idle := Repeat(ZERO, unit, n - 1), Standing(s, 0, 0);
      schedule := Ask(b, schedule, 0, 1);
      var asked := idle[0 := Calling(0, 1)];
      schedule := BillAll(b, schedule, used, asked, 0, 1, unit);
      assert asked[0 := Idle] == idle;
      assert Repeat(used, unit, 1) == used.Plus(unit);
    }
  }

  lemma BeforeAnyStep(s: Setting, run: Caps)
    ensures After(OneModel(s, run), []) == Some(Even(ZERO, Standing(s, 0, 0)))
  {
    var start := Start(OneModel(s, run));
    assert start.models == [ZERO] && start.workers == Standing(s, 0, 0);
  }

  /** The gate lets worker after worker through, as long as nothing is charged in between. */
  lemma {:induction false} AllAsk(s: Setting, run: Caps, first: seq<(nat, Event)>, used: Usage, n: nat) returns (schedule: seq<(nat, Event)>)
    requires n <= s.workers && Headroom(run, used, s.batch)
    requires After(OneModel(s, run), first) == Some(Even(used, Standing(s, 0, 0)))
    ensures After(OneModel(s, run), schedule) == Some(Even(used, Standing(s, 0, n)))
    decreases n
  {
    hide After, Headroom, Next;
    schedule := first;
    if n > 0 {
      schedule := AllAsk(s, run, first, used, n - 1);
      schedule := Ask(OneModel(s, run), schedule, n - 1, s.batch);
      assert Standing(s, 0, n - 1)[n - 1 := Calling(0, s.batch)] == Standing(s, 0, n);
    }
  }

  lemma {:induction false} AllBill(s: Setting, run: Caps, first: seq<(nat, Event)>, used: Usage, from: nat) returns (schedule: seq<(nat, Event)>)
    requires from <= s.workers && s.response.cost >= 0.0
    requires After(OneModel(s, run), first) == Some(Even(used, Standing(s, 0, s.workers)))
    ensures After(OneModel(s, run), schedule)
         == Some(Even(Repeat(used, s.response, Times(from, s.batch)), Standing(s, from, s.workers)))
    decreases from
  {
    hide After, Headroom, Next;
    schedule := first;
    if from > 0 {
      schedule := AllBill(s, run, first, used, from - 1);
      var before, workers := Repeat(used, s.response, Times(from - 1, s.batch)), Standing(s, from - 1, s.workers);
      schedule := BillAll(OneModel(s, run), schedule, before, workers, from - 1, s.batch, s.response);
      RepeatTwice(used, s.response, Times(from - 1, s.batch), s.batch);
      assert workers[from - 1 := Idle] == Standing(s, from, s.workers);
    }
  }

  ghost predicate Reaches(b: Budgets, schedule: seq<(nat, Event)>, column: Column, figure: real) {
    After(b, schedule).Some? && After(b, schedule).value.run.In(column) == figure
  }

  /** Wherever single charges leave room for one more batch, every worker can still be let through
      and charge its whole batch in full. */
  lemma FullRound(s: Setting, run: Caps, unit: Usage, n: nat, column: Column) returns (schedule: seq<(nat, Event)>)
    requires s.workers > 0 && s.batch >= 1 && s.response.cost >= 0.0 && Within(unit, s.response)
    requires forall k :: 0 <= k < n ==> Headroom(run, Repeat(ZERO, unit, k), 1)
    requires Headroom(run, Repeat(ZERO, unit, n), s.batch)
    ensures Reaches(OneModel(s, run), schedule, column,
      Scaled(n, unit.In(column)) + Scaled(s.workers * s.batch, s.response.In(column)))
  {
    assert ZERO.In(column) == 0.0;
    hide After, Headroom, Scaled, Repeat, Times;
    var used := Repeat(ZERO, unit, n);
    schedule := Warm(s, run, unit, n);
    schedule := AllAsk(s, run, schedule, used, s.workers);
    schedule := AllBill(s, run, schedule, used, s.workers);
    TimesIs(s.workers, s.batch);
    RepeatIn(ZERO, unit, n, column);
    RepeatIn(used, s.response, s.workers * s.batch, column);
  }

  function CallCap(cap: nat): Caps { NO_CAPS.(calls := Some(cap)) }

  function CostCap(cap: real): Caps { NO_CAPS.(cost := Some(cap)) }

  function TokenCap(meter: Meter, cap: nat): Caps
    requires meter != Cost
  {
    if meter == Input then NO_CAPS.(input := Some(cap)) else NO_CAPS.(output := Some(cap))
  }

  lemma CallCapIs(cap: nat, used: Usage, n: nat)
    ensures Headroom(CallCap(cap), used, n) <==> used.calls + n <= cap
  {}

  lemma MeterCapIs(used: Usage, n: nat)
    ensures forall cap: nat, meter: Meter | meter != Cost :: Headroom(TokenCap(meter, cap), used, n) <==> used.Of(meter) < cap as real
    ensures forall cap: real :: Headroom(CostCap(cap), used, n) <==> used.cost < cap
  {
    forall cap: nat, meter: Meter | meter != Cost
      ensures Headroom(TokenCap(meter, cap), used, n) <==> used.Of(meter) < cap as real
    {
      assert Spent(TokenCap(meter, cap), used, meter) <==> used.Of(meter) >= cap as real;
    }
    forall cap: real
      ensures Headroom(CostCap(cap), used, n) <==> used.cost < cap
    {
      assert Spent(CostCap(cap), used, Cost) <==> used.cost >= cap;
    }
  }

  lemma ScaledByOne(n: nat)
    ensures Scaled(n, 1.0) == n as real
  {}

  lemma ScaledInt(n: nat, k: nat)
    ensures Scaled(n, k as real) == (n * k) as real
  {}

  lemma SingleCalls(cap: nat, k: nat, m: nat)
    ensures Headroom(CallCap(cap), Repeat(ZERO, Usage(1, 0, 0, 0.0), k), m) <==> k + m <= cap
  {
    RepeatIn(ZERO, Usage(1, 0, 0, 0.0), k, Calls);
    ScaledByOne(k);
    hide Headroom, Repeat, Scaled;
    CallCapIs(cap, Repeat(ZERO, Usage(1, 0, 0, 0.0), k), m);
  }

  lemma CallFigure(s: Setting, cap: nat)
    requires s.batch <= cap
    ensures Scaled(cap - s.batch, 1.0) + Scaled(s.workers * s.batch, s.response.calls as real)
         == (cap - s.batch + s.workers * s.batch * s.response.calls) as real
  {
    hide Scaled;
    ScaledByOne(cap - s.batch);
    ScaledInt(s.workers * s.batch, s.response.calls);
  }

  /** The bound on calls is exact, for every number of workers, batch and bill. */
  lemma CallBoundIsReached(s: Setting, cap: nat) returns (schedule: seq<(nat, Event)>)
    requires s.workers > 0 && 1 <= s.batch <= cap && s.response.calls >= 1 && s.response.cost >= 0.0
    ensures SensibleBudgets(OneModel(s, CallCap(cap)))
    ensures Reaches(OneModel(s, CallCap(cap)), schedule, Calls, (cap - s.batch + s.workers * s.batch * s.response.calls) as real)
  {
    var unit := Usage(1, 0, 0, 0.0);
    assert unit.In(Calls) == 1.0 && s.response.In(Calls) == s.response.calls as real;
    hide Headroom, Repeat, Reaches, Scaled, CallCap;
    forall k: nat, m: nat
      ensures Headroom(CallCap(cap), Repeat(ZERO, unit, k), m) <==> k + m <= cap
    {
      SingleCalls(cap, k, m);
    }
    schedule := FullRound(s, CallCap(cap), unit, cap - s.batch, Calls);
    CallFigure(s, cap);
    CallCapIsSensible(s, cap);
  }

  lemma CallCapIsSensible(s: Setting, cap: nat)
    requires s.workers > 0 && s.response.calls >= 1 && s.response.cost >= 0.0 && cap >= 1
    ensures SensibleBudgets(OneModel(s, CallCap(cap)))
  {}

  /** And so is the one on tokens: the last figure below the cap and a full round of responses. */
  lemma TokenBoundIsReached(s: Setting, meter: Meter, cap: nat) returns (schedule: seq<(nat, Event)>)
    requires s.workers > 0 && s.batch >= 1 && s.response.calls >= 1 && s.response.cost >= 0.0
    requires meter != Cost && s.response.Of(meter) >= 1.0 && cap >= 1
    ensures SensibleBudgets(OneModel(s, TokenCap(meter, cap)))
    ensures Reaches(OneModel(s, TokenCap(meter, cap)), schedule, Metered(meter),
      (cap - 1) as real + Scaled(s.workers * s.batch, s.response.Of(meter)))
  {
    var unit := if meter == Input then Usage(0, 1, 0, 0.0) else Usage(0, 0, 1, 0.0);
    forall k: nat, m
      ensures Headroom(TokenCap(meter, cap), Repeat(ZERO, unit, k), m) <==> k < cap
    {
      RepeatIn(ZERO, unit, k, Metered(meter));
      ScaledByOne(k);
      MeterCapIs(Repeat(ZERO, unit, k), m);
    }
    hide Headroom, Repeat, Reaches, Scaled;
    schedule := FullRound(s, TokenCap(meter, cap), unit, cap - 1, Metered(meter));
    ScaledByOne(cap - 1);
  }

  /** Cost comes as near to its bound as one likes: any figure below the cap and a full round. */
  lemma CostBoundIsApproached(s: Setting, cap: real, below: real) returns (schedule: seq<(nat, Event)>)
    requires s.workers > 0 && s.batch >= 1 && s.response.calls >= 1 && s.response.cost > 0.0 && 0.0 <= below < cap
    ensures SensibleBudgets(OneModel(s, CostCap(cap)))
    ensures Reaches(OneModel(s, CostCap(cap)), schedule, Metered(Cost), below + Scaled(s.workers * s.batch, s.response.cost))
  {
    var n, share := EvenShares(below, s.response.cost);
    var unit := Usage(0, 0, 0, share);
    forall k: nat, m | k <= n
      ensures Headroom(CostCap(cap), Repeat(ZERO, unit, k), m)
    {
      RepeatIn(ZERO, unit, k, Metered(Cost));
      ScaledGrows(k, n, share);
      MeterCapIs(Repeat(ZERO, unit, k), m);
    }
    hide Headroom, Repeat, Reaches, Scaled;
    schedule := FullRound(s, CostCap(cap), unit, n, Metered(Cost));
  }

  lemma ScaledGrows(k: nat, n: nat, x: real)
    requires k <= n && x >= 0.0
    ensures Scaled(k, x) <= Scaled(n, x)
  {}

  lemma EvenShares(total: real, most: real) returns (n: nat, share: real)
    requires total >= 0.0 && most > 0.0
    ensures 0.0 <= share <= most && Scaled(n, share) == total
  {
    var quotient := total / most;
    n := quotient.Floor + 1;
    share := total / n as real;
    assert quotient * most == total;
    AtMost(total, quotient, most, n as real);
  }

  lemma AtMost(total: real, quotient: real, most: real, n: real)
    requires 0.0 <= total && 0.0 <= quotient <= n && 0.0 < n && most > 0.0 && quotient * most == total
    ensures 0.0 <= total / n <= most && total / n * n == total
  {
    var share := total / n;
    assert share * n == total;
  }

  predicate Lags(b: Budgets, schedule: seq<(nat, Event)>) {
    After(b, schedule).Some? && After(b, schedule).value.run.In(Calls) < Sum(After(b, schedule).value.models, Calls)
  }

  /** Between a worker's two charges the run's total lags behind its models'. */
  lemma TotalsDisagreeMidCharge(s: Setting, cap: nat)
    requires s.workers > 0 && s.batch >= 1 && s.response.calls >= 1 && s.response.cost >= 0.0 && cap > 0
    ensures exists schedule :: Lags(OneModel(s, CallCap(cap)), schedule)
  {
    var b, u := OneModel(s, CallCap(cap)), Usage(1, 0, 0, 0.0);
    var idle := Standing(s, 0, 0);
    assert |idle| == s.workers && idle[0] == Idle;
    CallCapIs(cap, ZERO, 1);
    hide After, Headroom, Standing, CallCap;
    BeforeAnyStep(s, b.run);
    var schedule := Ask(b, [], 0, 1);
    AfterOneMore(b, schedule, 0, ChargeModel(u));
    ChargedToModelOnly(b, idle[0 := Calling(0, 1)], u);
    hide Next, Sum;
    assert Lags(b, schedule + [(0, ChargeModel(u))]);
  }

  lemma ChargedToModelOnly(b: Budgets, workers: seq<Worker>, u: Usage)
    requires |b.models| == 1 && workers != [] && workers[0] == Calling(0, 1) && Within(u, b.setting.response) && u.calls == 1
    ensures var next := Next(b, Even(ZERO, workers), 0, ChargeModel(u));
      next.Some? && next.value.run == ZERO && Sum(next.value.models, Calls) == 1.0
  {
    var models := Next(b, Even(ZERO, workers), 0, ChargeModel(u)).value.models;
    assert models == [ZERO.Plus(u)] && models[1..] == [];
  }
}
