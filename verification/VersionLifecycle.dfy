/**
 The life of one artifact version: the transition table, graph saves under an optimistic lock,
 validation and compilation, each of them atomic. A save is described by its guarded update alone;
 what it checks beforehand only rejects earlier.
 */
module VersionLifecycle {
  import opened Wrappers

  /** The canonical text of a rule graph. */
  type Graph = string

  datatype Status =
    | Draft | ValidationFailed | Validated | Compiled | InReview | ChangesRequested | Approved
    | DeployedToDev | DeployedToTest | DeployedToStaging | DeployedToProd | Suspended | Rejected | Retired

  datatype Row = Row(from: Option<Status>, to: Status)

  datatype Compilation = Compilation(checksum: string, graph: Graph)

  datatype Version = Version(
    tenant: nat, status: Status, lockVersion: nat, checksum: Option<string>, graph: Graph,
    compilations: seq<Compilation>, history: seq<Row>)

  datatype Report = Report(valid: bool, hasAst: bool, checksum: Option<string>)

  /** The validator and the compiler: each depends on the graph alone. */
  datatype Tools = Tools(report: Graph -> Report, compile: Graph -> string)

  datatype Op =
    | Transition(to: Status)
    | Save(tenant: nat, expected: nat, graph: Graph)
    | Validate(tenant: nat)
    | Compile(tenant: nat)

  datatype Rejection =
    | VersionNotFound | InvalidTransition | VersionImmutable | LockConflict | NotValidatable | NotCompilable
    | ValidationRequired | ChecksumMismatch | DuplicateCompilation

  // ---------------------------------------------------------------------------
  // The operations
  // ---------------------------------------------------------------------------

  function Allowed(from: Status): set<Status> {
    match from
    case Draft => {ValidationFailed, Validated, Retired}
    case ValidationFailed => {Draft, Validated, Retired}
    case Validated => {Draft, Compiled, ValidationFailed, Retired}
    case Compiled => {Validated, InReview, Retired}
    case InReview => {ChangesRequested, Rejected, Approved}
    case ChangesRequested => {Draft, Retired}
    case Approved => {DeployedToDev, DeployedToStaging, DeployedToTest, DeployedToProd, Retired}
    case DeployedToDev => {DeployedToTest, DeployedToStaging, Approved, Retired}
    case DeployedToTest => {DeployedToStaging, DeployedToProd, Approved, Retired}
    case DeployedToStaging => {DeployedToProd, Approved, Retired}
    case DeployedToProd => {Suspended, Approved, Retired}
    case Suspended => {DeployedToProd, Approved, Retired}
    case Rejected => {Retired}
    case Retired => {}
  }

  predicate Editable(s: Status) {
    s == Draft || s == ValidationFailed
  }

  function Move(v: Version, to: Status): Result<Version, Rejection> {
    if v.status == to then Success(v)
    else if to !in Allowed(v.status) then Failure(InvalidTransition)
    else Success(v.(status := to, history := v.history + [Row(Some(v.status), to)]))
  }

  function TrySave(v: Version, tenant: nat, expected: nat, graph: Graph): Result<Version, Rejection> {
    if v.tenant != tenant then Failure(VersionNotFound)
    else if !Editable(v.status) then Failure(VersionImmutable)
    else if v.lockVersion != expected then Failure(LockConflict)
    else Success(v.(status := Draft, lockVersion := expected + 1, checksum := None, graph := graph, compilations := []))
  }

  /** An absent checksum leaves the column as it was. */
  function TryValidate(tools: Tools, v: Version, tenant: nat): Result<Version, Rejection> {
    if v.tenant != tenant then Failure(VersionNotFound)
    else if v.status != Draft && v.status != ValidationFailed && v.status != Validated then Failure(NotValidatable)
    else
      var report := tools.report(v.graph);
      if report.valid then Move(v.(checksum := if report.checksum.Some? then report.checksum else v.checksum), Validated)
      else Move(v, ValidationFailed)
  }

  predicate HasCompilation(v: Version, checksum: string) {
    exists i | 0 <= i < |v.compilations| :: v.compilations[i].checksum == checksum
  }

  /** The database keeps one compilation per version and checksum. */
  function TryCompile(tools: Tools, v: Version, tenant: nat): Result<Version, Rejection> {
    var report := tools.report(v.graph);
    if v.tenant != tenant then Failure(VersionNotFound)
    else if v.status != Validated then Failure(NotCompilable)
    else if !report.valid || !report.hasAst || report.checksum.None? then Failure(ValidationRequired)
    else if v.checksum.Some? && v.checksum != report.checksum then Failure(ChecksumMismatch)
    else if HasCompilation(v, tools.compile(v.graph)) then Failure(DuplicateCompilation)
    else Move(v.(compilations := v.compilations + [Compilation(tools.compile(v.graph), v.graph)]), Compiled)
  }

  function Try(tools: Tools, v: Version, op: Op): Result<Version, Rejection> {
    match op
    case Transition(to) => Move(v, to)
    case Save(tenant, expected, graph) => TrySave(v, tenant, expected, graph)
    case Validate(tenant) => TryValidate(tools, v, tenant)
    case Compile(tenant) => TryCompile(tools, v, tenant)
  }

  /** A rejected operation changes nothing. */
  function Step(tools: Tools, v: Version, op: Op): Version {
    var r := Try(tools, v, op);
    if r.Success? then r.value else v
  }

  function Run(tools: Tools, v: Version, ops: seq<Op>): Version {
    if ops == [] then v else Step(tools, Run(tools, v, ops[..|ops| - 1]), ops[|ops| - 1])
  }

  /** A version as it is created or cloned. */
  function NewVersion(tenant: nat, graph: Graph): Version {
    Version(tenant, Draft, 1, None, graph, [], [Row(None, Draft)])
  }

  lemma RunPrefix(tools: Tools, v: Version, ops: seq<Op>, k: nat)
    requires k < |ops|
    ensures Run(tools, v, ops[..k + 1]) == Step(tools, Run(tools, v, ops[..k]), ops[k])
  {
    assert ops[..k + 1][..k] == ops[..k];
  }

  // ---------------------------------------------------------------------------
  // What each operation answers
  // ---------------------------------------------------------------------------

  /** The table read the other way: from where each status is entered */
  lemma EnteredExactly(from: Status, to: Status)
    ensures to in Allowed(from) <==>
              match to
              case Draft => from in {ValidationFailed, Validated, ChangesRequested}
              case ValidationFailed => from in {Draft, Validated}
              case Validated => from in {Draft, ValidationFailed, Compiled}
              case Compiled => from == Validated
              case InReview => from == Compiled
              case ChangesRequested => from == InReview
              case Rejected => from == InReview
              case Approved => from == InReview || InService(from)
              case DeployedToDev => from == Approved
              case DeployedToTest => from in {Approved, DeployedToDev}
              case DeployedToStaging => from in {Approved, DeployedToDev, DeployedToTest}
              case DeployedToProd => from in {Approved, DeployedToTest, DeployedToStaging, Suspended}
              case Suspended => from == DeployedToProd
              case Retired => from != InReview && from != Retired
  {
  }

  predicate OfAnotherTenant(v: Version, op: Op) {
    !op.Transition? && op.tenant != v.tenant
  }

  /** What keeps an operation of the right tenant from happening, if anything */
  function Obstacle(tools: Tools, v: Version, op: Op): Option<Rejection> {
    match op
    case Transition(to) => if to in {v.status} + Allowed(v.status) then None else Some(InvalidTransition)
    case Save(_, expected, _) =>
      if v.status !in {Draft, ValidationFailed} then Some(VersionImmutable)
      else if expected != v.lockVersion then Some(LockConflict)
      else None
    case Validate(_) => if v.status in {Draft, ValidationFailed, Validated} then None else Some(NotValidatable)
    case Compile(_) =>
      var report := tools.report(v.graph);
      if v.status != Validated then Some(NotCompilable)
      else if !(report.valid && report.hasAst && report.checksum.Some?) then Some(ValidationRequired)
      else if v.checksum !in {None, report.checksum} then Some(ChecksumMismatch)
      else if HasCompilation(v, tools.compile(v.graph)) then Some(DuplicateCompilation)
      else None
  }

  /** The answer to every operation: in particular a validation and a compilation never ask for a move that the table lacks. */
  lemma AnswersExactly(tools: Tools, v: Version, op: Op)
    ensures Try(tools, v, op).Success? <==> !OfAnotherTenant(v, op) && Obstacle(tools, v, op).None?
    ensures Try(tools, v, op).Failure? ==>
              Try(tools, v, op).error
              == if OfAnotherTenant(v, op) then VersionNotFound else Obstacle(tools, v, op).value
  {
    hide HasCompilation;
    if v.status == Validated {
      EnteredExactly(Validated, Compiled);
    }
  }

  /** The status in which an accepted operation leaves the version */
  function Target(tools: Tools, v: Version, op: Op): Status {
    match op
    case Transition(to) => to
    case Save(_, _, _) => Draft
    case Validate(_) => if tools.report(v.graph).valid then Validated else ValidationFailed
    case Compile(_) => Compiled
  }

  /** The row of history for a change of status; none if there is no change */
  function MoveRow(from: Status, to: Status): seq<Row> {
    if from == to then [] else [Row(Some(from), to)]
  }

  /** What an accepted operation leaves: only a save changes graph and lock, only a validation sets the checksum. */
  lemma AcceptedEffect(tools: Tools, v: Version, op: Op)
    requires Try(tools, v, op).Success?
    ensures var after := Step(tools, v, op);
            var report := tools.report(v.graph);
            && after.status == Target(tools, v, op)
            && after.tenant == v.tenant
            && after.graph == (if op.Save? then op.graph else v.graph)
            && after.lockVersion == v.lockVersion + (if op.Save? then 1 else 0)
            && (op.Save? ==> after.checksum == None && after.compilations == [] && after.history == v.history)
            && (op.Validate? && report.valid && report.checksum.Some? ==> after.checksum == report.checksum)
            && (op.Transition? || op.Compile? || (op.Validate? && !(report.valid && report.checksum.Some?)) ==>
                  after.checksum == v.checksum)
            && (op.Compile? ==> after.compilations == v.compilations + [Compilation(tools.compile(v.graph), v.graph)])
            && (op.Transition? || op.Validate? ==> after.compilations == v.compilations)
            && (!op.Save? ==> after.history == v.history + MoveRow(v.status, after.status))
  {
    hide HasCompilation, Allowed;
  }

  // ---------------------------------------------------------------------------
  // The version is what was saved and what the validator said
  // ---------------------------------------------------------------------------

  predicate SaveAccepted(tools: Tools, v: Version, op: Op) {
    op.Save? && Try(tools, v, op).Success?
  }

  /** The graph of the last accepted save, or the one of the creation */
  function LastSaved(tools: Tools, v: Version, ops: seq<Op>): Graph {
    if ops == [] then v.graph
    else
      var before := ops[..|ops| - 1];
      if SaveAccepted(tools, Run(tools, v, before), ops[|ops| - 1]) then ops[|ops| - 1].graph
      else LastSaved(tools, v, before)
  }

  /** Over every run the graph is that of the last accepted save, whatever else is done to the version. */
  lemma {:induction false} GraphIsLastSaved(tools: Tools, v: Version, ops: seq<Op>)
    ensures Run(tools, v, ops).graph == LastSaved(tools, v, ops)
    ensures Run(tools, v, ops).tenant == v.tenant
  {
    hide Try;
    if ops != [] {
      var before := ops[..|ops| - 1];
      GraphIsLastSaved(tools, v, before);
      var w, op := Run(tools, v, before), ops[|ops| - 1];
      if Try(tools, w, op).Success? {
        AcceptedEffect(tools, w, op);
      }
    }
  }

  /** The callers of `transition` leave the verdicts of the validator to `validate`. */
  predicate OnlyValidateJudges(ops: seq<Op>) {
    forall i | 0 <= i < |ops| :: ops[i] != Transition(Validated) && ops[i] != Transition(ValidationFailed)
  }

  /** The status and the checksum say what the validator says of the graph that is there. */
  predicate Judged(tools: Tools, v: Version) {
    var report := tools.report(v.graph);
    && (v.status == Validated ==> report.valid && (report.checksum.Some? ==> v.checksum == report.checksum))
    && (v.status == ValidationFailed ==> !report.valid)
  }

  lemma StepKeepsJudged(tools: Tools, v: Version, op: Op)
    requires Judged(tools, v) && op != Transition(Validated) && op != Transition(ValidationFailed)
    ensures Judged(tools, Step(tools, v, op))
  {
    hide Try;
    if Try(tools, v, op).Success? {
      AcceptedEffect(tools, v, op);
    }
  }

  /**
   Over every run a version counts as validated, or as failed, only for the graph it holds: saving sets it back,
   and a validation that passes leaves the checksum of that graph.
   */
  lemma {:induction false} StatusIsTheVerdict(tools: Tools, tenant: nat, graph: Graph, ops: seq<Op>)
    requires OnlyValidateJudges(ops)
    ensures Judged(tools, Run(tools, NewVersion(tenant, graph), ops))
  {
    hide Step, Judged;
    if ops == [] {
      NewVersionIsJudged(tools, tenant, graph);
    } else {
      var before := ops[..|ops| - 1];
      assert OnlyValidateJudges(before);
      StatusIsTheVerdict(tools, tenant, graph, before);
      StepKeepsJudged(tools, Run(tools, NewVersion(tenant, graph), before), ops[|ops| - 1]);
    }
  }

  lemma NewVersionIsJudged(tools: Tools, tenant: nat, graph: Graph)
    ensures Judged(tools, NewVersion(tenant, graph))
  {
  }

  // ---------------------------------------------------------------------------
  // What was submitted is what is approved and deployed
  // ---------------------------------------------------------------------------

  /** The graph at the last move into review. */
  function LastSubmitted(tools: Tools, v: Version, ops: seq<Op>): Option<Graph> {
    if ops == [] then None
    else
      var before, after := Run(tools, v, ops[..|ops| - 1]), Run(tools, v, ops);
      if before.status != InReview && after.status == InReview then Some(after.graph)
      else LastSubmitted(tools, v, ops[..|ops| - 1])
  }

  predicate InService(s: Status) {
    s == DeployedToDev || s == DeployedToTest || s == DeployedToStaging || s == DeployedToProd || s == Suspended
  }

  predicate Governed(s: Status) {
    s == Approved || InService(s)
  }

  /** A row into review immediately followed by its approval. */
  predicate ReviewedAt(history: seq<Row>, i: int) {
    0 < i < |history| && history[i] == Row(Some(InReview), Approved) && history[i - 1].to == InReview
  }

  ghost predicate PassedReview(history: seq<Row>) {
    exists i :: ReviewedAt(history, i)
  }

  ghost predicate ReviewInv(v: Version, submitted: Option<Graph>) {
    && v.history != []
    && (v.status == InReview ==> v.history[|v.history| - 1].to == InReview)
    && (v.status == InReview || Governed(v.status) ==> submitted == Some(v.graph))
    && (Governed(v.status) ==> PassedReview(v.history))
  }

  lemma MoveKeepsReview(v: Version, submitted: Option<Graph>, to: Status)
    requires ReviewInv(v, submitted) && Move(v, to).Success?
    ensures ReviewInv(Move(v, to).value, if v.status != InReview && to == InReview then Some(v.graph) else submitted)
  {
    var after := Move(v, to).value;
    if v.status == InReview && to == Approved {
      assert ReviewedAt(after.history, |v.history|);
    } else if Governed(v.status) {
      var i :| ReviewedAt(v.history, i);
      assert ReviewedAt(after.history, i);
    }
  }

  lemma StepKeepsReview(tools: Tools, v: Version, submitted: Option<Graph>, op: Op)
    requires ReviewInv(v, submitted)
    ensures ReviewInv(Step(tools, v, op),
                      if v.status != InReview && Step(tools, v, op).status == InReview then Some(Step(tools, v, op).graph)
                      else submitted)
  {
    hide ReviewInv;
    match op
    case Transition(to) =>
      if Move(v, to).Success? { MoveKeepsReview(v, submitted, to); }
    case Validate(tenant) =>
      if TryValidate(tools, v, tenant).Success? { ValidateKeepsReview(tools, v, submitted, tenant); }
    case Compile(tenant) =>
      if TryCompile(tools, v, tenant).Success? { CompileKeepsReview(tools, v, submitted, tenant); }
    case Save(tenant, expected, graph) =>
      if TrySave(v, tenant, expected, graph).Success? { SaveKeepsReview(v, submitted, tenant, expected, graph); }
  }

  lemma ValidateKeepsReview(tools: Tools, v: Version, submitted: Option<Graph>, tenant: nat)
    requires ReviewInv(v, submitted) && TryValidate(tools, v, tenant).Success?
    ensures ReviewInv(TryValidate(tools, v, tenant).value, submitted)
  {
  }

  lemma CompileKeepsReview(tools: Tools, v: Version, submitted: Option<Graph>, tenant: nat)
    requires ReviewInv(v, submitted) && TryCompile(tools, v, tenant).Success?
    ensures ReviewInv(TryCompile(tools, v, tenant).value, submitted)
  {
  }

  lemma SaveKeepsReview(v: Version, submitted: Option<Graph>, tenant: nat, expected: nat, graph: Graph)
    requires ReviewInv(v, submitted) && TrySave(v, tenant, expected, graph).Success?
    ensures ReviewInv(TrySave(v, tenant, expected, graph).value, submitted)
  {
  }

  lemma {:induction false} RunKeepsReview(tools: Tools, v: Version, ops: seq<Op>)
    requires ReviewInv(v, None)
    ensures ReviewInv(Run(tools, v, ops), LastSubmitted(tools, v, ops))
  {
    if ops != [] {
      var before := ops[..|ops| - 1];
      RunKeepsReview(tools, v, before);
      StepKeepsReview(tools, Run(tools, v, before), LastSubmitted(tools, v, before), ops[|ops| - 1]);
    }
  }

  /** An approved, deployed or suspended version was reviewed, and is the graph that was submitted. */
  lemma DeployedGraphWasReviewed(tools: Tools, tenant: nat, graph: Graph, ops: seq<Op>)
    ensures var end := Run(tools, NewVersion(tenant, graph), ops);
            Governed(end.status) ==>
              && PassedReview(end.history)
              && LastSubmitted(tools, NewVersion(tenant, graph), ops) == Some(end.graph)
  {
    RunKeepsReview(tools, NewVersion(tenant, graph), ops);
  }

  // ---------------------------------------------------------------------------
  // Approval is final
  // ---------------------------------------------------------------------------

  predicate Frozen(s: Status) {
    Governed(s) || s == Retired
  }

  predicate SameContents(a: Version, b: Version) {
    a.graph == b.graph && a.lockVersion == b.lockVersion && a.checksum == b.checksum && a.compilations == b.compilations
  }

  /** Once approved, whatever is tried: no save is accepted and nothing but the status moves. */
  lemma {:induction false} ApprovedIsNeverEdited(tools: Tools, v: Version, ops: seq<Op>)
    requires Frozen(v.status)
    ensures Frozen(Run(tools, v, ops).status) && SameContents(Run(tools, v, ops), v)
    ensures forall tenant, expected, graph :: Try(tools, Run(tools, v, ops), Save(tenant, expected, graph)).Failure?
  {
    if ops != [] {
      ApprovedIsNeverEdited(tools, v, ops[..|ops| - 1]);
      FrozenStep(tools, Run(tools, v, ops[..|ops| - 1]), ops[|ops| - 1]);
    }
  }

  lemma FrozenStep(tools: Tools, v: Version, op: Op)
    requires Frozen(v.status)
    ensures Frozen(Step(tools, v, op).status) && SameContents(Step(tools, v, op), v)
  {
  }

  // ---------------------------------------------------------------------------
  // One save per lock version
  // ---------------------------------------------------------------------------

  function AcceptedSaves(tools: Tools, v: Version, ops: seq<Op>): nat {
    if ops == [] then 0
    else
      var before := ops[..|ops| - 1];
      AcceptedSaves(tools, v, before) + if SaveAccepted(tools, Run(tools, v, before), ops[|ops| - 1]) then 1 else 0
  }

  /** The lock version counts the accepted saves. */
  lemma {:induction false} LockCountsSaves(tools: Tools, v: Version, ops: seq<Op>)
    ensures Run(tools, v, ops).lockVersion == v.lockVersion + AcceptedSaves(tools, v, ops)
  {
    if ops != [] {
      var before := ops[..|ops| - 1];
      LockCountsSaves(tools, v, before);
      LockStep(tools, Run(tools, v, before), ops[|ops| - 1]);
    }
  }

  lemma LockStep(tools: Tools, v: Version, op: Op)
    ensures Step(tools, v, op).lockVersion == v.lockVersion + if SaveAccepted(tools, v, op) then 1 else 0
    ensures SaveAccepted(tools, v, op) ==> op.expected == v.lockVersion
  {
  }

  /** After any run the next save is accepted exactly from its tenant, on an editable version, with one more than the saves so far. */
  lemma SavesAreNumbered(tools: Tools, tenant: nat, graph: Graph, ops: seq<Op>, next: Op)
    requires next.Save?
    ensures var v := NewVersion(tenant, graph);
            var end := Run(tools, v, ops);
            SaveAccepted(tools, end, next) <==>
              && next.tenant == tenant
              && (end.status == Draft || end.status == ValidationFailed)
              && next.expected == 1 + AcceptedSaves(tools, v, ops)
  {
    hide Try, Run, AcceptedSaves;
    var v := NewVersion(tenant, graph);
    AnswersExactly(tools, Run(tools, v, ops), next);
    LockCountsSaves(tools, v, ops);
    GraphIsLastSaved(tools, v, ops);
  }

  lemma {:induction false} SavesGrow(tools: Tools, v: Version, ops: seq<Op>, k: nat)
    requires k <= |ops|
    ensures AcceptedSaves(tools, v, ops[..k]) <= AcceptedSaves(tools, v, ops)
  {
    if k < |ops| {
      SavesGrow(tools, v, ops[..|ops| - 1], k);
      assert ops[..|ops| - 1][..k] == ops[..k];
    } else {
      assert ops[..k] == ops;
    }
  }

  /** Of the saves that hold one lock version, at most one is ever accepted. */
  lemma OneSavePerLock(tools: Tools, v: Version, ops: seq<Op>, i: nat, k: nat)
    requires i < k < |ops|
    requires SaveAccepted(tools, Run(tools, v, ops[..i]), ops[i]) && SaveAccepted(tools, Run(tools, v, ops[..k]), ops[k])
    ensures ops[i].expected < ops[k].expected
  {
    LockStep(tools, Run(tools, v, ops[..i]), ops[i]);
    LockStep(tools, Run(tools, v, ops[..k]), ops[k]);
    RunPrefix(tools, v, ops, i);
    LockCountsSaves(tools, v, ops[..i + 1]);
    LockCountsSaves(tools, v, ops[..k]);
    SavesGrow(tools, v, ops[..k], i + 1);
    assert ops[..k][..i + 1] == ops[..i + 1];
  }

  // ---------------------------------------------------------------------------
  // The history
  // ---------------------------------------------------------------------------

  predicate Linked(history: seq<Row>, i: int)
    requires 0 < i < |history|
  {
    history[i].from == Some(history[i - 1].to)
  }

  function Gaps(history: seq<Row>): nat {
    if |history| < 2 then 0
    else Gaps(history[..|history| - 1]) + if Linked(history, |history| - 1) then 0 else 1
  }

  /** Every row is a move of the table; a row that does not continue the previous one resumes a failed validation as a draft. */
  predicate RowFits(history: seq<Row>, i: int)
    requires 0 <= i < |history|
  {
    if i == 0 then history[i].from.None?
    else
      && history[i].from.Some? && history[i].to in Allowed(history[i].from.value)
      && (Linked(history, i) || (history[i - 1].to == ValidationFailed && history[i].from == Some(Draft)))
  }

  predicate Unrecorded(v: Version)
    requires v.history != []
  {
    v.history[|v.history| - 1].to != v.status
  }

  ghost predicate HistoryInv(v: Version) {
    && v.history != []
    && (forall i | 0 <= i < |v.history| :: RowFits(v.history, i))
    && (Unrecorded(v) ==> v.status == Draft && v.history[|v.history| - 1].to == ValidationFailed)
  }

  predicate ReopensFailed(tools: Tools, v: Version, op: Op) {
    SaveAccepted(tools, v, op) && v.status == ValidationFailed
  }

  function Reopenings(tools: Tools, v: Version, ops: seq<Op>): nat {
    if ops == [] then 0
    else
      var before := ops[..|ops| - 1];
      Reopenings(tools, v, before) + if ReopensFailed(tools, Run(tools, v, before), ops[|ops| - 1]) then 1 else 0
  }

  function Open(v: Version): nat
    requires v.history != []
  {
    if Unrecorded(v) then 1 else 0
  }

  lemma MoveKeepsHistory(v: Version, to: Status)
    requires HistoryInv(v) && Move(v, to).Success?
    ensures HistoryInv(Move(v, to).value)
    ensures Gaps(Move(v, to).value.history) + Open(Move(v, to).value) == Gaps(v.history) + Open(v)
  {
    hide Allowed;
    var after := Move(v, to).value;
    if v.status != to {
      assert after.history[..|after.history| - 1] == v.history;
      forall i | 0 <= i < |v.history|
        ensures RowFits(after.history, i)
      {
        assert RowFits(v.history, i);
      }
    }
  }

  lemma SaveKeepsHistory(v: Version, tenant: nat, expected: nat, graph: Graph)
    requires HistoryInv(v) && TrySave(v, tenant, expected, graph).Success?
    ensures HistoryInv(TrySave(v, tenant, expected, graph).value)
    ensures Gaps(TrySave(v, tenant, expected, graph).value.history) + Open(TrySave(v, tenant, expected, graph).value)
         == Gaps(v.history) + Open(v) + if v.status == ValidationFailed then 1 else 0
  {
    hide Allowed, RowFits, Gaps;
  }

  /** The history depends on the status and the rows alone. */
  lemma SameHistory(v: Version, w: Version)
    requires HistoryInv(v) && w.status == v.status && w.history == v.history
    ensures HistoryInv(w) && Open(w) == Open(v)
  {
    hide Allowed, RowFits;
  }

  lemma StepKeepsHistory(tools: Tools, v: Version, op: Op)
    requires HistoryInv(v)
    ensures HistoryInv(Step(tools, v, op))
    ensures Gaps(Step(tools, v, op).history) + Open(Step(tools, v, op))
         == Gaps(v.history) + Open(v) + if ReopensFailed(tools, v, op) then 1 else 0
  {
    hide Allowed, RowFits, Gaps, Open, Move;
    assert v.history != [];
    match op
    case Transition(to) =>
      if Move(v, to).Success? { MoveKeepsHistory(v, to); }
    case Validate(tenant) =>
      if TryValidate(tools, v, tenant).Success? {
        var report := tools.report(v.graph);
        if report.valid {
          var w := v.(checksum := if report.checksum.Some? then report.checksum else v.checksum);
          SameHistory(v, w);
          MoveKeepsHistory(w, Validated);
        } else {
          MoveKeepsHistory(v, ValidationFailed);
        }
      }
    case Compile(tenant) =>
      if TryCompile(tools, v, tenant).Success? {
        var w := v.(compilations := v.compilations + [Compilation(tools.compile(v.graph), v.graph)]);
        SameHistory(v, w);
        MoveKeepsHistory(w, Compiled);
      }
    case Save(tenant, expected, graph) =>
      if TrySave(v, tenant, expected, graph).Success? { SaveKeepsHistory(v, tenant, expected, graph); }
  }

  /**
   The history starts with the creation, holds only moves of the table, and links end to end except once
   for every accepted save of a version whose validation had failed.
   */
  lemma {:induction false} HistoryLinks(tools: Tools, tenant: nat, graph: Graph, ops: seq<Op>)
    ensures HistoryInv(Run(tools, NewVersion(tenant, graph), ops))
    ensures Gaps(Run(tools, NewVersion(tenant, graph), ops).history) + Open(Run(tools, NewVersion(tenant, graph), ops))
         == Reopenings(tools, NewVersion(tenant, graph), ops)
  {
    if ops != [] {
      HistoryLinks(tools, tenant, graph, ops[..|ops| - 1]);
      StepKeepsHistory(tools, Run(tools, NewVersion(tenant, graph), ops[..|ops| - 1]), ops[|ops| - 1]);
    }
  }

  // ---------------------------------------------------------------------------
  // What is compiled is what is reviewed
  // ---------------------------------------------------------------------------

  /** The callers of `transition` leave the move to COMPILED to `compile`. */
  predicate OnlyCompileCompiles(ops: seq<Op>) {
    forall i | 0 <= i < |ops| :: ops[i] != Transition(Compiled)
  }

  predicate PastCompilation(s: Status) {
    s == Compiled || s == InReview || s == ChangesRequested || s == Rejected || Governed(s)
  }

  ghost predicate CompilationInv(tools: Tools, v: Version) {
    && (v.checksum.Some? ==> v.checksum == tools.report(v.graph).checksum)
    && (v.compilations != [] ==>
          v.compilations == [Compilation(tools.compile(v.graph), v.graph)] && tools.report(v.graph).valid)
    && (PastCompilation(v.status) ==> v.compilations != [])
  }

  /** The only compilation a version can hold is the one it would produce again. */
  lemma HeldIsRepeated(tools: Tools, v: Version)
    requires CompilationInv(tools, v)
    ensures HasCompilation(v, tools.compile(v.graph)) <==> v.compilations != []
  {
    if v.compilations != [] {
      assert v.compilations[0] == Compilation(tools.compile(v.graph), v.graph);
    }
  }

  lemma StepKeepsCompilation(tools: Tools, v: Version, op: Op)
    requires CompilationInv(tools, v) && op != Transition(Compiled)
    ensures CompilationInv(tools, Step(tools, v, op))
  {
    hide HasCompilation;
    HeldIsRepeated(tools, v);
    match op
    case Transition(to) =>
      if Move(v, to).Success? { MoveKeepsCompilation(tools, v, to); }
    case Save(tenant, expected, graph) =>
    case Validate(tenant) =>
    case Compile(tenant) =>
  }

  lemma MoveKeepsCompilation(tools: Tools, v: Version, to: Status)
    requires CompilationInv(tools, v) && to != Compiled && Move(v, to).Success?
    ensures CompilationInv(tools, Move(v, to).value)
  {
    hide Allowed, PastCompilation;
    if to in Allowed(v.status) && PastCompilation(to) {
      EntersThroughCompile(v.status, to);
    }
  }

  /** COMPILED is the only way in. */
  lemma EntersThroughCompile(from: Status, to: Status)
    requires to in Allowed(from) && PastCompilation(to) && to != Compiled
    ensures PastCompilation(from)
  {
  }

  lemma {:induction false} RunKeepsCompilation(tools: Tools, tenant: nat, graph: Graph, ops: seq<Op>)
    requires OnlyCompileCompiles(ops)
    ensures CompilationInv(tools, Run(tools, NewVersion(tenant, graph), ops))
  {
    if ops != [] {
      assert OnlyCompileCompiles(ops[..|ops| - 1]);
      RunKeepsCompilation(tools, tenant, graph, ops[..|ops| - 1]);
      StepKeepsCompilation(tools, Run(tools, NewVersion(tenant, graph), ops[..|ops| - 1]), ops[|ops| - 1]);
    }
  }

  /** A version under review or in service has exactly one compilation: of the very graph it holds, found valid. */
  lemma ServedGraphWasCompiled(tools: Tools, tenant: nat, graph: Graph, ops: seq<Op>)
    requires OnlyCompileCompiles(ops)
    ensures var end := Run(tools, NewVersion(tenant, graph), ops);
            PastCompilation(end.status) ==>
              end.compilations == [Compilation(tools.compile(end.graph), end.graph)] && tools.report(end.graph).valid
  {
    RunKeepsCompilation(tools, tenant, graph, ops);
  }

  /**
   Exactly when a reached version compiles. The checksum guard never fires when operations are atomic; a
   version that already holds a compilation is refused, because it would be the same one.
   */
  lemma CompilesExactly(tools: Tools, tenant: nat, graph: Graph, ops: seq<Op>, caller: nat)
    requires OnlyCompileCompiles(ops)
    ensures var end := Run(tools, NewVersion(tenant, graph), ops);
            var report := tools.report(end.graph);
            var r := TryCompile(tools, end, caller);
            && r != Failure(ChecksumMismatch)
            && (r.Success? <==>
                  && caller == end.tenant && end.status == Validated
                  && report.valid && report.hasAst && report.checksum.Some? && end.compilations == [])
  {
    hide HasCompilation, Run;
    RunKeepsCompilation(tools, tenant, graph, ops);
    HeldIsRepeated(tools, Run(tools, NewVersion(tenant, graph), ops));
  }

  /** The table allows going back from COMPILED to VALIDATED, though no operation does: the same graph would not compile twice. */
  lemma RecompilationIsRefused(tools: Tools, v: Version)
    requires CompilationInv(tools, v) && v.status == Compiled
    ensures Step(tools, v, Transition(Validated)).status == Validated
    ensures TryCompile(tools, Step(tools, v, Transition(Validated)), v.tenant).Failure?
  {
    assert v.compilations[0].checksum == tools.compile(v.graph);
  }
}
