/** The daily repayment audit: a loan moves from due to grace to missed, three
    times over, and is then in default.  Times are milliseconds. */
module RepaymentAudit {
  import opened Wrappers

  const DEFAULT_LATE_FEE := 50
  const DAY := 86_400_000
  const GRACE := 3 * DAY
  const TERM := 30 * DAY

  datatype Status = Approved | Disbursing | Repaying | Defaulted | OtherStatus(name: string)

  /** The columns of a loan row the audit reads or writes; `liabilityNotices` counts
      the formal demands sent to the guarantor. */
  datatype Loan = Loan(
    status: Status,
    deleted: bool,
    dueDate: Option<int>,
    gracePeriodEndsAt: Option<int>,
    missedPayments: int,
    lateFeeBalance: int,
    guarantorAddress: Option<string>,
    version: int,
    liabilityNotices: int)

  /** Where an exception may end a handler: before its row update took effect, or
      after it, in the lookups and notifications that follow. */
  datatype Fault = NoFault | UpdateFails | NoticeFails

  datatype Outcome = Untouched | Processed | Failed

  predicate Selected(l: Loan) {
    (l.status.Approved? || l.status.Disbursing? || l.status.Repaying?) && !l.deleted
  }

  predicate HasGuarantor(l: Loan) {
    l.guarantorAddress.Some? && l.guarantorAddress.value != ""
  }

  // ---- the row updates ----

  function EnteredGrace(l: Loan, at: int): Loan {
    l.(gracePeriodEndsAt := Some(at + GRACE), version := l.version + 1)
  }

  /** `missed` and `fees` are the counts the sweep read with the loan. */
  function Missed(l: Loan, at: int, missed: int, fees: int): Loan {
    var counted := l.(missedPayments := missed + 1, lateFeeBalance := fees + DEFAULT_LATE_FEE,
                      gracePeriodEndsAt := None, version := l.version + 1);
    if counted.missedPayments >= 3 then counted.(status := Defaulted) else counted.(dueDate := Some(at + TERM))
  }

  function DefaultedRow(l: Loan): Loan {
    l.(status := Defaulted, gracePeriodEndsAt := None, version := l.version + 1)
  }

  function LiabilityInvoked(l: Loan): Loan {
    if HasGuarantor(l) then l.(liabilityNotices := l.liabilityNotices + 1) else l
  }

  /** An update followed by notices, the demand on the guarantor among them if `demand`. */
  function Handled(before: Loan, after: Loan, demand: bool, fault: Fault): (Loan, Outcome) {
    match fault
    case UpdateFails => (before, Failed)
    case NoticeFails => (after, Failed)
    case NoFault => (if demand then LiabilityInvoked(after) else after, Processed)
  }

  /** One loan in one audit: `now` is read once for the sweep, `at` by the handler. */
  function AuditLoan(l: Loan, now: int, at: int, fault: Fault): (Loan, Outcome) {
    if !Selected(l) || l.dueDate.None? then (l, Untouched)
    else if l.missedPayments >= 3 then Handled(l, DefaultedRow(l), true, fault)
    else if now > l.dueDate.value && l.gracePeriodEndsAt.None? then Handled(l, EnteredGrace(l, at), false, fault)
    else if l.gracePeriodEndsAt.Some? && now > l.gracePeriodEndsAt.value then
      Handled(l, Missed(l, at, l.missedPayments, l.lateFeeBalance), l.missedPayments + 1 >= 3, fault)
    else (l, Untouched)
  }

  /** The loans the audit is about: three statuses, not deleted, with a payment scheduled. */
  predicate Concerns(l: Loan) {
    l.status in {Approved, Disbursing, Repaying} && !l.deleted && l.dueDate != None
  }

  /** A deleted loan, one of any other status, and one without a due date are never touched,
      whatever fails and whenever the audit runs. */
  lemma OthersAreLeftAlone(l: Loan, now: int, at: int, fault: Fault)
    requires l.deleted || l.status !in {Approved, Disbursing, Repaying} || l.dueDate == None
    ensures AuditLoan(l, now, at, fault) == (l, Untouched)
  {
  }

  /** The others change exactly so: past the due date without grace, three days of grace
      begin; past the grace, a payment is missed, which costs fifty and reschedules thirty
      days on, or is the third and default; otherwise nothing happens. */
  lemma AuditChangesExactly(l: Loan, now: int, at: int)
    requires Concerns(l) && l.missedPayments < 3
    ensures var (after, outcome) := AuditLoan(l, now, at, NoFault);
            if l.gracePeriodEndsAt == None then
              if now > l.dueDate.value then
                && outcome == Processed
                && after == l.(gracePeriodEndsAt := Some(at + 259_200_000), version := l.version + 1)
              else after == l && outcome == Untouched
            else if now > l.gracePeriodEndsAt.value then
              && outcome == Processed
              && after.missedPayments == l.missedPayments + 1 && after.lateFeeBalance == l.lateFeeBalance + 50
              && after.gracePeriodEndsAt == None && after.version == l.version + 1
              && after.guarantorAddress == l.guarantorAddress && !after.deleted
              && (if l.missedPayments == 2
                  then after.status == Defaulted && after.dueDate == l.dueDate
                  else after.status == l.status && after.dueDate == Some(at + 2_592_000_000)
                       && after.liabilityNotices == l.liabilityNotices)
            else after == l && outcome == Untouched
  {
  }

  /** A selected loan with three missed payments would be put in default at once. */
  lemma SafeguardChangesExactly(l: Loan, now: int, at: int)
    requires Concerns(l) && l.missedPayments >= 3
    ensures var (after, outcome) := AuditLoan(l, now, at, NoFault);
            && outcome == Processed
            && after.(liabilityNotices := l.liabilityNotices)
               == l.(status := Defaulted, gracePeriodEndsAt := None, version := l.version + 1)
  {
  }

  /** A failing handler is counted as a failure, and leaves the row as it was or as it would
      be but for the demand on the guarantor. */
  lemma FailuresChangeExactly(l: Loan, now: int, at: int, fault: Fault)
    requires fault != NoFault
    ensures var (good, done) := AuditLoan(l, now, at, NoFault);
            var (after, outcome) := AuditLoan(l, now, at, fault);
            && outcome == (if done == Processed then Failed else Untouched)
            && after == if fault == UpdateFails then l else good.(liabilityNotices := l.liabilityNotices)
  {
  }

  /** The demand is made on the third missed payment of a loan that has a guarantor. */
  lemma DemandChangesExactly(l: Loan, now: int, at: int)
    requires Concerns(l)
    ensures var (after, outcome) := AuditLoan(l, now, at, NoFault);
            after.liabilityNotices - l.liabilityNotices
            == if l.status != after.status && l.guarantorAddress != None && l.guarantorAddress != Some("") then 1 else 0
  {
  }

  // ---- the sweep over the rows ----

  class LoanRow {
    var status: Status
    var deleted: bool
    var dueDate: Option<int>
    var gracePeriodEndsAt: Option<int>
    var missedPayments: int
    var lateFeeBalance: int
    var guarantorAddress: Option<string>
    var version: int
    var liabilityNotices: int

    constructor (l: Loan)
      ensures Row() == l
    {
      status, deleted, dueDate, gracePeriodEndsAt := l.status, l.deleted, l.dueDate, l.gracePeriodEndsAt;
      missedPayments, lateFeeBalance, guarantorAddress := l.missedPayments, l.lateFeeBalance, l.guarantorAddress;
      version, liabilityNotices := l.version, l.liabilityNotices;
    }

    function Row(): Loan
      reads this
    {
      Loan(status, deleted, dueDate, gracePeriodEndsAt, missedPayments, lateFeeBalance, guarantorAddress, version,
           liabilityNotices)
    }

    /** Each handler returns false where the source throws. */
    method HandleEnterGracePeriod(at: int, fault: Fault) returns (ok: bool)
      modifies this
      ensures (Row(), if ok then Processed else Failed)
              == Handled(old(Row()), EnteredGrace(old(Row()), at), false, fault)
    {
      if fault.UpdateFails? {
        return false;
      }
      gracePeriodEndsAt, version := Some(at + GRACE), version + 1;
      return fault.NoFault?;
    }

    method HandleMissedPayment(at: int, currentMissedPayments: int, currentLateFee: int, fault: Fault)
      returns (ok: bool)
      modifies this
      ensures (Row(), if ok then Processed else Failed)
           == Handled(old(Row()), Missed(old(Row()), at, currentMissedPayments, currentLateFee),
                      currentMissedPayments + 1 >= 3, fault)
    {
      var newMissedPayments := currentMissedPayments + 1;
      var newLateFee := currentLateFee + DEFAULT_LATE_FEE;
      if fault.UpdateFails? {
        return false;
      }
      if newMissedPayments >= 3 {
        missedPayments, lateFeeBalance, gracePeriodEndsAt := newMissedPayments, newLateFee, None;
        status, version := Defaulted, version + 1;
        if fault.NoticeFails? {
          return false;
        }
        InvokeGuarantorLiability();
      } else {
        missedPayments, lateFeeBalance, gracePeriodEndsAt := newMissedPayments, newLateFee, None;
        dueDate, version := Some(at + TERM), version + 1;
        if fault.NoticeFails? {
          return false;
        }
      }
      return true;
    }

    method HandleDefault(fault: Fault) returns (ok: bool)
      modifies this
      ensures (Row(), if ok then Processed else Failed) == Handled(old(Row()), DefaultedRow(old(Row())), true, fault)
    {
      if fault.UpdateFails? {
        return false;
      }
      status, gracePeriodEndsAt, version := Defaulted, None, version + 1;
      if fault.NoticeFails? {
        return false;
      }
      InvokeGuarantorLiability();
      return true;
    }

    method InvokeGuarantorLiability()
      modifies this
      ensures Row() == LiabilityInvoked(old(Row()))
    {
      if guarantorAddress.None? || guarantorAddress.value == "" {
        return;
      }
      liabilityNotices := liabilityNotices + 1;
    }
  }

  /** The rows of a sweep and how often each outcome occurs among the first `n`. */
  function Outcomes(rows: seq<Loan>, now: int, at: seq<int>, faults: seq<Fault>, n: nat, which: Outcome): nat
    requires n <= |rows| == |at| == |faults|
  {
    if n == 0 then 0
    else
      var hit := AuditLoan(rows[n - 1], now, at[n - 1], faults[n - 1]).1 == which;
      Outcomes(rows, now, at, faults, n - 1, which) + if hit then 1 else 0
  }

  /** Every row has one outcome. */
  lemma {:induction false} OutcomesAddUp(rows: seq<Loan>, now: int, at: seq<int>, faults: seq<Fault>, n: nat)
    requires n <= |rows| == |at| == |faults|
    ensures Outcomes(rows, now, at, faults, n, Processed) + Outcomes(rows, now, at, faults, n, Failed)
            + Outcomes(rows, now, at, faults, n, Untouched) == n
  {
    if n > 0 {
      OutcomesAddUp(rows, now, at, faults, n - 1);
    }
  }

  /** One run of the job over distinct rows: every row takes its own audit step,
      whatever happens to the others, and the counters tell the outcomes apart. */
  method RunRepaymentAudit(loans: seq<LoanRow>, now: int, at: seq<int>, faults: seq<Fault>)
    returns (processed: nat, failures: nat)
    requires |loans| == |at| == |faults|
    requires forall i, j :: 0 <= i < j < |loans| ==> loans[i] != loans[j]
    modifies loans
    ensures forall i :: 0 <= i < |loans| ==>
              loans[i].Row() == AuditLoan(old(loans[i].Row()), now, at[i], faults[i]).0
    ensures processed == Outcomes(old(Rows(loans)), now, at, faults, |loans|, Processed)
    ensures failures == Outcomes(old(Rows(loans)), now, at, faults, |loans|, Failed)
  {
    processed, failures := 0, 0;
    ghost var before := Rows(loans);
    for i := 0 to |loans|
      invariant forall j :: 0 <= j < i ==> loans[j].Row() == AuditLoan(before[j], now, at[j], faults[j]).0
      invariant forall j :: i <= j < |loans| ==> loans[j].Row() == before[j]
      invariant processed == Outcomes(before, now, at, faults, i, Processed)
      invariant failures == Outcomes(before, now, at, faults, i, Failed)
    {
      assert forall j :: 0 <= j < |loans| && j != i ==> loans[j] != loans[i];
      var outcome := AuditRow(loans[i], now, at[i], faults[i]);
      if outcome.Processed? {
        processed := processed + 1;
      } else if outcome.Failed? {
        failures := failures + 1;
      }
    }
  }

  function Rows(loans: seq<LoanRow>): (rows: seq<Loan>)
    reads loans
    ensures |rows| == |loans| && forall i :: 0 <= i < |loans| ==> rows[i] == loans[i].Row()
  {
    seq(|loans|, i requires 0 <= i < |loans| reads loans => loans[i].Row())
  }

  /** The body of the sweep's loop. */
  method AuditRow(loan: LoanRow, now: int, at: int, fault: Fault) returns (outcome: Outcome)
    modifies loan
    ensures (loan.Row(), outcome) == AuditLoan(old(loan.Row()), now, at, fault)
    ensures !Concerns(old(loan.Row())) ==> loan.Row() == old(loan.Row()) && outcome == Untouched
  {
    if !Selected(loan.Row()) || loan.dueDate.None? {
      return Untouched;
    }
    var ok: bool;
    if loan.missedPayments >= 3 {
      ok := loan.HandleDefault(fault);
    } else if now > loan.dueDate.value && loan.gracePeriodEndsAt.None? {
      ok := loan.HandleEnterGracePeriod(at, fault);
    } else if loan.gracePeriodEndsAt.Some? && now > loan.gracePeriodEndsAt.value {
      ok := loan.HandleMissedPayment(at, loan.missedPayments, loan.lateFeeBalance, fault);
    } else {
      return Untouched;
    }
    return if ok then Processed else Failed;
  }

  // ---- one loan over a whole run of audits ----

  datatype Audit = Audit(now: int, at: int, fault: Fault)

  function Step(l: Loan, a: Audit): Loan {
    AuditLoan(l, a.now, a.at, a.fault).0
  }

  function Run(l: Loan, audits: seq<Audit>): Loan
    decreases |audits|
  {
    if audits == [] then l else Run(Step(l, audits[0]), audits[1..])
  }

  /** A loan with its first payment due and nothing missed. */
  predicate Fresh(l: Loan) {
    && Selected(l) && l.dueDate.Some? && l.gracePeriodEndsAt.None?
    && l.missedPayments == 0 && l.lateFeeBalance == 0 && l.liabilityNotices == 0
  }

  /** How many of the six steps to default the loan has taken. */
  function Stage(l: Loan): int {
    2 * l.missedPayments + if l.gracePeriodEndsAt.Some? then 1 else 0
  }

  /** What every audit of a loan keeps. */
  predicate Inv(l: Loan) {
    && l.dueDate.Some?
    && 0 <= l.missedPayments <= 3
    && l.lateFeeBalance == DEFAULT_LATE_FEE * l.missedPayments
    && (if l.missedPayments == 3 then l.status == Defaulted && l.gracePeriodEndsAt.None? else Selected(l))
    && 0 <= l.liabilityNotices <= 1
    && (l.liabilityNotices == 1 ==> l.missedPayments == 3 && HasGuarantor(l))
  }

  lemma StepKeepsInv(l: Loan, a: Audit)
    requires Inv(l)
    ensures Inv(Step(l, a))
    ensures Step(l, a).guarantorAddress == l.guarantorAddress
    ensures Step(l, a).version - l.version == Stage(Step(l, a)) - Stage(l)
    ensures Step(l, a) == l || Stage(Step(l, a)) == Stage(l) + 1
    ensures l.status == Defaulted ==> Step(l, a) == l
    ensures a.fault.NoFault? && (l.status == Defaulted && HasGuarantor(l) ==> l.liabilityNotices == 1) ==>
              (Step(l, a).status == Defaulted && HasGuarantor(l) ==> Step(l, a).liabilityNotices == 1)
  {
  }

  predicate Faultless(audits: seq<Audit>) {
    forall i :: 0 <= i < |audits| ==> audits[i].fault.NoFault?
  }

  /** From a fresh loan, whatever the audit times and wherever handlers fail: fees are
      fifty for each missed payment, default means exactly three missed payments, each
      change of the row is one of six steps, and the guarantor is asked at most once,
      and only in default. */
  lemma AuditsKeepTheBooks(l: Loan, audits: seq<Audit>)
    requires Fresh(l)
    ensures var r := Run(l, audits);
            && r.lateFeeBalance == DEFAULT_LATE_FEE * r.missedPayments
            && 0 <= r.missedPayments <= 3
            && (r.status == Defaulted <==> r.missedPayments == 3)
            && r.version - l.version == Stage(r) && 0 <= Stage(r) <= 6
            && r.liabilityNotices <= (if r.status == Defaulted && HasGuarantor(l) then 1 else 0)
            && (Faultless(audits) && r.status == Defaulted && HasGuarantor(l) ==> r.liabilityNotices == 1)
  {
    RunKeepsInv(l, audits);
  }

  lemma {:induction false} RunKeepsInv(l: Loan, audits: seq<Audit>)
    requires Inv(l)
    ensures var r := Run(l, audits);
            && Inv(r) && r.guarantorAddress == l.guarantorAddress
            && r.version - l.version == Stage(r) - Stage(l)
            && (Faultless(audits) && (l.status == Defaulted && HasGuarantor(l) ==> l.liabilityNotices == 1) ==>
                (r.status == Defaulted && HasGuarantor(l) ==> r.liabilityNotices == 1))
    decreases |audits|
  {
    if audits != [] {
      StepKeepsInv(l, audits[0]);
      RunKeepsInv(Step(l, audits[0]), audits[1..]);
      assert Faultless(audits) ==> audits[0].fault.NoFault? && Faultless(audits[1..]);
    }
  }

  /** Default is absorbing. */
  lemma {:induction false} DefaultIsAbsorbing(l: Loan, audits: seq<Audit>)
    requires l.status == Defaulted
    ensures Run(l, audits) == l
  {
    if audits != [] {
      DefaultIsAbsorbing(l, audits[1..]);
    }
  }

  /** The safeguard for a selected loan with three missed payments never runs. */
  lemma SafeguardIsUnreachable(l: Loan, audits: seq<Audit>)
    requires Fresh(l)
    ensures !(Selected(Run(l, audits)) && Run(l, audits).missedPayments >= 3)
  {
    RunKeepsInv(l, audits);
  }

  // ---- how long default takes ----

  /** The moment the next step waits for. */
  function Deadline(l: Loan): int
    requires l.dueDate.Some?
  {
    if l.gracePeriodEndsAt.Some? then l.gracePeriodEndsAt.value else l.dueDate.value
  }

  /** The least time between the first due date and the deadline of each stage. */
  function Offset(stage: int): int {
    if stage <= 0 then 0
    else Offset(stage - 1) + if stage % 2 == 1 then GRACE else TERM
  }

  lemma OffsetAtEnd()
    ensures Offset(5) == 69 * DAY
  {
    assert Offset(1) == GRACE && Offset(2) == GRACE + TERM;
    assert Offset(3) == 2 * GRACE + TERM && Offset(4) == 2 * GRACE + 2 * TERM;
  }

  /** Handlers read their own clock after the sweep has read its. */
  predicate ClockForward(audits: seq<Audit>) {
    forall i :: 0 <= i < |audits| ==> audits[i].now <= audits[i].at
  }

  predicate NotEarly(l: Loan, firstDue: int) {
    && Inv(l)
    && (l.missedPayments < 3 && Stage(l) == 0 ==> Deadline(l) == firstDue)
    && (l.missedPayments < 3 && Stage(l) > 0 ==> Deadline(l) > firstDue + Offset(Stage(l)))
  }

  lemma StageAdvances(l: Loan, a: Audit, firstDue: int)
    requires NotEarly(l, firstDue) && a.now <= a.at
    ensures NotEarly(Step(l, a), firstDue)
    ensures l.status != Defaulted && Step(l, a).status == Defaulted ==> a.now > firstDue + Offset(5)
  {
    StepKeepsInv(l, a);
    var next := Step(l, a);
    if next != l && next.status != Defaulted {
      assert Deadline(next) == a.at + if Stage(next) % 2 == 1 then GRACE else TERM;
    }
  }

  /** Audit `k` is the one that puts the loan in default. */
  predicate Defaults(l: Loan, audits: seq<Audit>, k: int)
    requires 0 <= k < |audits|
  {
    Run(l, audits[..k]).status != Defaulted && Run(l, audits[..k + 1]).status == Defaulted
  }

  lemma FirstOfPrefix(l: Loan, audits: seq<Audit>, k: nat)
    requires k < |audits|
    ensures Run(l, audits[..k + 1]) == Run(Step(l, audits[0]), audits[1..][..k])
  {
    assert audits[..k + 1][0] == audits[0] && audits[..k + 1][1..] == audits[1..][..k];
  }

  lemma DefaultsShift(l: Loan, audits: seq<Audit>, k: nat)
    requires k + 1 < |audits| && Defaults(Step(l, audits[0]), audits[1..], k)
    ensures Defaults(l, audits, k + 1)
  {
    FirstOfPrefix(l, audits, k);
    FirstOfPrefix(l, audits, k + 1);
  }

  lemma {:induction false} RunNotEarly(l: Loan, audits: seq<Audit>, firstDue: int)
    requires NotEarly(l, firstDue) && ClockForward(audits)
    ensures NotEarly(Run(l, audits), firstDue)
    decreases |audits|
  {
    if audits != [] {
      StageAdvances(l, audits[0], firstDue);
      assert forall i :: 0 <= i < |audits| - 1 ==> audits[1..][i] == audits[i + 1];
      RunNotEarly(Step(l, audits[0]), audits[1..], firstDue);
    }
  }

  lemma {:induction false} RunSplit(l: Loan, audits: seq<Audit>, n: nat)
    requires n <= |audits|
    ensures Run(l, audits) == Run(Run(l, audits[..n]), audits[n..])
    decreases |audits|
  {
    if n == 0 {
      assert audits[..0] == [] && audits[0..] == audits;
    } else {
      RunSplit(Step(l, audits[0]), audits[1..], n - 1);
      assert audits[..n][0] == audits[0] && audits[..n][1..] == audits[1..][..n - 1];
      assert audits[1..][n - 1..] == audits[n..];
    }
  }

  /** Lower bound: the audit that puts a fresh loan in default runs strictly more than 69
      days after its first due date, however often audits run and wherever they fail. */
  lemma DefaultIsNotEarly(l: Loan, audits: seq<Audit>, k: nat)
    requires Fresh(l) && ClockForward(audits) && k < |audits| && Defaults(l, audits, k)
    ensures audits[k].now > l.dueDate.value + 69 * DAY
  {
    var before, last := Run(l, audits[..k]), audits[k];
    RunNotEarly(l, audits[..k], l.dueDate.value);
    StageAdvances(before, last, l.dueDate.value);
    OffsetAtEnd();
    RunSplit(l, audits[..k + 1], k);
    assert audits[..k + 1][..k] == audits[..k] && audits[..k + 1][k..] == [last];
    assert Run(before, [last]) == Step(before, last);
  }

  /** A run that ends in default has one audit that put the loan there. */
  lemma {:induction false} DefaultHasItsAudit(l: Loan, audits: seq<Audit>) returns (k: nat)
    requires l.status != Defaulted && Run(l, audits).status == Defaulted
    ensures k < |audits| && Defaults(l, audits, k)
    decreases |audits|
  {
    var n := |audits| - 1;
    assert audits[..n + 1] == audits;
    if Run(l, audits[..n]).status == Defaulted {
      k := DefaultHasItsAudit(l, audits[..n]);
      assert audits[..n][..k] == audits[..k] && audits[..n][..k + 1] == audits[..k + 1];
    } else {
      k := n;
    }
  }

  lemma DefaultingStep(before: Loan, a: Audit)
    requires Inv(before) && before.status != Defaulted && Step(before, a).status == Defaulted
    ensures Step(before, a).liabilityNotices == if HasGuarantor(before) && a.fault.NoFault? then 1 else 0
  {
  }

  /** The audit that puts a fresh loan in default demands payment of the guarantor exactly
      if nothing fails in it; a demand that fails is never made up for. */
  lemma DemandIsMadeExactlyWhen(l: Loan, audits: seq<Audit>, k: nat)
    requires Fresh(l) && k < |audits| && Defaults(l, audits, k)
    ensures Run(l, audits).status == Defaulted
    ensures Run(l, audits).liabilityNotices == if HasGuarantor(l) && audits[k].fault.NoFault? then 1 else 0
  {
    var before := Run(l, audits[..k]);
    RunKeepsInv(l, audits[..k]);
    RunSplit(l, audits[..k + 1], k);
    assert audits[..k + 1][..k] == audits[..k] && audits[..k + 1][k..] == [audits[k]];
    assert Run(before, [audits[k]]) == Step(before, audits[k]);
    DefaultingStep(before, audits[k]);
    RunSplit(l, audits, k + 1);
    DefaultIsAbsorbing(Step(before, audits[k]), audits[k + 1..]);
  }

  /** Hence, for every run: a guarantor has been asked exactly if the loan is in default
      and the audit that put it there went through. */
  lemma GuarantorIsAskedExactlyWhen(l: Loan, audits: seq<Audit>)
    requires Fresh(l)
    ensures Run(l, audits).liabilityNotices == 1 <==>
            HasGuarantor(l) && exists k :: 0 <= k < |audits| && Defaults(l, audits, k) && audits[k].fault.NoFault?
  {
    AuditsKeepTheBooks(l, audits);
    forall k | 0 <= k < |audits| && Defaults(l, audits, k)
      ensures Run(l, audits).liabilityNotices == if HasGuarantor(l) && audits[k].fault.NoFault? then 1 else 0
    {
      DemandIsMadeExactlyWhen(l, audits, k);
    }
    if Run(l, audits).status == Defaulted {
      var k := DefaultHasItsAudit(l, audits);
    }
  }

  /** Audits come at most `gap` apart, and reach a loan at most `lag` after they start;
      any of them may fail. */
  predicate Paced(audits: seq<Audit>, gap: int, lag: int) {
    && (forall i :: 0 <= i < |audits| ==> audits[i].now <= audits[i].at <= audits[i].now + lag)
    && forall i :: 0 <= i < |audits| - 1 ==> audits[i].now <= audits[i + 1].now <= audits[i].now + gap
  }

  /** How many audits fail before their update takes effect. */
  function FailedUpdates(audits: seq<Audit>): nat {
    if audits == [] then 0 else (if audits[0].fault.UpdateFails? then 1 else 0) + FailedUpdates(audits[1..])
  }

  /** One gap for each of them. */
  function Lost(audits: seq<Audit>, gap: nat): nat {
    if audits == [] then 0 else (if audits[0].fault.UpdateFails? then gap else 0) + Lost(audits[1..], gap)
  }

  lemma {:induction false} LostIsProduct(audits: seq<Audit>, gap: nat)
    ensures Lost(audits, gap) == FailedUpdates(audits) * gap
  {
    if audits != [] {
      LostIsProduct(audits[1..], gap);
      var f := FailedUpdates(audits[1..]);
      assert (1 + f) * gap == gap + f * gap;
    }
  }

  /** What is still to come after the current deadline is noticed: for each later stage its
      length, a gap and a lag. */
  function Remaining(stage: int, gap: int, lag: int): int
    decreases 5 - stage
  {
    if stage >= 5 then 0
    else (if (stage + 1) % 2 == 1 then GRACE else TERM) + gap + lag + Remaining(stage + 1, gap, lag)
  }

  lemma RemainingAtStart(gap: int, lag: int)
    ensures Remaining(0, gap, lag) == 69 * DAY + 5 * gap + 5 * lag
  {
    assert Remaining(4, gap, lag) == GRACE + gap + lag;
    assert Remaining(3, gap, lag) == TERM + gap + lag + Remaining(4, gap, lag);
    assert Remaining(2, gap, lag) == GRACE + gap + lag + Remaining(3, gap, lag);
    assert Remaining(1, gap, lag) == TERM + gap + lag + Remaining(2, gap, lag);
  }

  lemma {:induction false} RemainingNonNegative(stage: int, gap: int, lag: int)
    requires gap >= 0 && lag >= 0
    ensures Remaining(stage, gap, lag) >= 0
    decreases 5 - stage
  {
    if stage < 5 {
      RemainingNonNegative(stage + 1, gap, lag);
    }
  }

  /** The latest moment of default, if the next audit comes within `slack` of the deadline. */
  function Latest(l: Loan, audits: seq<Audit>, gap: nat, lag: int, slack: int): int
    requires l.dueDate.Some?
  {
    Deadline(l) + slack + Remaining(Stage(l), gap, lag) + Lost(audits, gap)
  }

  lemma {:induction false} DefaultIsNotLateFrom(l: Loan, audits: seq<Audit>, gap: nat, lag: nat, slack: int)
    requires Inv(l) && l.status != Defaulted && 0 < gap <= slack && Paced(audits, gap, lag)
    requires audits != [] && audits[0].now <= Deadline(l) + slack
    requires audits[|audits| - 1].now >= Latest(l, audits, gap, lag, slack)
    ensures exists k ::
              0 <= k < |audits| && Defaults(l, audits, k) && audits[k].now <= Latest(l, audits, gap, lag, slack)
    decreases |audits|
  {
    var a, next, rest := audits[0], Step(l, audits[0]), audits[1..];
    assert Run(l, audits[..0]) == l;
    FirstOfPrefix(l, audits, 0);
    RemainingNonNegative(Stage(l), gap, lag);
    if next.status == Defaulted {
      assert Defaults(l, audits, 0);
    } else {
      var slack' := NextSlack(l, audits, gap, lag, slack);
      StepKeepsInv(l, a);
      PacedTail(audits, gap, lag);
      DefaultIsNotLateFrom(next, rest, gap, lag, slack');
      var k :| 0 <= k < |rest| && Defaults(next, rest, k) && rest[k].now <= Latest(next, rest, gap, lag, slack');
      DefaultsShift(l, audits, k);
    }
  }

  /** After an audit that does not end in default, the bound is still in force: an early
      audit changes nothing, a failed update costs a gap, and a step starts the next stage. */
  lemma NextSlack(l: Loan, audits: seq<Audit>, gap: nat, lag: nat, slack: int) returns (slack': int)
    requires Inv(l) && l.status != Defaulted && 0 < gap <= slack && Paced(audits, gap, lag)
    requires audits != [] && audits[0].now <= Deadline(l) + slack && Step(l, audits[0]).status != Defaulted
    requires audits[|audits| - 1].now >= Latest(l, audits, gap, lag, slack)
    ensures |audits| > 1 && gap <= slack' && Step(l, audits[0]).dueDate.Some?
    ensures var next := Step(l, audits[0]);
            && audits[1].now <= Deadline(next) + slack'
            && Latest(next, audits[1..], gap, lag, slack') <= Latest(l, audits, gap, lag, slack)
  {
    var a, next := audits[0], Step(l, audits[0]);
    StepKeepsInv(l, a);
    RemainingNonNegative(Stage(l), gap, lag);
    RemainingNonNegative(Stage(l) + 1, gap, lag);
    if a.now <= Deadline(l) {
      assert next == l;
      slack' := slack;
    } else if a.fault.UpdateFails? {
      assert next == l;
      slack' := slack + gap;
    } else {
      assert Deadline(next) == a.at + if Stage(next) % 2 == 1 then GRACE else TERM;
      slack' := gap;
    }
  }

  lemma PacedTail(audits: seq<Audit>, gap: int, lag: int)
    requires audits != [] && Paced(audits, gap, lag)
    ensures Paced(audits[1..], gap, lag)
  {
    var rest := audits[1..];
    assert forall i :: 0 <= i < |rest| ==> rest[i] == audits[i + 1];
  }

  lemma LatestOfFresh(l: Loan, audits: seq<Audit>, gap: nat, lag: nat)
    requires Fresh(l)
    ensures Latest(l, audits, gap, lag, gap) == l.dueDate.value + 69 * DAY + (6 + FailedUpdates(audits)) * gap + 5 * lag
  {
    var f := FailedUpdates(audits);
    assert (6 + f) * gap == 6 * gap + f * gap;
    LostIsProduct(audits, gap);
    RemainingAtStart(gap, lag);
  }

  lemma DefaultComesBy(l: Loan, audits: seq<Audit>, gap: nat, lag: nat, bound: int)
    requires Fresh(l) && gap > 0 && Paced(audits, gap, lag)
    requires audits != [] && audits[0].now <= l.dueDate.value + gap
    requires bound == Latest(l, audits, gap, lag, gap) <= audits[|audits| - 1].now
    ensures exists k ::
              0 <= k < |audits| && Defaults(l, audits, k) && l.dueDate.value + 69 * DAY < audits[k].now <= bound
  {
    DefaultIsNotLateFrom(l, audits, gap, lag, gap);
    var k :| 0 <= k < |audits| && Defaults(l, audits, k) && audits[k].now <= bound;
    DefaultIsNotEarly(l, audits, k);
  }

  /** Upper bound, whatever fails: audits at most `gap` apart, each reaching the loan within
      `lag`, put an unpaid loan in default no later than 69 days, six gaps and five lags after
      its first due date, and one more gap for each failed update; failed notices cost
      nothing.  And not before 69 days are over. */
  lemma DefaultComesInTime(l: Loan, audits: seq<Audit>, gap: nat, lag: nat)
    requires Fresh(l) && gap > 0 && Paced(audits, gap, lag)
    requires audits != [] && audits[0].now <= l.dueDate.value + gap
    requires audits[|audits| - 1].now >= l.dueDate.value + 69 * DAY + (6 + FailedUpdates(audits)) * gap + 5 * lag
    ensures exists k :: 0 <= k < |audits| && Defaults(l, audits, k)
                     && l.dueDate.value + 69 * DAY < audits[k].now
                        <= l.dueDate.value + 69 * DAY + (6 + FailedUpdates(audits)) * gap + 5 * lag
  {
    LatestOfFresh(l, audits, gap, lag);
    DefaultComesBy(l, audits, gap, lag, l.dueDate.value + 69 * DAY + (6 + FailedUpdates(audits)) * gap + 5 * lag);
  }
}
