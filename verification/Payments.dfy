/**
 * Recording payments (`src/admin/billing.rs`, `src/billing/store.rs`). A request reads the
 * statement, refuses or answers from what it read, and only then runs a guarded update and reads
 * the row back; other requests may run between any two of those steps.
 */
module Payments {
  import opened Prelude
  import opened Timefmt
  import opened Status

  /** What a manager asks to record. The handler has already put "manager" for a blank recorder. */
  datatype Intent = Intent(recorder: string, reference: Option<string>, note: Option<string>)

  datatype Reply = NotFound | NotPayable | Already(payment: Payment) | Recorded(payment: Payment)

  function PaymentOf(intent: Intent, at: string): Payment {
    Payment(at, intent.recorder, intent.reference, intent.note)
  }

  function Find(bills: seq<Bill>, id: int): (r: Option<Bill>)
    ensures r.Some? ==> r.value in bills && r.value.id == id
    ensures r.None? ==> forall b :: b in bills ==> b.id != id
  {
    if bills == [] then None
    else if bills[0].id == id then Some(bills[0])
    else Find(bills[1..], id)
  }

  /** `UPDATE ... WHERE id = ? AND billing_mode = 'invoice' AND paid_at IS NULL`, on one row. */
  function PayRow(b: Bill, id: int, p: Payment): Bill {
    if b.id == id && b.mode == "invoice" && b.payment.None? then b.(payment := Some(p)) else b
  }

  function Pay(bills: seq<Bill>, id: int, p: Payment): seq<Bill> {
    seq(|bills|, i requires 0 <= i < |bills| => PayRow(bills[i], id, p))
  }

  /** The first read's answer: a refusal, the payment already there, or nothing, to go on. */
  function FirstRead(bills: seq<Bill>, id: int): Option<Reply> {
    match Find(bills, id)
    case None => Some(NotFound)
    case Some(b) =>
      if b.mode != "invoice" then Some(NotPayable)
      else if b.payment.Some? then Some(Already(b.payment.value))
      else None
  }

  /** The second read, after the update. */
  function ReadBack(bills: seq<Bill>, id: int): Reply {
    match Find(bills, id)
    case None => NotFound
    case Some(b) => if b.payment.None? then NotPayable else Recorded(b.payment.value)
  }

  class BillTable {
    var bills: seq<Bill>

    constructor ()
      ensures bills == []
    {
      bills := [];
    }

    /** One request with nothing in between. */
    method MarkPaid(id: int, intent: Intent, now: Instant) returns (reply: Reply)
      requires Legal(bills)
      modifies this
      ensures Legal(bills)
      ensures bills == if FirstRead(old(bills), id).None?
                       then Pay(old(bills), id, PaymentOf(intent, FormatTs(now))) else old(bills)
      ensures reply == match FirstRead(old(bills), id)
                       case Some(r) => r
                       case None => Recorded(PaymentOf(intent, FormatTs(now)))
    {
      var existing := FirstRead(bills, id);
      if existing.Some? {
        return existing.value;
      }
      var p := PaymentOf(intent, FormatTs(now));
      ghost var was := Find(bills, id).value;
      PayKeepsLegal(bills, id, p);
      PaidIsFound(bills, id, p, was);
      bills := Pay(bills, id, p);
      reply := ReadBack(bills, id);
    }
  }

  lemma PayKeepsLegal(bills: seq<Bill>, id: int, p: Payment)
    requires Legal(bills)
    ensures Legal(Pay(bills, id, p))
  {
    forall b | b in Pay(bills, id, p)
      ensures (b.mode == "invoice" || b.mode == "reconciliation") && b.total >= 0
      ensures b.mode == "invoice" || (b.dueAt.None? && b.payment.None?)
    {
      var i :| 0 <= i < |bills| && Pay(bills, id, p)[i] == b;
      assert bills[i] in bills;
    }
  }

  lemma OneBillPerId(bills: seq<Bill>, a: Bill, b: Bill)
    requires Legal(bills) && a in bills && b in bills && a.id == b.id
    ensures a == b
  {
  }

  lemma FindIs(bills: seq<Bill>, b: Bill)
    requires Legal(bills) && b in bills
    ensures Find(bills, b.id) == Some(b)
  {
    OneBillPerId(bills, Find(bills, b.id).value, b);
  }

  lemma PaidIsFound(bills: seq<Bill>, id: int, p: Payment, was: Bill)
    requires Legal(bills) && was in bills && was.id == id
    ensures Find(Pay(bills, id, p), id) == Some(PayRow(was, id, p))
  {
    PayKeepsLegal(bills, id, p);
    var i :| 0 <= i < |bills| && bills[i] == was;
    assert Pay(bills, id, p)[i] == PayRow(was, id, p);
    FindIs(Pay(bills, id, p), PayRow(was, id, p));
  }

  /**
   * What the two reads and the update do about a statement, off the table: the update fills the four
   * columns of an unpaid invoice of that id with what the request named, and changes nothing else.
   */
  lemma PaysExactly(bills: seq<Bill>, b: Bill, intent: Intent, at: string, i: nat)
    requires Legal(bills) && b in bills && i < |bills|
    ensures FirstRead(bills, b.id) == if b.mode == "reconciliation" then Some(NotPayable)
                                      else if b.payment.Some? then Some(Already(b.payment.value)) else None
    ensures var after := Pay(bills, b.id, PaymentOf(intent, at));
      && |after| == |bills|
      && after[i] == (if bills[i] == b && b.mode == "invoice" && b.payment.None?
                      then b.(payment := Some(Payment(at, intent.recorder, intent.reference, intent.note)))
                      else bills[i])
  {
    FindIs(bills, b);
    if bills[i].id == b.id {
      OneBillPerId(bills, bills[i], b);
    }
  }

  lemma UnknownIsNotFound(bills: seq<Bill>, id: int, p: Payment)
    requires forall b :: b in bills ==> b.id != id
    ensures FirstRead(bills, id) == Some(NotFound) && ReadBack(bills, id) == NotFound && Pay(bills, id, p) == bills
  {
  }

  // ---------------------------------------------------------------------
  // Any number of requests at once
  // ---------------------------------------------------------------------

  datatype Request =
    | Waiting(id: int, intent: Intent)
    | Checked(id: int, intent: Intent)
    | Updated(id: int, intent: Intent)
    | Answered(id: int, intent: Intent, reply: Reply)

  datatype State = State(bills: seq<Bill>, requests: seq<Request>)

  datatype Step =
    | Issue(bill: Bill)
    | Arrive(id: int, intent: Intent)
    | Read(k: nat)
    | Update(k: nat, now: Instant)
    | Answer(k: nat)

  predicate Enabled(s: State, step: Step) {
    match step
    case Issue(bill) =>
      && Find(s.bills, bill.id).None? && bill.payment.None? && bill.total >= 0
      && (bill.mode == "invoice" || (bill.mode == "reconciliation" && bill.dueAt.None?))
    case Arrive(_, _) => true
    case Read(k) => k < |s.requests| && s.requests[k].Waiting?
    case Update(k, _) => k < |s.requests| && s.requests[k].Checked?
    case Answer(k) => k < |s.requests| && s.requests[k].Updated?
  }

  function Apply(s: State, step: Step): State
    requires Enabled(s, step)
  {
    match step
    case Issue(bill) => s.(bills := s.bills + [bill])
    case Arrive(id, intent) => s.(requests := s.requests + [Waiting(id, intent)])
    case Read(k) =>
      var r := s.requests[k];
      var next := match FirstRead(s.bills, r.id)
                  case Some(reply) => Answered(r.id, r.intent, reply)
                  case None => Checked(r.id, r.intent);
      s.(requests := s.requests[k := next])
    case Update(k, now) =>
      var r := s.requests[k];
      State(Pay(s.bills, r.id, PaymentOf(r.intent, FormatTs(now))), s.requests[k := Updated(r.id, r.intent)])
    case Answer(k) =>
      var r := s.requests[k];
      s.(requests := s.requests[k := Answered(r.id, r.intent, ReadBack(s.bills, r.id))])
  }

  predicate CanRun(s: State, steps: seq<Step>)
    decreases |steps|
  {
    steps == [] || (Enabled(s, steps[0]) && CanRun(Apply(s, steps[0]), steps[1..]))
  }

  function RunTo(s: State, steps: seq<Step>): State
    requires CanRun(s, steps)
    decreases |steps|
  {
    if steps == [] then s else RunTo(Apply(s, steps[0]), steps[1..])
  }

  /** What a later table keeps of an earlier one: every row, and every payment already on it. */
  ghost predicate Keeps(before: seq<Bill>, after: seq<Bill>) {
    && |before| <= |after|
    && forall i :: 0 <= i < |before| ==>
         && after[i].(payment := before[i].payment) == before[i]
         && (before[i].payment.Some? ==> after[i] == before[i])
         && (before[i].mode != "invoice" ==> after[i] == before[i])
  }

  ghost predicate IsPaid(bills: seq<Bill>, id: int, p: Payment) {
    Find(bills, id).Some? && Find(bills, id).value.payment == Some(p)
  }

  /** What each request knows is so in the table. */
  ghost predicate Known(bills: seq<Bill>, r: Request) {
    match r
    case Waiting(_, _) => true
    case Checked(id, _) => Find(bills, id).Some? && Find(bills, id).value.mode == "invoice"
    case Updated(id, _) => Find(bills, id).Some? && Find(bills, id).value.payment.Some?
    case Answered(id, _, reply) =>
      match reply
      case NotFound => true
      case NotPayable => Find(bills, id).Some? && Find(bills, id).value.mode == "reconciliation"
      case Already(p) => IsPaid(bills, id, p)
      case Recorded(p) => IsPaid(bills, id, p)
  }

  ghost predicate Good(s: State) {
    Legal(s.bills) && forall k :: 0 <= k < |s.requests| ==> Known(s.bills, s.requests[k])
  }

  lemma KeepsFound(before: seq<Bill>, after: seq<Bill>, id: int)
    requires Legal(before) && Legal(after) && Keeps(before, after) && Find(before, id).Some?
    ensures Find(after, id).Some? && Find(after, id).value.mode == Find(before, id).value.mode
    ensures Find(before, id).value.payment.Some? ==> Find(after, id) == Find(before, id)
  {
    var b := Find(before, id).value;
    var i :| 0 <= i < |before| && before[i] == b;
    assert after[i].(payment := b.payment) == b;
    FindIs(after, after[i]);
  }

  lemma KeepsKnown(before: seq<Bill>, after: seq<Bill>, r: Request)
    requires Legal(before) && Legal(after) && Keeps(before, after) && Known(before, r)
    ensures Known(after, r)
  {
    if Find(before, r.id).Some? {
      KeepsFound(before, after, r.id);
    }
  }

  lemma PayKeeps(bills: seq<Bill>, id: int, p: Payment)
    ensures Keeps(bills, Pay(bills, id, p))
  {
  }

  lemma KeepsTransitive(a: seq<Bill>, b: seq<Bill>, c: seq<Bill>)
    requires Keeps(a, b) && Keeps(b, c)
    ensures Keeps(a, c)
  {
    forall i | 0 <= i < |a|
      ensures c[i].(payment := a[i].payment) == a[i]
      ensures a[i].payment.Some? || a[i].mode != "invoice" ==> c[i] == a[i]
    {
      assert b[i].(payment := a[i].payment) == a[i] && c[i].(payment := b[i].payment) == b[i];
    }
  }

  lemma StepKeepsTable(s: State, step: Step)
    requires Legal(s.bills) && Enabled(s, step)
    ensures Legal(Apply(s, step).bills) && Keeps(s.bills, Apply(s, step).bills)
  {
    match step {
      case Update(k, now) =>
        PayKeepsLegal(s.bills, s.requests[k].id, PaymentOf(s.requests[k].intent, FormatTs(now)));
        PayKeeps(s.bills, s.requests[k].id, PaymentOf(s.requests[k].intent, FormatTs(now)));
      case Issue(bill) =>
        assert forall b :: b in s.bills + [bill] <==> b in s.bills || b == bill;
      case _ =>
    }
  }

  /** The request that moved knows what it should about the table it left. */
  lemma MoverKnows(s: State, step: Step, k: nat)
    requires Good(s) && Enabled(s, step) && k < |s.requests|
    requires step == Read(k) || (step.Update? && step.k == k) || step == Answer(k)
    ensures Known(Apply(s, step).bills, Apply(s, step).requests[k])
  {
    var r := s.requests[k];
    assert Known(s.bills, r);
    if step.Update? {
      PaidIsFound(s.bills, r.id, PaymentOf(r.intent, FormatTs(step.now)), Find(s.bills, r.id).value);
    }
  }

  lemma StepKeepsGood(s: State, step: Step)
    requires Good(s) && Enabled(s, step)
    ensures Good(Apply(s, step)) && Keeps(s.bills, Apply(s, step).bills)
  {
    var after := Apply(s, step);
    StepKeepsTable(s, step);
    forall k | 0 <= k < |after.requests| ensures Known(after.bills, after.requests[k]) {
      if k < |s.requests| && after.requests[k] == s.requests[k] {
        KeepsKnown(s.bills, after.bills, s.requests[k]);
      } else if k < |s.requests| {
        MoverKnows(s, step, k);
      }
    }
  }

  /**
   * Over every interleaving: a row once paid never changes, a reconciliation is never paid, no row
   * is lost, and what each request was told stays true.
   */
  lemma {:induction false} RunsKeepPayments(s: State, steps: seq<Step>)
    requires Good(s) && CanRun(s, steps)
    ensures Good(RunTo(s, steps)) && Keeps(s.bills, RunTo(s, steps).bills)
    decreases |steps|
  {
    if steps != [] {
      StepKeepsGood(s, steps[0]);
      RunsKeepPayments(Apply(s, steps[0]), steps[1..]);
      KeepsTransitive(s.bills, Apply(s, steps[0]).bills, RunTo(s, steps).bills);
    }
  }

  /** The payment a reply reports, if it reports one. */
  function Reported(r: Request): Option<Payment> {
    if r.Answered? && r.reply.Already? then Some(r.reply.payment)
    else if r.Answered? && r.reply.Recorded? then Some(r.reply.payment)
    else None
  }

  /** Every request about a paid statement, whenever it came, is told of the same payment. */
  lemma EveryoneHearsOfOnePayment(s: State, steps: seq<Step>, j: nat, k: nat)
    requires Good(s) && CanRun(s, steps)
    requires j < |RunTo(s, steps).requests| && k < |RunTo(s, steps).requests|
    requires RunTo(s, steps).requests[j].id == RunTo(s, steps).requests[k].id
    requires Reported(RunTo(s, steps).requests[j]).Some? && Reported(RunTo(s, steps).requests[k]).Some?
    ensures Reported(RunTo(s, steps).requests[j]) == Reported(RunTo(s, steps).requests[k])
  {
    RunsKeepPayments(s, steps);
    var end := RunTo(s, steps);
    assert Known(end.bills, end.requests[j]) && Known(end.bills, end.requests[k]);
  }

  // ---------------------------------------------------------------------
  // Whose payment a reply reports
  // ---------------------------------------------------------------------

  /** Request `k` has updated a row that holds payment `p`, and has not been told of any other. */
  ghost predicate Settled(s: State, k: nat, id: int, intent: Intent, p: Payment) {
    && k < |s.requests| && IsPaid(s.bills, id, p)
    && (s.requests[k] == Updated(id, intent) || s.requests[k] == Answered(id, intent, Recorded(p)))
  }

  lemma StepKeepsSettled(s: State, step: Step, k: nat, id: int, intent: Intent, p: Payment)
    requires Good(s) && Settled(s, k, id, intent, p) && Enabled(s, step)
    ensures Settled(Apply(s, step), k, id, intent, p)
  {
    StepKeepsTable(s, step);
    KeepsFound(s.bills, Apply(s, step).bills, id);
  }

  lemma {:induction false} RunKeepsSettled(s: State, steps: seq<Step>, k: nat, id: int, intent: Intent, p: Payment)
    requires Good(s) && Settled(s, k, id, intent, p) && CanRun(s, steps)
    ensures Settled(RunTo(s, steps), k, id, intent, p)
    decreases |steps|
  {
    if steps != [] {
      StepKeepsGood(s, steps[0]);
      StepKeepsSettled(s, steps[0], k, id, intent, p);
      RunKeepsSettled(Apply(s, steps[0]), steps[1..], k, id, intent, p);
    }
  }

  /** The payment on the row a request is about to update, and the one it would write. */
  function HeldBy(s: State, k: nat): Option<Payment>
    requires k < |s.requests|
  {
    var row := Find(s.bills, s.requests[k].id);
    if row.Some? then row.value.payment else None
  }

  /**
   * Whatever runs after a request's update, the reply it is given is that it recorded a payment;
   * and that is its own payment exactly when the guard let its update through, or an equal one was
   * on the row already.
   */
  lemma OwnPaymentExactlyWhen(s: State, k: nat, now: Instant, steps: seq<Step>)
    requires Good(s) && Enabled(s, Update(k, now)) && CanRun(Apply(s, Update(k, now)), steps)
    requires k < |RunTo(Apply(s, Update(k, now)), steps).requests|
    requires RunTo(Apply(s, Update(k, now)), steps).requests[k].Answered?
    ensures var own := PaymentOf(s.requests[k].intent, FormatTs(now));
      var reply := RunTo(Apply(s, Update(k, now)), steps).requests[k].reply;
      && reply.Recorded?
      && (reply == Recorded(own) <==> HeldBy(s, k).None? || HeldBy(s, k) == Some(own))
  {
    var r, own, after := s.requests[k], PaymentOf(s.requests[k].intent, FormatTs(now)), Apply(s, Update(k, now));
    assert Known(s.bills, r);
    var row := Find(s.bills, r.id).value;
    var held := if row.payment.Some? then row.payment.value else own;
    PaidIsFound(s.bills, r.id, own, row);
    StepKeepsGood(s, Update(k, now));
    assert Settled(after, k, r.id, r.intent, held);
    RunKeepsSettled(after, steps, k, r.id, r.intent, held);
  }

  /**
   * So a request that loses the race is told, and logs, that it recorded a payment, although the
   * table holds the other's: both are given the first one's.
   */
  lemma LoserIsToldItRecorded(bill: Bill, one: Intent, two: Intent, now: Instant, later: Instant)
    requires bill.mode == "invoice" && bill.payment.None? && bill.total >= 0
    ensures var s := State([bill], [Waiting(bill.id, one), Waiting(bill.id, two)]);
      var steps := [Read(0), Read(1), Update(0, now), Answer(0), Update(1, later), Answer(1)];
      var p := PaymentOf(one, FormatTs(now));
      && Good(s) && CanRun(s, steps)
      && RunTo(s, steps) == State([bill.(payment := Some(p))],
                                  [Answered(bill.id, one, Recorded(p)), Answered(bill.id, two, Recorded(p))])
  {
    var p := PaymentOf(one, FormatTs(now));
    var paid, told := [bill.(payment := Some(p))], Answered(bill.id, one, Recorded(p));
    var s0 := State([bill], [Waiting(bill.id, one), Waiting(bill.id, two)]);
    var s1 := State([bill], [Checked(bill.id, one), Waiting(bill.id, two)]);
    var s2 := State([bill], [Checked(bill.id, one), Checked(bill.id, two)]);
    var s3 := State(paid, [Updated(bill.id, one), Checked(bill.id, two)]);
    var s4 := State(paid, [told, Checked(bill.id, two)]);
    var s5 := State(paid, [told, Updated(bill.id, two)]);
    var s6 := State(paid, [told, Answered(bill.id, two, Recorded(p))]);
    UnpaidMoves(bill, one, two, now);
    PaidMoves(bill.(payment := Some(p)), one, two, later);
    ThreeMoves(s3, Answer(0), s4, Update(1, later), s5, Answer(1), s6, []);
    assert [Answer(0), Update(1, later), Answer(1)] + [] == [Answer(0), Update(1, later), Answer(1)];
    ThreeMoves(s0, Read(0), s1, Read(1), s2, Update(0, now), s3, [Answer(0), Update(1, later), Answer(1)]);
    assert [Read(0), Read(1), Update(0, now), Answer(0), Update(1, later), Answer(1)]
        == [Read(0), Read(1), Update(0, now)] + [Answer(0), Update(1, later), Answer(1)];
  }

  lemma ThreeMoves(a: State, one: Step, b: State, two: Step, c: State, three: Step, d: State, rest: seq<Step>)
    requires Moves(a, one, b) && Moves(b, two, c) && Moves(c, three, d) && CanRun(d, rest)
    ensures CanRun(a, [one, two, three] + rest) && RunTo(a, [one, two, three] + rest) == RunTo(d, rest)
  {
    StepFirst(c, three, rest);
    StepFirst(b, two, [three] + rest);
    StepFirst(a, one, [two] + ([three] + rest));
    assert [one, two, three] + rest == [one] + ([two] + ([three] + rest));
  }

  ghost predicate Moves(s: State, step: Step, t: State) {
    Enabled(s, step) && Apply(s, step) == t
  }

  /** Both read the unpaid row, and the first update pays it. */
  lemma UnpaidMoves(bill: Bill, one: Intent, two: Intent, now: Instant)
    requires bill.mode == "invoice" && bill.payment.None?
    ensures var paid := bill.(payment := Some(PaymentOf(one, FormatTs(now))));
      var s1 := State([bill], [Checked(bill.id, one), Waiting(bill.id, two)]);
      var s2 := State([bill], [Checked(bill.id, one), Checked(bill.id, two)]);
      && Moves(State([bill], [Waiting(bill.id, one), Waiting(bill.id, two)]), Read(0), s1)
      && Moves(s1, Read(1), s2)
      && Moves(s2, Update(0, now), State([paid], [Updated(bill.id, one), Checked(bill.id, two)]))
  {
    var p := PaymentOf(one, FormatTs(now));
    assert FirstRead([bill], bill.id) == None;
    assert Pay([bill], bill.id, p) == [bill.(payment := Some(p))];
    assert [Waiting(bill.id, one), Waiting(bill.id, two)][0 := Checked(bill.id, one)]
        == [Checked(bill.id, one), Waiting(bill.id, two)];
    assert [Checked(bill.id, one), Waiting(bill.id, two)][1 := Checked(bill.id, two)]
        == [Checked(bill.id, one), Checked(bill.id, two)];
    assert [Checked(bill.id, one), Checked(bill.id, two)][0 := Updated(bill.id, one)]
        == [Updated(bill.id, one), Checked(bill.id, two)];
  }

  /** Over a row already paid, the first is answered, and the second's update changes nothing. */
  lemma PaidMoves(paid: Bill, one: Intent, two: Intent, later: Instant)
    requires paid.mode == "invoice" && paid.payment.Some?
    ensures var p := paid.payment.value;
      var told := Answered(paid.id, one, Recorded(p));
      var s4 := State([paid], [told, Checked(paid.id, two)]);
      var s5 := State([paid], [told, Updated(paid.id, two)]);
      && Moves(State([paid], [Updated(paid.id, one), Checked(paid.id, two)]), Answer(0), s4)
      && Moves(s4, Update(1, later), s5)
      && Moves(s5, Answer(1), State([paid], [told, Answered(paid.id, two, Recorded(p))]))
  {
    var told := Answered(paid.id, one, Recorded(paid.payment.value));
    assert ReadBack([paid], paid.id) == Recorded(paid.payment.value);
    assert Pay([paid], paid.id, PaymentOf(two, FormatTs(later))) == [paid];
    assert [Updated(paid.id, one), Checked(paid.id, two)][0 := told] == [told, Checked(paid.id, two)];
    assert [told, Checked(paid.id, two)][1 := Updated(paid.id, two)] == [told, Updated(paid.id, two)];
    assert [told, Updated(paid.id, two)][1 := Answered(paid.id, two, Recorded(paid.payment.value))]
        == [told, Answered(paid.id, two, Recorded(paid.payment.value))];
  }

  lemma StepFirst(s: State, step: Step, rest: seq<Step>)
    requires Enabled(s, step) && CanRun(Apply(s, step), rest)
    ensures CanRun(s, [step] + rest) && RunTo(s, [step] + rest) == RunTo(Apply(s, step), rest)
  {
    assert ([step] + rest)[1..] == rest;
  }

  // ---------------------------------------------------------------------
  // Paying the last one
  // ---------------------------------------------------------------------

  /** A payment resumes a suspended partner exactly when it pays the only bill that suspends it. */
  lemma PayingResumesExactlyWhen(bills: seq<Bill>, consumer: string, mode: string, now: Instant, id: int, p: Payment,
                                 before: ServiceStatus, after: ServiceStatus)
    requires Legal(bills) && IsStatusOf(before, bills, consumer, mode, now) && before.Suspended?
    requires IsStatusOf(after, Pay(bills, id, p), consumer, mode, now)
    ensures after.Active? <==>
      forall b :: b in bills && b.consumer == consumer && Enforceable(b, now) ==> b.id == id
  {
    var paid := Pay(bills, id, p);
    if b :| b in bills && b.consumer == consumer && Enforceable(b, now) && b.id != id {
      var i :| 0 <= i < |bills| && bills[i] == b;
      assert paid[i] == b;
      assert Owes(paid, consumer, now);
    } else {
      forall b | b in paid && b.consumer == consumer ensures !Enforceable(b, now) {
        var i :| 0 <= i < |bills| && paid[i] == b;
        assert bills[i] in bills;
      }
    }
  }
}
