/** The statement table as the walk sees it (`src/billing/store.rs`): rows are only ever appended. */
module Statements {
  import opened Prelude
  import opened Period
  import opened Generator
  import opened Usage

  /** One row per statement, oldest insert first. */
  type Table = seq<Draft>

  predicate IsFor(d: Draft, consumer: string, day: Day) {
    d.consumer == consumer && d.day == day
  }

  predicate Has(t: Table, consumer: string, day: Day) {
    exists i :: 0 <= i < |t| && IsFor(t[i], consumer, day)
  }

  /** `INSERT ... ON CONFLICT (consumer_id, billing_date) DO NOTHING`. */
  function Insert(t: Table, d: Draft): Table {
    if Has(t, d.consumer, d.day) then t else t + [d]
  }

  /** `SELECT MAX(billing_date) ... WHERE consumer_id = ?`. */
  function Newest(t: Table, consumer: string): (r: Option<Day>)
    ensures r.Some? ==> Has(t, consumer, r.value)
    ensures forall day :: Has(t, consumer, day) ==> r.Some? && day <= r.value
  {
    if t == [] then None
    else
      var rest, last := Newest(t[..|t| - 1], consumer), t[|t| - 1];
      HasLast(t);
      if last.consumer != consumer then rest
      else
        if rest.Some? && rest.value >= last.day then rest else Some(last.day)
  }

  lemma HasSnoc(t: Table, d: Draft)
    ensures forall c, day :: Has(t + [d], c, day) <==> Has(t, c, day) || IsFor(d, c, day)
  {
    forall c, day ensures Has(t + [d], c, day) <==> Has(t, c, day) || IsFor(d, c, day) {
      if Has(t, c, day) {
        var i :| 0 <= i < |t| && IsFor(t[i], c, day);
        assert IsFor((t + [d])[i], c, day);
      }
      if IsFor(d, c, day) {
        assert IsFor((t + [d])[|t|], c, day);
      }
    }
  }

  lemma HasLast(t: Table)
    requires t != []
    ensures forall c, day :: Has(t, c, day) <==> Has(t[..|t| - 1], c, day) || IsFor(t[|t| - 1], c, day)
  {
    HasSnoc(t[..|t| - 1], t[|t| - 1]);
    assert t == t[..|t| - 1] + [t[|t| - 1]];
  }

  ghost predicate Unique(t: Table) {
    forall i, j :: 0 <= i < j < |t| ==> !(t[i].consumer == t[j].consumer && t[i].day == t[j].day)
  }

  lemma InsertKeepsUnique(t: Table, d: Draft)
    requires Unique(t)
    ensures Unique(Insert(t, d))
  {
    if !Has(t, d.consumer, d.day) {
      forall i | 0 <= i < |t| ensures !(t[i].consumer == d.consumer && t[i].day == d.day) {
        assert !IsFor(t[i], d.consumer, d.day);
      }
    }
  }

  lemma InsertAdds(t: Table, d: Draft)
    ensures t <= Insert(t, d)
    ensures forall c, day :: Has(Insert(t, d), c, day) <==> Has(t, c, day) || IsFor(d, c, day)
  {
    HasSnoc(t, d);
  }

  /** The newest stated day, or the day before `first` when nothing is stated yet. */
  function NewestOr(t: Table, consumer: string, first: Day): Day {
    match Newest(t, consumer) case Some(d) => d case None => first - 1
  }

  /** The stated days are one run, starting on `first`. */
  ghost predicate Contiguous(t: Table, consumer: string, first: Day) {
    forall day :: Has(t, consumer, day) <==> first <= day <= NewestOr(t, consumer, first)
  }

  /** Exactly when a new statement keeps the run: it is the next day, or already there. */
  lemma InsertKeepsRunExactlyWhen(t: Table, d: Draft, first: Day)
    requires Contiguous(t, d.consumer, first)
    ensures Contiguous(Insert(t, d), d.consumer, first) <==> first <= d.day <= NewestOr(t, d.consumer, first) + 1
    ensures d.day == NewestOr(t, d.consumer, first) + 1 ==> NewestOr(Insert(t, d), d.consumer, first) == d.day
    ensures first <= d.day ==> NewestOr(t, d.consumer, first) <= NewestOr(Insert(t, d), d.consumer, first)
  {
    var t', newest := Insert(t, d), NewestOr(t, d.consumer, first);
    InsertAdds(t, d);
    assert Has(t', d.consumer, d.day);
    assert Newest(t, d.consumer).Some? ==> Has(t', d.consumer, newest);
    assert newest >= first - 1 by {
      if Newest(t, d.consumer).Some? {
        assert Has(t, d.consumer, newest);
      }
    }
    if d.day == newest + 1 {
      assert Newest(t', d.consumer) == Some(d.day);
      forall day ensures Has(t', d.consumer, day) <==> first <= day <= d.day {
        assert Has(t', d.consumer, day) <==> Has(t, d.consumer, day) || day == d.day;
      }
    } else if first <= d.day <= newest {
      assert Has(t, d.consumer, d.day) && t' == t;
    } else if d.day > newest + 1 {
      assert !Has(t', d.consumer, newest + 1);
    }
  }

  lemma InsertElsewhere(t: Table, d: Draft, consumer: string, first: Day)
    requires consumer != d.consumer
    ensures Newest(Insert(t, d), consumer) == Newest(t, consumer)
    ensures Contiguous(Insert(t, d), consumer, first) == Contiguous(t, consumer, first)
  {
    InsertAdds(t, d);
    assert forall day :: Has(Insert(t, d), consumer, day) <==> Has(t, consumer, day);
    NewestDetermined(t, Insert(t, d), consumer);
  }

  lemma NewestDetermined(a: Table, b: Table, consumer: string)
    requires forall day :: Has(a, consumer, day) <==> Has(b, consumer, day)
    ensures Newest(a, consumer) == Newest(b, consumer)
  {
    if Newest(a, consumer).Some? {
      assert Has(b, consumer, Newest(a, consumer).value);
    }
    if Newest(b, consumer).Some? {
      assert Has(a, consumer, Newest(b, consumer).value);
    }
  }

  /** The day the walk starts after: the newest stated, else the day before the partner existed. */
  function AnchorFor(g: Generator, t: Table, partner: Partner, through: Day): Day {
    match Newest(t, partner.consumer)
    case Some(d) => d
    case None =>
      match partner.createdAt
      case Some(created) => DayOf(created, g.tz) - 1
      case None => g.OldestCloseable(through)
  }
}
