/**
 The rows of the recovered database are those the copying loop delivered: what
 RescueTable says of one table, carried over to the rescue of Recovery.
 */
module RescuedRows {
  import opened Common
  import Recovery
  import RescueTable

  /** The readable events of an image, as the table the copying loop reads. */
  ghost predicate Shows(t: seq<RescueTable.Row>, img: Recovery.Image) {
    && RescueTable.Increasing(t)
    && forall row :: row in t <==> HoldsEvent(img, row)
  }

  /** The image has this row among its events, intact. */
  predicate HoldsEvent(img: Recovery.Image, row: RescueTable.Row) {
    && row.rowid > 0
    && Recovery.EventRow(row.rowid) in img.pages
    && img.pages[Recovery.EventRow(row.rowid)] == Recovery.Row(row.data)
  }

  /** The events that a finished copy of the table passed over. */
  function PassedOver(t: seq<RescueTable.Row>, copied: seq<RescueTable.Row>): set<Recovery.Key> {
    set row | row in t && row !in copied && row.rowid > 0 :: Recovery.EventRow(row.rowid)
  }

  /**
   Whatever the damage does to the queries, and however the loop ends: if the
   rows passed over are those the recovery counts as lost, the finished recovery
   holds exactly the copied rows as its events, and every lost one was hidden
   from some query if the loop ran to its end.
   */
  lemma RecoveredEventsAreTheCopied(d: Recovery.Dir, s: Recovery.Story, t: seq<RescueTable.Row>,
                                    copied: seq<RescueTable.Row>, readings: nat -> RescueTable.Reading,
                                    attempts: nat, outcome: RescueTable.Outcome)
    requires Recovery.Recovered(d, s) && Shows(t, Recovery.Overlay(s.main, s.wal))
    requires RescueTable.Finished(t, copied, readings, attempts, outcome)
    requires forall k :: k in s.lost && k.EventRow? <==> k in PassedOver(t, copied)
    ensures forall row :: HoldsEvent(Recovery.DbImage(d), row) <==> row in copied
    ensures forall k :: k in Recovery.DbImage(d).pages && k.EventRow? ==> IsCopied(k, copied)
    ensures outcome.Exhausted? ==> forall row :: row in t && Recovery.EventRow(row.rowid) in s.lost ==>
      RescueTable.WasHidden(row, readings, attempts)
  {
    var img := Recovery.DbImage(d);
    forall k | k in img.pages && k.EventRow?
      ensures IsCopied(k, copied)
    {
      var row := RescueTable.Row(k.id, img.pages[k].data);
      assert HoldsEvent(img, row);
    }
  }

  ghost predicate IsCopied(k: Recovery.Key, copied: seq<RescueTable.Row>)
    requires k.EventRow?
  {
    exists row :: row in copied && row.rowid == k.id
  }

  /** Damage that hides these rows from every query and does nothing else. */
  function Hiding(hidden: set<int>): nat -> RescueTable.Reading {
    _ => RescueTable.Opened(id => id !in hidden, 0, RescueTable.Fine)
  }

  /** Every set of lost rows arises: under such damage the loop ends by itself, and exactly the rows not hidden are copied. */
  lemma EveryLossArises(t: seq<RescueTable.Row>, hidden: set<int>, copied: seq<RescueTable.Row>,
                        attempts: nat, outcome: RescueTable.Outcome)
    requires RescueTable.Finished(t, copied, Hiding(hidden), attempts, outcome)
    ensures outcome.Exhausted?
    ensures forall row :: row in copied <==> row in t && row.rowid > 0 && row.rowid !in hidden
  {
    var readings := Hiding(hidden);
    RescueTable.LastOfStall(t, copied, readings, attempts, outcome);
    forall row | row in t && row.rowid > 0 && row.rowid !in hidden
      ensures row in copied
    {
      assert !RescueTable.WasHidden(row, readings, attempts);
    }
  }
}
