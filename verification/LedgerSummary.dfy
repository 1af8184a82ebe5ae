/** The summary's anchors and due dates, and the command that appends a row, against the
    validator's reading of the same ledger. */
module LedgerSummary {
  import opened Words
  import opened Ledger
  import opened LedgerIds

  // ------------------------------------------------------------- anchors

  // The date of the first success of an item in the order of the rows.
  function FirstDate(rows: seq<Row>, item: string): Option<int> {
    if |rows| == 0 then None
    else
      var front, last := FirstDate(rows[..|rows| - 1], item), rows[|rows| - 1];
      if front.Some? then front
      else if IsSuccess(last) && last.item == item then Some(last.date)
      else None
  }

  /** The summary's dictionary: the first success of an item sets its anchor and later ones leave
      it alone. */
  method Anchors(visible: seq<Row>) returns (anchors: map<string, int>)
    ensures forall item :: item in anchors <==> FirstDate(visible, item).Some?
    ensures forall item | item in anchors :: FirstDate(visible, item) == Some(anchors[item])
  {
    anchors := map[];
    for i := 0 to |visible|
      invariant forall item :: item in anchors <==> FirstDate(visible[..i], item).Some?
      invariant forall item | item in anchors :: FirstDate(visible[..i], item) == Some(anchors[item])
    {
      var r := visible[i];
      assert visible[..i + 1][..i] == visible[..i];
      if IsSuccess(r) && r.item !in anchors {
        anchors := anchors[r.item := r.date];
      }
    }
    assert visible[..|visible|] == visible;
  }

  // The validator's anchor of an item: the earliest date among its successes.
  function ValidatorAnchor(rows: seq<Row>, item: string): Option<int> {
    var successes := Successes(OfItem(rows, item));
    if |successes| == 0 then None else Some(Earliest(successes))
  }

  lemma {:induction false} SuccessesSnoc(rows: seq<Row>, r: Row)
    ensures Successes(rows + [r]) == if IsSuccess(r) then Successes(rows) + [r] else Successes(rows)
  {
    assert (rows + [r])[..|rows|] == rows;
  }

  lemma {:induction false} EarliestSnoc(rows: seq<Row>, r: Row)
    requires |rows| > 0 && AllSuccesses(rows) && IsSuccess(r) && Earliest(rows) <= r.date
    ensures AllSuccesses(rows + [r]) && Earliest(rows + [r]) == Earliest(rows)
  {
    assert (rows + [r])[..|rows|] == rows;
  }

  // A success dated no earlier than the rest of its item keeps the anchor.
  lemma AnchorMore(rows: seq<Row>, item: string, known: set<string>)
    requires Accepted(rows, known) && |rows| > 0
    ensures var front, last := rows[..|rows| - 1], rows[|rows| - 1];
            ValidatorAnchor(rows, item) ==
            if ValidatorAnchor(front, item).Some? then ValidatorAnchor(front, item)
            else if IsSuccess(last) && last.item == item then Some(last.date) else None
  {
    var n := |rows| - 1;
    var front, last := rows[..n], rows[n];
    RowFollows(rows, n, known);
    if last.item == item {
      assert OfItem(rows, item) == OfItem(front, item) + [last];
      SuccessesSnoc(OfItem(front, item), last);
      var successes := Successes(OfItem(front, item));
      if IsSuccess(last) && |successes| > 0 {
        EarliestBefore(rows, n, item, known);
        EarliestSnoc(successes, last);
      } else if IsSuccess(last) {
        assert successes + [last] == [last];
      }
    }
  }

  lemma EarliestBefore(rows: seq<Row>, n: nat, item: string, known: set<string>)
    requires Accepted(rows, known) && n < |rows| && rows[n].Attempt?
    requires |Successes(OfItem(rows[..n], item))| > 0
    ensures Earliest(Successes(OfItem(rows[..n], item))) <= rows[n].date
  {
    var earlier := OfItem(rows[..n], item);
    var successes := Successes(earlier);
    EarliestIsOne(successes);
    var s :| 0 <= s < |successes| && IsSuccess(successes[s]) && successes[s].date == Earliest(successes);
    assert successes[s] in successes;
    OfItemIn(rows[..n], item, successes[s]);
    var a :| 0 <= a < n && rows[..n][a] == successes[s];
    DatesAscend(rows, a, n, known);
  }

  /** In an accepted ledger the first success in order, which the summary takes, is the earliest
      by date, which the validator takes. */
  lemma {:induction false} FirstIsEarliest(rows: seq<Row>, item: string, known: set<string>)
    requires Accepted(rows, known)
    ensures FirstDate(rows, item) == ValidatorAnchor(rows, item)
  {
    if |rows| > 0 {
      FirstIsEarliest(rows[..|rows| - 1], item, known);
      AnchorMore(rows, item, known);
    }
  }

  /** Appending never moves an anchor. */
  lemma {:induction false} AnchorStays(rows: seq<Row>, more: seq<Row>, item: string)
    requires FirstDate(rows, item).Some?
    ensures FirstDate(rows + more, item) == FirstDate(rows, item)
  {
    if |more| == 0 {
      assert rows + more == rows;
    } else {
      AnchorStays(rows, more[..|more| - 1], item);
      assert (rows + more)[..|rows + more| - 1] == rows + more[..|more| - 1];
    }
  }

  // ------------------------------------------------------------- what is due

  function Visible(rows: seq<Row>, today: int): seq<Row> {
    if |rows| == 0 then []
    else
      var front, last := Visible(rows[..|rows| - 1], today), rows[|rows| - 1];
      if last.Attempt? && last.date <= today then front + [last] else front
  }

  lemma {:induction false} FirstDateIn(rows: seq<Row>, item: string)
    requires FirstDate(rows, item).Some?
    ensures exists i | 0 <= i < |rows| ::
              IsSuccess(rows[i]) && rows[i].item == item && FirstDate(rows, item) == Some(rows[i].date)
  {
    var n := |rows| - 1;
    if FirstDate(rows[..n], item).Some? {
      FirstDateIn(rows[..n], item);
      var i :| 0 <= i < n && IsSuccess(rows[..n][i]) && rows[..n][i].item == item
               && FirstDate(rows[..n], item) == Some(rows[..n][i].date);
      assert rows[i] == rows[..n][i];
    } else {
      assert IsSuccess(rows[n]);
    }
  }

  // Hiding the future hides an anchor exactly when the anchor lies in the future.
  lemma {:induction false} VisibleAnchor(rows: seq<Row>, today: int, item: string, known: set<string>)
    requires Accepted(rows, known)
    ensures FirstDate(Visible(rows, today), item) ==
            match FirstDate(rows, item)
            case Some(d) => if d <= today then Some(d) else None
            case None => None
  {
    if |rows| > 0 {
      var n := |rows| - 1;
      VisibleAnchor(rows[..n], today, item, known);
      RowFollows(rows, n, known);
      if rows[n].date <= today {
        var v := Visible(rows[..n], today);
        assert (v + [rows[n]])[..|v|] == v;
        if FirstDate(rows[..n], item).Some? {
          FirstDateIn(rows[..n], item);
          var i :| 0 <= i < n && IsSuccess(rows[..n][i]) && FirstDate(rows[..n], item) == Some(rows[..n][i].date);
          DatesAscend(rows, i, n, known);
        }
      }
    }
  }

  predicate Done(visible: seq<Row>, item: string, kind: Kind) { HasIndependent(OfItem(visible, item), kind) }

  // What the summary prints as due.
  predicate Due(rows: seq<Row>, today: int, item: string, kind: Kind) {
    var visible := Visible(rows, today);
    var anchor := FirstDate(visible, item);
    anchor.Some? && !Done(visible, item, kind) && anchor.value + Days(kind) <= today
  }

  lemma {:induction false} VisibleIff(rows: seq<Row>, today: int, r: Row)
    ensures r in Visible(rows, today) <==> r in rows && r.Attempt? && r.date <= today
  {
    if |rows| > 0 {
      var n := |rows| - 1;
      VisibleIff(rows[..n], today, r);
      assert rows == rows[..n] + [rows[n]];
    }
  }

  lemma DoneIff(rows: seq<Row>, today: int, item: string, kind: Kind)
    ensures Done(Visible(rows, today), item, kind) <==> RetestBy(rows, |rows|, item, kind, today)
  {
    var visible := Visible(rows, today);
    forall j | 0 <= j < |visible|
      ensures visible[j].Attempt? && visible[j].date <= today
    {
      VisibleIff(rows, today, visible[j]);
    }
    IndependentIff(visible, item, kind, today);
    if RetestBy(visible, |visible|, item, kind, today) {
      var j :| 0 <= j < |visible| && visible[j].Attempt? && visible[j].item == item && visible[j].kind == kind
               && visible[j].correct && !visible[j].assisted && visible[j].hints == 0;
      VisibleIff(rows, today, visible[j]);
    }
    if RetestBy(rows, |rows|, item, kind, today) {
      var j :| 0 <= j < |rows| && rows[j].Attempt? && rows[j].item == item && rows[j].kind == kind
               && rows[j].correct && !rows[j].assisted && rows[j].hints == 0 && rows[j].date <= today;
      VisibleIff(rows, today, rows[j]);
    }
  }

  /** On the fields of an accepted ledger: a retest is printed as due exactly when a correct first or
      review attempt is 7, or 30, days old and no such retest, correct and without any help, is dated by
      today. */
  lemma DueOnFields(rows: seq<Row>, today: int, item: string, kind: Kind, days: nat, known: set<string>)
    requires Accepted(rows, known) && ((kind == Retention7 && days == 7) || (kind == Retention30 && days == 30))
    ensures Due(rows, today, item, kind) <==>
            SuccessBy(rows, |rows|, item, today - days) && !RetestBy(rows, |rows|, item, kind, today)
  {
    FirstIsEarliest(rows, item, known);
    VisibleAnchor(rows, today, item, known);
    EarliestIff(rows, item, today - days);
    DoneIff(rows, today, item, kind);
  }

  /** Summary and validator agree: for every accepted ledger and every day, a retention is printed as
      due exactly when it is not yet done and the validator would accept its interval that day. */
  lemma DueIffAcceptable(rows: seq<Row>, today: int, r: Row, known: set<string>)
    requires Accepted(rows, known) && r.Attempt? && IsRetention(r.kind) && r.date == today
    ensures Due(rows, today, r.item, r.kind) <==>
            !Done(Visible(rows, today), r.item, r.kind) && RetentionOk(OfItem(rows, r.item), r)
  {
    FirstIsEarliest(rows, r.item, known);
    VisibleAnchor(rows, today, r.item, known);
  }

  // ------------------------------------------------------------- appending a row

  lemma AcceptedSnoc(rows: seq<Row>, row: Row, known: set<string>)
    ensures Accepted(rows + [row], known) <==> Accepted(rows, known) && MayFollow(rows, row, known)
  {
    assert (rows + [row])[..|rows|] == rows;
  }

  lemma FreshMayFollow(rows: seq<Row>, entry: Row, id: string, known: set<string>)
    requires entry.Attempt? && GoodId(id) && !HasId(rows, id)
    ensures MayFollow(rows, entry.(id := id), known) <==> Admissible(rows, entry, known)
  {
    var row := entry.(id := id);
    assert FieldsOk(row, known) <==> FieldsOk(entry, known);
    assert StatusOk(OfItem(rows, row.item), row) <==> StatusOk(OfItem(rows, entry.item), entry);
    assert RetentionOk(OfItem(rows, row.item), row) <==> RetentionOk(OfItem(rows, entry.item), entry);
  }

  lemma EntryRight(rows: seq<Row>, entry: Row, known: set<string>)
    requires Accepted(rows, known)
    ensures Admissible(rows, entry, known) <==> ContentRight(rows + [entry], |rows|, known)
  {
    assert (rows + [entry])[..|rows|] == rows;
    AdmissibleIff(rows + [entry], |rows|, known);
  }

  /** Appends an attempt under a fresh identifier, or refuses; the identifier is never the reason
      for refusing. */
  method Log(rows: seq<Row>, entry: Row, today: int, known: set<string>) returns (ledger: Option<seq<Row>>)
    requires entry.Attempt?
    ensures ledger.Some? ==>
              && (forall r | r in rows :: r.Attempt? && GoodId(r.id))
              && ledger.value == rows + [entry.(id := NextId(rows))] && Accepted(ledger.value, known)
    ensures ledger.Some? <==>
            AllRight(rows, known) && entry.date <= today && ContentRight(rows + [entry], |rows|, known)
  {
    AcceptedIff(rows, known);
    var ok := CheckRows(rows, known);
    if !ok || entry.date > today {
      return None;
    }
    EntryRight(rows, entry, known);
    NextIdIsFresh(rows, known);
    var row := entry.(id := NextId(rows));
    FreshMayFollow(rows, entry, NextId(rows), known);
    AcceptedSnoc(rows, row, known);
    ok := CheckRows(rows + [row], known);
    return if ok then Some(rows + [row]) else None;
  }
}
