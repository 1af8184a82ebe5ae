/** The append-only attempt ledger: which rows are accepted, as the validator computes it and as rules
    on the fields. */
module Ledger {
  import opened Words

  datatype Kind = First | Retention7 | Retention30 | Review

  datatype Status = Unseen | Attempted | Solved | SolvedWithoutHelp | InterviewReady | Revisit

  datatype Warnings = Pass | Fail | NotApplicable

  // A row with its texts read. A row with other fields, or with a text that is not a date, not a
  // number or not a known word, is malformed.
  datatype Row =
    | Malformed
    | Attempt(
        id: string, date: int, item: string, kind: Kind, status: Status,
        minutes: int, hints: int, assisted: bool, correct: bool, warnings: Warnings,
        debugging: int, testQuality: int, explanation: int, hasEvidence: bool)

  predicate Independent(r: Row)
    requires r.Attempt?
  {
    r.correct && !r.assisted && r.hints == 0
  }

  // ------------------------------------------------------------- the rules, on the fields

  // Before row n there is a correct first or review attempt at the item, dated by that day.
  predicate SuccessBy(rows: seq<Row>, n: nat, item: string, day: int)
    requires n <= |rows|
  {
    exists j | 0 <= j < n ::
      && rows[j].Attempt? && rows[j].item == item && rows[j].correct
      && (rows[j].kind == First || rows[j].kind == Review)
      && rows[j].date <= day
  }

  // Before row n there is a retest of that kind of the item, correct and without any help, dated by
  // that day.
  predicate RetestBy(rows: seq<Row>, n: nat, item: string, kind: Kind, day: int)
    requires n <= |rows|
  {
    exists j | 0 <= j < n ::
      && rows[j].Attempt? && rows[j].item == item && rows[j].kind == kind
      && rows[j].correct && !rows[j].assisted && rows[j].hints == 0
      && rows[j].date <= day
  }

  // The identifier of row i: A and at least five digits, and no earlier row has it.
  predicate IdRight(rows: seq<Row>, i: nat)
    requires i < |rows|
  {
    && rows[i].Attempt?
    && |rows[i].id| >= 6 && rows[i].id[0] == 'A'
    && (forall k | 1 <= k < |rows[i].id| :: '0' <= rows[i].id[k] <= '9')
    && (forall j | 0 <= j < i :: rows[j].Attempt? ==> rows[j].id != rows[i].id)
  }

  predicate ScoresWithin(r: Row, low: int, high: int)
    requires r.Attempt?
  {
    low <= r.debugging <= high && low <= r.testQuality <= high && low <= r.explanation <= high
  }

  // Everything else about row i, in its own fields and those of the rows before it.
  predicate ContentRight(rows: seq<Row>, i: nat, known: set<string>)
    requires i < |rows|
  {
    var r := rows[i];
    && r.Attempt?
    && (forall j | 0 <= j < i :: rows[j].Attempt? && rows[j].date <= r.date)
    && r.item in known && 1 <= r.minutes <= 1440 && r.hints >= 0 && ScoresWithin(r, 0, 4) && r.hasEvidence
    && r.status != Unseen
    && (r.status in {Solved, SolvedWithoutHelp, InterviewReady} ==> r.correct && r.warnings != Fail)
    && (r.status in {SolvedWithoutHelp, InterviewReady} ==> r.correct && !r.assisted && r.hints == 0)
    && (r.status == InterviewReady ==>
          && r.kind == Review && ScoresWithin(r, 3, 4)
          && RetestBy(rows, i, r.item, Retention7, r.date) && RetestBy(rows, i, r.item, Retention30, r.date))
    && (r.kind == First ==> forall j | 0 <= j < i :: rows[j].item == r.item ==> rows[j].kind != First)
    && (r.kind == Retention7 ==> SuccessBy(rows, i, r.item, r.date - 7))
    && (r.kind == Retention30 ==> SuccessBy(rows, i, r.item, r.date - 30))
  }

  predicate AllRight(rows: seq<Row>, known: set<string>) {
    forall i | 0 <= i < |rows| :: IdRight(rows, i) && ContentRight(rows, i, known)
  }

  // ------------------------------------------------------------- identifiers

  predicate IsDigit(c: char) { '0' <= c <= '9' }

  predicate AllDigits(s: string) { forall i | 0 <= i < |s| :: IsDigit(s[i]) }

  predicate GoodId(id: string) { |id| >= 6 && id[0] == 'A' && AllDigits(id[1..]) }

  // ------------------------------------------------------------- one more row

  function OfItem(rows: seq<Row>, item: string): (s: seq<Row>)
    ensures forall r | r in s :: r in rows && r.Attempt? && r.item == item
  {
    if |rows| == 0 then []
    else
      var front, last := OfItem(rows[..|rows| - 1], item), rows[|rows| - 1];
      if last.Attempt? && last.item == item then front + [last] else front
  }

  predicate IsSuccess(r: Row) { r.Attempt? && r.correct && (r.kind == First || r.kind == Review) }

  predicate AllSuccesses(rows: seq<Row>) { forall i | 0 <= i < |rows| :: IsSuccess(rows[i]) }

  function Successes(rows: seq<Row>): (s: seq<Row>)
    ensures AllSuccesses(s) && forall r | r in s :: r in rows
  {
    if |rows| == 0 then []
    else
      var front, last := Successes(rows[..|rows| - 1]), rows[|rows| - 1];
      if IsSuccess(last) then front + [last] else front
  }

  // The earliest date, wherever it stands.
  function Earliest(rows: seq<Row>): int
    requires |rows| > 0 && AllSuccesses(rows)
  {
    var last := rows[|rows| - 1].date;
    if |rows| == 1 then last
    else
      var front := Earliest(rows[..|rows| - 1]);
      if last < front then last else front
  }

  function Days(kind: Kind): nat { if kind == Retention7 then 7 else 30 }

  predicate IsRetention(kind: Kind) { kind == Retention7 || kind == Retention30 }

  predicate RetentionOk(earlier: seq<Row>, r: Row)
    requires r.Attempt?
  {
    IsRetention(r.kind) ==>
      |Successes(earlier)| > 0 && r.date - Earliest(Successes(earlier)) >= Days(r.kind)
  }

  predicate HasIndependent(rows: seq<Row>, kind: Kind) {
    exists i | 0 <= i < |rows| :: rows[i].Attempt? && rows[i].kind == kind && Independent(rows[i])
  }

  predicate StatusOk(earlier: seq<Row>, r: Row)
    requires r.Attempt?
  {
    && r.status != Unseen
    && (r.status in {Solved, SolvedWithoutHelp, InterviewReady} ==> r.correct && r.warnings != Fail)
    && (r.status in {SolvedWithoutHelp, InterviewReady} ==> Independent(r))
    && (r.status == InterviewReady ==>
          && r.kind == Review && r.debugging >= 3 && r.testQuality >= 3 && r.explanation >= 3
          && HasIndependent(earlier, Retention7) && HasIndependent(earlier, Retention30))
  }

  predicate FieldsOk(r: Row, known: set<string>)
    requires r.Attempt?
  {
    && r.item in known
    && 1 <= r.minutes <= 1440 && r.hints >= 0
    && 0 <= r.debugging <= 4 && 0 <= r.testQuality <= 4 && 0 <= r.explanation <= 4
    && r.hasEvidence
  }

  predicate HasKind(rows: seq<Row>, kind: Kind) {
    exists i | 0 <= i < |rows| :: rows[i].Attempt? && rows[i].kind == kind
  }

  predicate HasId(rows: seq<Row>, id: string) {
    exists i | 0 <= i < |rows| :: rows[i].Attempt? && rows[i].id == id
  }

  // What is asked of a row but for its identifier.
  predicate Admissible(prior: seq<Row>, r: Row, known: set<string>) {
    && r.Attempt?
    && (|prior| > 0 ==> prior[|prior| - 1].Attempt? && prior[|prior| - 1].date <= r.date)
    && FieldsOk(r, known)
    && StatusOk(OfItem(prior, r.item), r)
    && (r.kind == First ==> !HasKind(OfItem(prior, r.item), First))
    && RetentionOk(OfItem(prior, r.item), r)
  }

  // Whether a row may follow the rows before it.
  predicate MayFollow(prior: seq<Row>, r: Row, known: set<string>) {
    r.Attempt? && GoodId(r.id) && !HasId(prior, r.id) && Admissible(prior, r, known)
  }

  predicate Accepted(rows: seq<Row>, known: set<string>) {
    |rows| == 0 ||
    (Accepted(rows[..|rows| - 1], known) && MayFollow(rows[..|rows| - 1], rows[|rows| - 1], known))
  }

  // ------------------------------------------------------------- the validator's loop

  method CheckStatus(earlier: seq<Row>, row: Row) returns (ok: bool)
    requires row.Attempt?
    ensures ok == StatusOk(earlier, row)
  {
    if row.status == Unseen {
      return false;
    }
    if row.status in {Solved, SolvedWithoutHelp, InterviewReady} {
      if !row.correct || row.warnings == Fail {
        return false;
      }
    }
    if row.status in {SolvedWithoutHelp, InterviewReady} && !Independent(row) {
      return false;
    }
    if row.status == InterviewReady {
      if row.kind != Review || row.debugging < 3 || row.testQuality < 3 || row.explanation < 3 {
        return false;
      }
      if !(HasIndependent(earlier, Retention7) && HasIndependent(earlier, Retention30)) {
        return false;
      }
    }
    return true;
  }

  method CheckRetention(earlier: seq<Row>, row: Row) returns (ok: bool)
    requires row.Attempt?
    ensures ok == RetentionOk(earlier, row)
  {
    if !IsRetention(row.kind) {
      return true;
    }
    var successes := Successes(earlier);
    if |successes| == 0 {
      return false;
    }
    var anchor := successes[0].date;
    for i := 1 to |successes|
      invariant anchor == Earliest(successes[..i])
    {
      assert successes[..i + 1][..i] == successes[..i];
      if successes[i].date < anchor {
        anchor := successes[i].date;
      }
    }
    assert successes[..|successes|] == successes;
    var days := if row.kind == Retention7 then 7 else 30;
    return row.date - anchor >= days;
  }

  /** Checks the rows in order, growing the identifiers seen and the prior rows; false stands for
      the source's exception. */
  method CheckRows(rows: seq<Row>, known: set<string>) returns (ok: bool)
    ensures ok == Accepted(rows, known) == AllRight(rows, known)
  {
    var seen: set<string> := {};
    var prior: seq<Row> := [];
    var lastDate: Option<int> := None;
    while |prior| < |rows|
      invariant |prior| <= |rows| && prior == rows[..|prior|] && Accepted(prior, known)
      invariant forall id :: id in seen <==> HasId(prior, id)
      invariant if |prior| == 0 then lastDate == None
                else prior[|prior| - 1].Attempt? && lastDate == Some(prior[|prior| - 1].date)
    {
      var row := rows[|prior|];
      ghost var upTo := rows[..|prior| + 1];
      assert upTo[..|prior|] == prior && upTo[|prior|] == row;
      var good := CheckRow(seen, prior, lastDate, row, known);
      if !good {
        RejectedStays(rows, |prior| + 1, known);
        AcceptedIff(rows, known);
        return false;
      }
      HasIdMore(prior, row);
      seen := seen + {row.id};
      lastDate := Some(row.date);
      prior := prior + [row];
      assert prior == upTo;
    }
    assert prior == rows;
    AcceptedIff(rows, known);
    return true;
  }

  method CheckRow(seen: set<string>, prior: seq<Row>, lastDate: Option<int>, row: Row, known: set<string>)
    returns (ok: bool)
    requires forall id :: id in seen <==> HasId(prior, id)
    requires if |prior| == 0 then lastDate == None
             else prior[|prior| - 1].Attempt? && lastDate == Some(prior[|prior| - 1].date)
    ensures ok == MayFollow(prior, row, known)
  {
    if row == Malformed {
      return false;
    }
    if !GoodId(row.id) || row.id in seen {
      return false;
    }
    if lastDate.Some? && row.date < lastDate.value {
      return false;
    }
    if !FieldsOk(row, known) {
      return false;
    }
    var earlier := OfItem(prior, row.item);
    ok := CheckStatus(earlier, row);
    if !ok {
      return;
    }
    if row.kind == First && HasKind(earlier, First) {
      return false;
    }
    ok := CheckRetention(earlier, row);
  }

  lemma HasIdMore(prior: seq<Row>, row: Row)
    requires row.Attempt?
    ensures forall id :: HasId(prior + [row], id) <==> HasId(prior, id) || id == row.id
  {
    var more := prior + [row];
    forall id
      ensures HasId(more, id) <==> HasId(prior, id) || id == row.id
    {
      if HasId(prior, id) {
        var i :| 0 <= i < |prior| && prior[i].Attempt? && prior[i].id == id;
        assert more[i] == prior[i];
      }
      if HasId(more, id) {
        var i :| 0 <= i < |more| && more[i].Attempt? && more[i].id == id;
        if i < |prior| {
          assert more[i] == prior[i];
        }
      }
      assert more[|prior|] == row;
    }
  }

  // ------------------------------------------------------------- appending

  /** Acceptance is closed under prefixes: what was once appended can never be the reason that a
      longer ledger is refused. */
  lemma {:induction false} PrefixAccepted(rows: seq<Row>, k: nat, known: set<string>)
    requires Accepted(rows, known) && k <= |rows|
    ensures Accepted(rows[..k], known)
    decreases |rows|
  {
    if k < |rows| {
      PrefixAccepted(rows[..|rows| - 1], k, known);
      assert rows[..|rows| - 1][..k] == rows[..k];
    } else {
      assert rows[..k] == rows;
    }
  }

  lemma RejectedStays(rows: seq<Row>, k: nat, known: set<string>)
    requires k <= |rows| && !Accepted(rows[..k], known)
    ensures !Accepted(rows, known)
  {
    if Accepted(rows, known) {
      PrefixAccepted(rows, k, known);
    }
  }

  // Every row of an accepted ledger may follow the rows before it.
  lemma RowFollows(rows: seq<Row>, i: nat, known: set<string>)
    requires Accepted(rows, known) && i < |rows|
    ensures MayFollow(rows[..i], rows[i], known)
  {
    PrefixAccepted(rows, i + 1, known);
    assert rows[..i + 1][..i] == rows[..i];
  }

  lemma {:induction false} DatesAscend(rows: seq<Row>, i: nat, j: nat, known: set<string>)
    requires Accepted(rows, known) && i <= j < |rows|
    ensures rows[i].Attempt? && rows[j].Attempt? && rows[i].date <= rows[j].date
    decreases j
  {
    if i == j {
      RowFollows(rows, i, known);
    } else {
      DatesAscend(rows, i, j - 1, known);
      NextDate(rows, j, known);
    }
  }

  lemma NextDate(rows: seq<Row>, j: nat, known: set<string>)
    requires Accepted(rows, known) && 0 < j < |rows|
    ensures rows[j - 1].Attempt? && rows[j].Attempt? && rows[j - 1].date <= rows[j].date
  {
    RowFollows(rows, j, known);
    assert rows[..j][j - 1] == rows[j - 1];
  }

  // ------------------------------------------------------------- the rules and the validator

  lemma {:induction false} OfItemIn(rows: seq<Row>, item: string, r: Row)
    requires r in OfItem(rows, item)
    ensures exists j | 0 <= j < |rows| :: rows[j] == r
  {
  }

  lemma {:induction false} EarliestIsOne(rows: seq<Row>)
    requires |rows| > 0 && AllSuccesses(rows)
    ensures exists i | 0 <= i < |rows| :: IsSuccess(rows[i]) && rows[i].date == Earliest(rows)
    ensures forall i | 0 <= i < |rows| :: IsSuccess(rows[i]) && Earliest(rows) <= rows[i].date
  {
    var last := |rows| - 1;
    assert IsSuccess(rows[last]);
    if |rows| > 1 {
      var front := rows[..last];
      EarliestIsOne(front);
      forall i | 0 <= i < last
        ensures Earliest(rows) <= rows[i].date
      {
        assert front[i] == rows[i];
      }
      var k :| 0 <= k < |front| && IsSuccess(front[k]) && front[k].date == Earliest(front);
      assert rows[k] == front[k];
      assert rows[last].date == Earliest(rows) || rows[k].date == Earliest(rows);
    }
  }

  lemma GoodIdIs(id: string)
    ensures GoodId(id) <==> |id| >= 6 && id[0] == 'A' && forall k | 1 <= k < |id| :: '0' <= id[k] <= '9'
  {
    if |id| >= 6 {
      assert forall i | 0 <= i < |id| - 1 :: id[1..][i] == id[i + 1];
      assert forall k | 1 <= k < |id| :: id[k] == id[1..][k - 1];
    }
  }

  lemma {:induction false} OfItemHas(rows: seq<Row>, item: string, j: nat)
    requires j < |rows| && rows[j].Attempt? && rows[j].item == item
    ensures rows[j] in OfItem(rows, item)
  {
    var n := |rows| - 1;
    if j < n {
      OfItemHas(rows[..n], item, j);
      assert rows[..n][j] == rows[j];
    }
  }

  lemma {:induction false} SuccessesHas(rows: seq<Row>, r: Row)
    requires r in rows && IsSuccess(r)
    ensures r in Successes(rows)
  {
    var n := |rows| - 1;
    if r != rows[n] {
      assert r in rows[..n];
      SuccessesHas(rows[..n], r);
    }
  }

  lemma KindIff(prior: seq<Row>, item: string, kind: Kind)
    ensures HasKind(OfItem(prior, item), kind) <==>
            exists j | 0 <= j < |prior| :: prior[j].Attempt? && prior[j].item == item && prior[j].kind == kind
  {
    var earlier := OfItem(prior, item);
    if HasKind(earlier, kind) {
      var e :| 0 <= e < |earlier| && earlier[e].Attempt? && earlier[e].kind == kind;
      assert earlier[e] in earlier;
      OfItemIn(prior, item, earlier[e]);
    }
    if exists j | 0 <= j < |prior| :: prior[j].Attempt? && prior[j].item == item && prior[j].kind == kind {
      var j :| 0 <= j < |prior| && prior[j].Attempt? && prior[j].item == item && prior[j].kind == kind;
      OfItemHas(prior, item, j);
    }
  }

  lemma IndependentIff(prior: seq<Row>, item: string, kind: Kind, day: int)
    requires forall j | 0 <= j < |prior| :: prior[j].Attempt? ==> prior[j].date <= day
    ensures HasIndependent(OfItem(prior, item), kind) <==> RetestBy(prior, |prior|, item, kind, day)
  {
    var earlier := OfItem(prior, item);
    if HasIndependent(earlier, kind) {
      var e :| 0 <= e < |earlier| && earlier[e].Attempt? && earlier[e].kind == kind && Independent(earlier[e]);
      assert earlier[e] in earlier;
      OfItemIn(prior, item, earlier[e]);
    }
    if RetestBy(prior, |prior|, item, kind, day) {
      var j :| 0 <= j < |prior| && prior[j].Attempt? && prior[j].item == item && prior[j].kind == kind
               && prior[j].correct && !prior[j].assisted && prior[j].hints == 0;
      OfItemHas(prior, item, j);
    }
  }

  // The earliest success is early enough exactly when some success is.
  lemma EarliestIff(prior: seq<Row>, item: string, day: int)
    ensures var successes := Successes(OfItem(prior, item));
            |successes| > 0 && Earliest(successes) <= day <==> SuccessBy(prior, |prior|, item, day)
  {
    var successes := Successes(OfItem(prior, item));
    if |successes| > 0 {
      EarliestIsOne(successes);
      if Earliest(successes) <= day {
        var s :| 0 <= s < |successes| && IsSuccess(successes[s]) && successes[s].date == Earliest(successes);
        assert successes[s] in successes;
        OfItemIn(prior, item, successes[s]);
      }
    }
    if SuccessBy(prior, |prior|, item, day) {
      var j :| 0 <= j < |prior| && prior[j].Attempt? && prior[j].item == item && prior[j].correct
               && (prior[j].kind == First || prior[j].kind == Review) && prior[j].date <= day;
      OfItemHas(prior, item, j);
      SuccessesHas(OfItem(prior, item), prior[j]);
      var s :| 0 <= s < |successes| && successes[s] == prior[j];
      assert Earliest(successes) <= successes[s].date;
    }
  }

  // What is said of the rows before row n does not depend on the later ones.
  lemma BeforeOnly(rows: seq<Row>, n: nat, item: string, kind: Kind, day: int)
    requires n <= |rows|
    ensures SuccessBy(rows[..n], n, item, day) <==> SuccessBy(rows, n, item, day)
    ensures RetestBy(rows[..n], n, item, kind, day) <==> RetestBy(rows, n, item, kind, day)
  {
    assert forall j | 0 <= j < n :: rows[..n][j] == rows[j];
  }

  lemma IdIff(rows: seq<Row>, n: nat)
    requires n < |rows| && rows[n].Attempt?
    ensures GoodId(rows[n].id) && !HasId(rows[..n], rows[n].id) <==> IdRight(rows, n)
  {
    GoodIdIs(rows[n].id);
    assert forall j | 0 <= j < n :: rows[..n][j] == rows[j];
  }

  lemma DateIff(rows: seq<Row>, n: nat, known: set<string>)
    requires n < |rows| && rows[n].Attempt? && Accepted(rows[..n], known)
    ensures (n > 0 ==> rows[n - 1].Attempt? && rows[n - 1].date <= rows[n].date) <==>
            forall j | 0 <= j < n :: rows[j].Attempt? && rows[j].date <= rows[n].date
  {
    if n > 0 && rows[n - 1].Attempt? && rows[n - 1].date <= rows[n].date {
      forall j | 0 <= j < n
        ensures rows[j].Attempt? && rows[j].date <= rows[n].date
      {
        DatesAscend(rows[..n], j, n - 1, known);
        assert rows[..n][j] == rows[j] && rows[..n][n - 1] == rows[n - 1];
      }
    }
  }

  lemma FirstIff(rows: seq<Row>, n: nat)
    requires n < |rows| && rows[n].Attempt? && forall j | 0 <= j < n :: rows[j].Attempt?
    ensures !HasKind(OfItem(rows[..n], rows[n].item), First) <==>
            forall j | 0 <= j < n :: rows[j].item == rows[n].item ==> rows[j].kind != First
  {
    KindIff(rows[..n], rows[n].item, First);
    assert forall j | 0 <= j < n :: rows[..n][j] == rows[j];
  }

  lemma RetentionIff(rows: seq<Row>, n: nat)
    requires n < |rows| && rows[n].Attempt?
    ensures RetentionOk(OfItem(rows[..n], rows[n].item), rows[n]) <==>
            && (rows[n].kind == Retention7 ==> SuccessBy(rows, n, rows[n].item, rows[n].date - 7))
            && (rows[n].kind == Retention30 ==> SuccessBy(rows, n, rows[n].item, rows[n].date - 30))
  {
    var item, day := rows[n].item, rows[n].date;
    EarliestIff(rows[..n], item, day - 7);
    EarliestIff(rows[..n], item, day - 30);
    BeforeOnly(rows, n, item, First, day - 7);
    BeforeOnly(rows, n, item, First, day - 30);
  }

  lemma ReadyIff(rows: seq<Row>, n: nat, kind: Kind)
    requires n < |rows| && rows[n].Attempt?
    requires forall j | 0 <= j < n :: rows[j].Attempt? && rows[j].date <= rows[n].date
    ensures HasIndependent(OfItem(rows[..n], rows[n].item), kind) <==>
            RetestBy(rows, n, rows[n].item, kind, rows[n].date)
  {
    assert forall j | 0 <= j < n :: rows[..n][j] == rows[j];
    IndependentIff(rows[..n], rows[n].item, kind, rows[n].date);
    BeforeOnly(rows, n, rows[n].item, kind, rows[n].date);
  }

  lemma AdmissibleIff(rows: seq<Row>, n: nat, known: set<string>)
    requires n < |rows| && Accepted(rows[..n], known)
    ensures Admissible(rows[..n], rows[n], known) <==> ContentRight(rows, n, known)
  {
    if rows[n].Attempt? {
      DateIff(rows, n, known);
      RetentionIff(rows, n);
      if forall j | 0 <= j < n :: rows[j].Attempt? && rows[j].date <= rows[n].date {
        FirstIff(rows, n);
        ReadyIff(rows, n, Retention7);
        ReadyIff(rows, n, Retention30);
      }
    }
  }

  lemma FrontRight(rows: seq<Row>, n: nat, i: nat, known: set<string>)
    requires i < n <= |rows|
    ensures IdRight(rows[..n], i) <==> IdRight(rows, i)
    ensures ContentRight(rows[..n], i, known) <==> ContentRight(rows, i, known)
  {
    var front := rows[..n];
    assert forall j | 0 <= j < n :: front[j] == rows[j];
  }

  /** A ledger is accepted exactly when every row is right, by its fields and those of the rows before
      it. */
  lemma {:induction false} AcceptedIff(rows: seq<Row>, known: set<string>)
    ensures Accepted(rows, known) <==> AllRight(rows, known)
  {
    if |rows| > 0 {
      var n := |rows| - 1;
      AcceptedIff(rows[..n], known);
      forall i | 0 <= i < n
        ensures IdRight(rows[..n], i) && ContentRight(rows[..n], i, known)
                <==> IdRight(rows, i) && ContentRight(rows, i, known)
      {
        FrontRight(rows, n, i, known);
      }
      if Accepted(rows[..n], known) {
        AdmissibleIff(rows, n, known);
        if rows[n].Attempt? {
          IdIff(rows, n);
        }
      }
    }
  }

  // ------------------------------------------------------------- interview ready

  // Position i holds a retest of its item, correct and without any help, at least so many days after
  // an earlier correct first or review attempt.
  ghost predicate Retained(rows: seq<Row>, i: nat, item: string, kind: Kind, days: nat) {
    && i < |rows| && rows[i].Attempt? && rows[i].item == item && rows[i].kind == kind
    && rows[i].correct && !rows[i].assisted && rows[i].hints == 0
    && SuccessBy(rows, i, item, rows[i].date - days)
  }

  /** Behind every Interview Ready row of an accepted ledger stand two retests of the same item, each
      correct and without any help, one at least 7 and one at least 30 days after an earlier correct
      first or review attempt. */
  lemma InterviewReadyIsEarned(rows: seq<Row>, i: nat, known: set<string>)
    requires Accepted(rows, known) && i < |rows| && rows[i].Attempt? && rows[i].status == InterviewReady
    ensures exists j | 0 <= j < i :: Retained(rows, j, rows[i].item, Retention7, 7)
    ensures exists j | 0 <= j < i :: Retained(rows, j, rows[i].item, Retention30, 30)
    ensures rows[i].kind == Review && rows[i].correct && !rows[i].assisted && rows[i].hints == 0
  {
    AcceptedIff(rows, known);
    assert ContentRight(rows, i, known);
    EvidenceRetained(rows, i, rows[i].item, Retention7, 7, known);
    EvidenceRetained(rows, i, rows[i].item, Retention30, 30, known);
  }

  lemma EvidenceRetained(rows: seq<Row>, i: nat, item: string, kind: Kind, days: nat, known: set<string>)
    requires AllRight(rows, known) && i < |rows| && rows[i].Attempt? && RetestBy(rows, i, item, kind, rows[i].date)
    requires (kind == Retention7 && days == 7) || (kind == Retention30 && days == 30)
    ensures exists j | 0 <= j < i :: Retained(rows, j, item, kind, days)
  {
    var j :| 0 <= j < i && rows[j].Attempt? && rows[j].item == item && rows[j].kind == kind
             && rows[j].correct && !rows[j].assisted && rows[j].hints == 0;
    assert ContentRight(rows, j, known);
    assert Retained(rows, j, item, kind, days);
  }
}
