/** The identifiers of the ledger as numbers, and the one that the next row gets. */
module LedgerIds {
  import opened Ledger

  function Value(s: string): nat
    requires AllDigits(s)
  {
    if |s| == 0 then 0 else 10 * Value(s[..|s| - 1]) + (s[|s| - 1] as int - '0' as int)
  }

  function Digit(n: nat): (c: char)
    requires n < 10
    ensures IsDigit(c) && c as int - '0' as int == n
  {
    (n + '0' as int) as char
  }

  function DigitsOf(n: nat): (s: string)
    ensures |s| > 0 && AllDigits(s)
  {
    if n < 10 then [Digit(n)] else DigitsOf(n / 10) + [Digit(n % 10)]
  }

  function Padded(s: string, width: nat): (t: string)
    requires AllDigits(s)
    ensures AllDigits(t) && |t| == (if |s| >= width then |s| else width) && (|s| >= width ==> t == s)
    decreases width - |s|
  {
    if |s| >= width then s else Padded("0" + s, width)
  }

  lemma {:induction false} ValueOfDigits(n: nat)
    ensures Value(DigitsOf(n)) == n
  {
    if n >= 10 {
      ValueOfDigits(n / 10);
      assert DigitsOf(n)[..|DigitsOf(n)| - 1] == DigitsOf(n / 10);
    } else {
      assert DigitsOf(n)[..0] == "";
    }
  }

  lemma {:induction false} LeadingZero(s: string)
    requires AllDigits(s)
    ensures Value("0" + s) == Value(s)
  {
    if |s| > 0 {
      LeadingZero(s[..|s| - 1]);
      assert ("0" + s)[..|s|] == "0" + s[..|s| - 1];
    } else {
      assert ("0" + s)[..0] == "";
    }
  }

  lemma {:induction false} ValueOfPadded(s: string, width: nat)
    requires AllDigits(s)
    ensures Value(Padded(s, width)) == Value(s)
    decreases width - |s|
  {
    if |s| < width {
      LeadingZero(s);
      ValueOfPadded("0" + s, width);
    }
  }

  function Number(id: string): nat
    requires GoodId(id)
  {
    Value(id[1..])
  }

  // ------------------------------------------------------------- the next identifier

  function MaxNumber(rows: seq<Row>): nat
    requires forall r | r in rows :: r.Attempt? && GoodId(r.id)
  {
    if |rows| == 0 then 0
    else
      var front, last := MaxNumber(rows[..|rows| - 1]), Number(rows[|rows| - 1].id);
      if last > front then last else front
  }

  lemma {:induction false} MaxNumberBounds(rows: seq<Row>, i: nat)
    requires (forall r | r in rows :: r.Attempt? && GoodId(r.id)) && i < |rows|
    ensures Number(rows[i].id) <= MaxNumber(rows)
  {
    if i < |rows| - 1 {
      MaxNumberBounds(rows[..|rows| - 1], i);
    }
  }

  // The identifier that `log` gives the next row.
  function NextId(rows: seq<Row>): string
    requires forall r | r in rows :: r.Attempt? && GoodId(r.id)
  {
    "A" + Padded(DigitsOf(MaxNumber(rows) + 1), 5)
  }

  lemma AcceptedIds(rows: seq<Row>, known: set<string>)
    requires Accepted(rows, known)
    ensures forall r | r in rows :: r.Attempt? && GoodId(r.id)
  {
    forall i | 0 <= i < |rows|
      ensures rows[i].Attempt? && GoodId(rows[i].id)
    {
      RowFollows(rows, i, known);
    }
  }

  lemma {:induction false} MaxNumberIsOne(rows: seq<Row>)
    requires forall r | r in rows :: r.Attempt? && GoodId(r.id)
    ensures MaxNumber(rows) == 0 || exists i | 0 <= i < |rows| :: Number(rows[i].id) == MaxNumber(rows)
  {
    if |rows| > 0 {
      var n := |rows| - 1;
      MaxNumberIsOne(rows[..n]);
      if MaxNumber(rows) != 0 && Number(rows[n].id) != MaxNumber(rows) {
        var i :| 0 <= i < n && Number(rows[..n][i].id) == MaxNumber(rows[..n]);
        assert rows[i] == rows[..n][i];
      }
    }
  }

  lemma {:induction false} NoLeadingZero(n: nat)
    requires n > 0
    ensures DigitsOf(n)[0] != '0'
  {
    if n >= 10 {
      NoLeadingZero(n / 10);
    }
  }

  /** Its number is one more than the largest in the ledger, or 1, and it has five digits or, without a
      leading zero, more. */
  lemma NextIdIsNext(rows: seq<Row>, known: set<string>)
    requires Accepted(rows, known)
    ensures forall r | r in rows :: r.Attempt? && GoodId(r.id)
    ensures var id := NextId(rows);
            && GoodId(id)
            && (forall i | 0 <= i < |rows| :: Number(rows[i].id) < Number(id))
            && (Number(id) == 1 || exists i | 0 <= i < |rows| :: Number(rows[i].id) + 1 == Number(id))
            && (|id| == 6 || (|id| > 6 && id[1] != '0'))
  {
    AcceptedIds(rows, known);
    NextIdNumber(rows);
    MaxNumberIsOne(rows);
    NoLeadingZero(MaxNumber(rows) + 1);
    forall i | 0 <= i < |rows|
      ensures Number(rows[i].id) <= MaxNumber(rows)
    {
      MaxNumberBounds(rows, i);
    }
  }

  lemma NextIdNumber(rows: seq<Row>)
    requires forall r | r in rows :: r.Attempt? && GoodId(r.id)
    ensures GoodId(NextId(rows)) && Number(NextId(rows)) == MaxNumber(rows) + 1
  {
    var n := MaxNumber(rows) + 1;
    ValueOfDigits(n);
    ValueOfPadded(DigitsOf(n), 5);
    assert NextId(rows)[1..] == Padded(DigitsOf(n), 5);
  }

  /** The digits are decimal: the first identifier is A00001, A00010 follows A00009, and A100000
      follows A99999. */
  lemma NextIdInDigits(rows: seq<Row>)
    requires (forall r | r in rows :: r.Attempt? && GoodId(r.id)) && |rows| <= 1
    ensures rows == [] ==> NextId(rows) == "A00001"
    ensures rows != [] && rows[0].id == "A00009" ==> NextId(rows) == "A00010"
    ensures rows != [] && rows[0].id == "A99999" ==> NextId(rows) == "A100000"
  {
    TensRead();
    PaddedWith("0000", "1", 5);
    PaddedWith("000", "10", 5);
    if rows != [] {
      assert rows[..0] == [] && MaxNumber(rows[..0]) == 0;
      assert MaxNumber(rows) == Number(rows[0].id);
      NinesRead(rows[0].id);
    }
  }

  lemma {:induction false} PaddedWith(zeros: string, s: string, width: nat)
    requires AllDigits(s) && |zeros| + |s| == width && forall i | 0 <= i < |zeros| :: zeros[i] == '0'
    ensures Padded(s, width) == zeros + s
  {
    if zeros == [] {
      assert zeros + s == s;
    } else {
      PaddedWith(zeros[1..], "0" + s, width);
      assert zeros[1..] + ("0" + s) == zeros + s;
    }
  }

  lemma DigitsMore(n: nat, d: nat)
    requires n > 0 && d < 10
    ensures DigitsOf(10 * n + d) == DigitsOf(n) + [Digit(d)]
  {
    assert (10 * n + d) / 10 == n && (10 * n + d) % 10 == d;
  }

  lemma TensRead()
    ensures DigitsOf(1) == "1" && DigitsOf(10) == "10" && DigitsOf(100000) == "100000"
  {
    DigitsMore(1, 0);
    DigitsMore(10, 0);
    DigitsMore(100, 0);
    DigitsMore(1000, 0);
    DigitsMore(10000, 0);
  }

  lemma NinesDigits()
    ensures DigitsOf(9) == "9" && DigitsOf(99999) == "99999"
  {
    DigitsMore(9, 9);
    DigitsMore(99, 9);
    DigitsMore(999, 9);
    DigitsMore(9999, 9);
  }

  lemma NinesRead(id: string)
    requires GoodId(id)
    ensures id == "A00009" ==> Number(id) == 9
    ensures id == "A99999" ==> Number(id) == 99999
  {
    NinesDigits();
    PaddedWith("0000", "9", 5);
    ValueOfDigits(9);
    ValueOfPadded(DigitsOf(9), 5);
    ValueOfDigits(99999);
    assert Padded(DigitsOf(9), 5) == "00009";
    assert id == "A00009" ==> id[1..] == "00009";
    assert id == "A99999" ==> id[1..] == "99999";
  }

  /** The next identifier is well formed and occurs nowhere in the ledger, although identifiers
      are compared as texts and chosen as numbers. */
  lemma NextIdIsFresh(rows: seq<Row>, known: set<string>)
    requires Accepted(rows, known)
    ensures (forall r | r in rows :: r.Attempt? && GoodId(r.id)) && GoodId(NextId(rows)) && !HasId(rows, NextId(rows))
  {
    AcceptedIds(rows, known);
    NextIdNumber(rows);
    if HasId(rows, NextId(rows)) {
      var i :| 0 <= i < |rows| && rows[i].Attempt? && rows[i].id == NextId(rows);
      MaxNumberBounds(rows, i);
    }
  }
}
