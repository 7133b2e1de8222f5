/** tableauAmort and tableauAmort_amd: the amortisation table of a loan, a
    header followed by one row per period. Each row opens with the balance
    the previous row closed with; its principal is the payment less the
    interest, and its closing balance the opening less the principal, both
    rounded to cents. The deferred variant starts with interest-only rows
    and returns the header and the rows of the requested periods. */
module Schedule {
  import opened Arith
  import opened Formulas
  import opened Primitives

  // ---------------------------------------------------------------------
  // The table

  /** One period of the table (`ligne`). */
  datatype Row = Row(periode: int, soldeDep: real, interet: real, amort: real, srd: real)

  /** Element 0 of the table. `m` is the payment of the regular rows;
      `mAmd` the payment of the deferral, present only in the deferred table. */
  datatype Header = Header(K0: real, n: int, t: real, m: Option<real>, mAmd: Option<real>,
                           p1: int, p2: real)

  /** An element of the array the source returns: the header or a row. */
  datatype Entry = Head(header: Header) | Line(row: Row)

  function Lines(rows: seq<Row>): (es: seq<Entry>)
    ensures |es| == |rows|
    ensures forall k :: 0 <= k < |rows| ==> es[k] == Line(rows[k])
  {
    seq(|rows|, k requires 0 <= k < |rows| => Line(rows[k]))
  }

  lemma LinesAppend(rows: seq<Row>, r: Row)
    ensures Lines(rows + [r]) == Lines(rows) + [Line(r)]
  {
  }

  lemma LinesConcat(a: seq<Row>, b: seq<Row>)
    ensures Lines(a + b) == Lines(a) + Lines(b)
  {
  }

  lemma LinesSlice(rows: seq<Row>, i: int, j: int)
    requires 0 <= i <= j <= |rows|
    ensures Lines(rows)[i..j] == Lines(rows[i..j])
  {
  }

  /** A period bound given as an optional number: kept when it is an
      integer, replaced by `d` when absent or not an integer. */
  function IntOr(x: Option<real>, d: int): (r: int)
    ensures x.Some? && IsInt(x.value) ==> r as real == x.value
    ensures !(x.Some? && IsInt(x.value)) ==> r == d
  {
    if x.Some? && IsInt(x.value) then x.value.Floor else d
  }

  /** The last period of tableauAmort: `n` when `p2` is absent or when its
      integer part equals the first period `q1`; otherwise `p2` as given. */
  function RegularEnd(p2: Option<real>, q1: int, n: int): (r: real)
    ensures p2.None? || Trunc(p2.value) == q1 ==> r == n as real
    ensures p2.Some? && Trunc(p2.value) != q1 ==> r == p2.value
  {
    if p2.None? || Trunc(p2.value) == q1 then n as real else p2.value
  }

  function NonNeg(d: int): nat {
    if d > 0 then d else 0
  }

  // ---------------------------------------------------------------------
  // The rows of a regular schedule

  /** The interest of a period on the opening balance `srd`: exact in
      tableauAmort, rounded to cents in tableauAmort_amd. */
  function Interest(srd: real, t: real, rounded: bool): real {
    if rounded then Arrondi(srd * t, Some(2.0)) else srd * t
  }

  /** The row of period `i` opening with `srd`, for the payment `mens`. */
  function Ligne(i: int, srd: real, mens: real, t: real, rounded: bool): Row {
    var interet := Interest(srd, t, rounded);
    var amort := Arrondi(mens - interet, Some(2.0));
    Row(i, srd, interet, amort, Arrondi(srd - amort, Some(2.0)))
  }

  /** The rows the loop `while (srd > 0 && i < stop)` pushes from balance
      `srd` after period `i`. */
  function Rows(mens: real, t: real, rounded: bool, srd: real, i: int, stop: real): seq<Row>
    decreases if (i as real) < stop then (stop - i as real).Floor + 1 else 0
  {
    if srd > 0.0 && (i as real) < stop then
      var row := Ligne(i + 1, srd, mens, t, rounded);
      [row] + Rows(mens, t, rounded, row.srd, i + 1, stop)
    else []
  }

  /** The amounts of a row follow from its opening balance. */
  predicate RowOf(r: Row, mens: real, t: real, rounded: bool) {
    r.interet == Interest(r.soldeDep, t, rounded) &&
    r.amort == Arrondi(mens - r.interet, Some(2.0)) &&
    r.srd == Arrondi(r.soldeDep - r.amort, Some(2.0))
  }

  /** The balance before row `k`: `srd0` for the first, then the closing
      balance of the row before; for `k = |rows|`, the balance the rows end with. */
  function Opening(rows: seq<Row>, srd0: real, k: int): real
    requires 0 <= k <= |rows|
  {
    if k == 0 then srd0 else rows[k - 1].srd
  }

  /** A ledger from balance `srd0` after period `i0`, stopping at `stop`:
      consecutive periods; each row opening with the balance before it, which
      was positive, in a period after which the loop's bound still held; the
      amounts of each row following from its opening; and the loop's test
      failing on the balance and period the rows end with. */
  ghost predicate Ledger(rows: seq<Row>, mens: real, t: real, rounded: bool,
                         srd0: real, i0: int, stop: real)
  {
    (forall k :: 0 <= k < |rows| ==> rows[k].periode == i0 + 1 + k) &&
    (forall k :: 0 <= k < |rows| ==> rows[k].soldeDep == Opening(rows, srd0, k)) &&
    (forall k :: 0 <= k < |rows| ==> Opening(rows, srd0, k) > 0.0 && ((i0 + k) as real) < stop) &&
    (forall k :: 0 <= k < |rows| ==> RowOf(rows[k], mens, t, rounded)) &&
    !(Opening(rows, srd0, |rows|) > 0.0 && ((i0 + |rows|) as real) < stop)
  }

  /** The rows the loop pushes are exactly the ledger from its start. */
  lemma RowsCharacterised(rows: seq<Row>, mens: real, t: real, rounded: bool, srd0: real, i0: int, stop: real)
    ensures Ledger(rows, mens, t, rounded, srd0, i0, stop) <==> rows == Rows(mens, t, rounded, srd0, i0, stop)
  {
    if rows == Rows(mens, t, rounded, srd0, i0, stop) {
      RowsLedger(mens, t, rounded, srd0, i0, stop);
    }
    if Ledger(rows, mens, t, rounded, srd0, i0, stop) {
      LedgerRows(rows, mens, t, rounded, srd0, i0, stop);
    }
  }

  lemma {:induction false} RowsLedger(mens: real, t: real, rounded: bool, srd0: real, i0: int, stop: real)
    ensures Ledger(Rows(mens, t, rounded, srd0, i0, stop), mens, t, rounded, srd0, i0, stop)
    decreases if (i0 as real) < stop then (stop - i0 as real).Floor + 1 else 0
  {
    if srd0 > 0.0 && (i0 as real) < stop {
      var row := Ligne(i0 + 1, srd0, mens, t, rounded);
      var rest := Rows(mens, t, rounded, row.srd, i0 + 1, stop);
      RowsLedger(mens, t, rounded, row.srd, i0 + 1, stop);
      LedgerCons(row, rest, mens, t, rounded, srd0, i0, stop);
    }
  }

  /** A row opening with a positive `srd0` in a period within the bound,
      followed by a ledger from its closing balance, is a ledger. */
  lemma LedgerCons(row: Row, rest: seq<Row>, mens: real, t: real, rounded: bool, srd0: real, i0: int, stop: real)
    requires srd0 > 0.0 && (i0 as real) < stop
    requires row == Ligne(i0 + 1, srd0, mens, t, rounded)
    requires Ledger(rest, mens, t, rounded, row.srd, i0 + 1, stop)
    ensures Ledger([row] + rest, mens, t, rounded, srd0, i0, stop)
  {
    var rows := [row] + rest;
    forall k | 0 <= k < |rows|
      ensures rows[k].periode == i0 + 1 + k && rows[k].soldeDep == Opening(rows, srd0, k)
      ensures Opening(rows, srd0, k) > 0.0 && ((i0 + k) as real) < stop
      ensures RowOf(rows[k], mens, t, rounded)
    {
      if k > 0 {
        assert rows[k] == rest[k - 1];
        assert Opening(rows, srd0, k) == Opening(rest, row.srd, k - 1) by {
          if k > 1 {
            assert rows[k - 1] == rest[k - 2];
          }
        }
      }
    }
    assert Opening(rows, srd0, |rows|) == Opening(rest, row.srd, |rest|) by {
      if |rest| > 0 {
        assert rows[|rows| - 1] == rest[|rest| - 1];
      }
    }
  }

  lemma {:induction false} LedgerRows(rows: seq<Row>, mens: real, t: real, rounded: bool, srd0: real, i0: int, stop: real)
    requires Ledger(rows, mens, t, rounded, srd0, i0, stop)
    ensures rows == Rows(mens, t, rounded, srd0, i0, stop)
    decreases |rows|
  {
    if |rows| > 0 {
      LedgerHead(rows, mens, t, rounded, srd0, i0, stop);
      LedgerTail(rows, mens, t, rounded, srd0, i0, stop);
      LedgerRows(rows[1..], mens, t, rounded, rows[0].srd, i0 + 1, stop);
      assert rows == [rows[0]] + rows[1..];
    } else {
      assert Opening(rows, srd0, 0) == srd0;
    }
  }

  /** The first row of a ledger is the row the loop pushes first. */
  lemma LedgerHead(rows: seq<Row>, mens: real, t: real, rounded: bool, srd0: real, i0: int, stop: real)
    requires |rows| > 0 && Ledger(rows, mens, t, rounded, srd0, i0, stop)
    ensures srd0 > 0.0 && (i0 as real) < stop
    ensures rows[0] == Ligne(i0 + 1, srd0, mens, t, rounded)
  {
    assert Opening(rows, srd0, 0) == srd0;
    assert rows[0].periode == i0 + 1 && rows[0].soldeDep == srd0;
    RowIsLigne(rows[0], i0 + 1, srd0, mens, t, rounded);
  }

  lemma RowIsLigne(r: Row, i: int, srd: real, mens: real, t: real, rounded: bool)
    requires r.periode == i && r.soldeDep == srd && RowOf(r, mens, t, rounded)
    ensures r == Ligne(i, srd, mens, t, rounded)
  {
  }

  /** The rows after the first of a ledger are a ledger from its closing balance. */
  lemma LedgerTail(rows: seq<Row>, mens: real, t: real, rounded: bool, srd0: real, i0: int, stop: real)
    requires |rows| > 0 && Ledger(rows, mens, t, rounded, srd0, i0, stop)
    ensures Ledger(rows[1..], mens, t, rounded, rows[0].srd, i0 + 1, stop)
  {
    var rest := rows[1..];
    forall k | 0 <= k <= |rest|
      ensures Opening(rest, rows[0].srd, k) == Opening(rows, srd0, k + 1)
    {
    }
    forall k | 0 <= k < |rest|
      ensures rest[k] == rows[k + 1]
    {
    }
  }

  /** Every row of a ledger from a balance in cents closes exactly at its
      opening balance less its principal, in cents (no rounding is lost). */
  lemma LedgerCents(rows: seq<Row>, mens: real, t: real, rounded: bool, srd0: real, i0: int, stop: real)
    requires Ledger(rows, mens, t, rounded, srd0, i0, stop) && IsCents(srd0)
    ensures forall k :: 0 <= k < |rows| ==> IsCents(rows[k].srd) && IsCents(rows[k].amort)
    ensures forall k :: 0 <= k < |rows| ==> rows[k].srd == rows[k].soldeDep - rows[k].amort
  {
    forall k | 0 <= k < |rows|
      ensures IsCents(rows[k].srd) && IsCents(rows[k].amort)
      ensures rows[k].srd == rows[k].soldeDep - rows[k].amort
    {
      if k > 0 {
        assert RowOf(rows[k - 1], mens, t, rounded);
        ArrondiCents(rows[k - 1].soldeDep - rows[k - 1].amort);
      }
      assert IsCents(rows[k].soldeDep);
      assert RowOf(rows[k], mens, t, rounded);
      RowCents(rows[k], mens, t, rounded);
    }
  }

  lemma RowCents(r: Row, mens: real, t: real, rounded: bool)
    requires RowOf(r, mens, t, rounded) && IsCents(r.soldeDep)
    ensures IsCents(r.srd) && IsCents(r.amort) && r.srd == r.soldeDep - r.amort
  {
    ArrondiCents(mens - r.interet);
    CentsSub(r.soldeDep, r.amort);
    ArrondiCentsExact(r.soldeDep - r.amort);
  }

  /** The principal of the rows, added up. */
  function SumAmort(rows: seq<Row>): real {
    if rows == [] then 0.0 else SumAmort(rows[..|rows| - 1]) + rows[|rows| - 1].amort
  }

  /** From a balance in cents, the principal of the rows adds up to the
      balance they open with less the balance they end with. */
  lemma PrincipalRepaid(rows: seq<Row>, mens: real, t: real, rounded: bool, srd0: real, i0: int, stop: real)
    requires Ledger(rows, mens, t, rounded, srd0, i0, stop) && IsCents(srd0)
    ensures SumAmort(rows) == srd0 - Opening(rows, srd0, |rows|)
  {
    LedgerCents(rows, mens, t, rounded, srd0, i0, stop);
    PrincipalRepaidUpTo(rows, srd0, |rows|);
    assert rows[..|rows|] == rows;
  }

  lemma {:induction false} PrincipalRepaidUpTo(rows: seq<Row>, srd0: real, j: nat)
    requires j <= |rows|
    requires forall k :: 0 <= k < |rows| ==> rows[k].soldeDep == Opening(rows, srd0, k)
    requires forall k :: 0 <= k < |rows| ==> rows[k].srd == rows[k].soldeDep - rows[k].amort
    ensures SumAmort(rows[..j]) == srd0 - Opening(rows, srd0, j)
  {
    if j > 0 {
      PrincipalRepaidUpTo(rows, srd0, j - 1);
      assert rows[..j][..j - 1] == rows[..j - 1];
      assert rows[j - 1].soldeDep == Opening(rows, srd0, j - 1);
    }
  }

  /** In every row the interest and the principal add up to the payment, to
      within half a cent. */
  lemma RowPaymentSplit(r: Row, mens: real, t: real, rounded: bool)
    requires RowOf(r, mens, t, rounded)
    ensures mens - 0.005 < r.interet + r.amort <= mens + 0.005
  {
    ArrondiCents(mens - r.interet);
  }

  /** At rate 0 and a payment in cents, every row has no interest and repays the payment. */
  lemma ZeroRateRows(rows: seq<Row>, mens: real, rounded: bool, srd0: real, i0: int, stop: real)
    requires Ledger(rows, mens, 0.0, rounded, srd0, i0, stop) && IsCents(mens)
    ensures forall k :: 0 <= k < |rows| ==> rows[k].interet == 0.0 && rows[k].amort == mens
  {
    OnGrid0();
    ArrondiCentsExact(0.0);
    ArrondiCentsExact(mens);
  }

  /** Row `j` of a zero-rate run from `r` payments of `mens` after period
      `i`: it opens with `r - j` payments, has no interest, repays one
      payment and closes with `r - j - 1`. */
  function ZeroRow(i: int, r: int, j: int, mens: real): Row {
    Row(i + 1 + j, (r - j) as real * mens, 0.0, mens, (r - j - 1) as real * mens)
  }

  lemma ZeroRowShift(i: int, r: int, j: int, mens: real)
    ensures ZeroRow(i + 1, r - 1, j - 1, mens) == ZeroRow(i, r, j, mens)
  {
    SameTimes((r - 1) - (j - 1), r - j, mens);
    SameTimes((r - 1) - (j - 1) - 1, r - j - 1, mens);
  }

  lemma ZeroRowFirst(i: int, r: int, k: int, mens: real)
    requires k == r - 1
    ensures ZeroRow(i, r, 0, mens) == Row(i + 1, r as real * mens, 0.0, mens, k as real * mens)
  {
    SameTimes(r - 0, r, mens);
    SameTimes(r - 0 - 1, k, mens);
  }

  /** At rate 0, from a balance of `r` payments in cents, the loop runs until
      period `i + r` and pushes the `r` rows of the zero-rate run. */
  lemma {:induction false} ZeroRateRun(mens: real, r: nat, i: int, stop: real)
    requires mens > 0.0 && IsCents(mens) && stop == (i + r) as real
    ensures var rows := Rows(mens, 0.0, false, r as real * mens, i, stop);
      |rows| == r && forall j :: 0 <= j < r ==> rows[j] == ZeroRow(i, r, j, mens)
  {
    var srd := r as real * mens;
    if r > 0 {
      var k: nat := r - 1;
      var next := k as real * mens;
      PositiveTimes(r as real, mens);
      OnePaymentLess(r, k, mens);
      CentsTimes(k, mens);
      ZeroRateStep(mens, srd, next, i, stop);
      ZeroRateRun(mens, k, i + 1, stop);
      var rest := Rows(mens, 0.0, false, next, i + 1, stop);
      ZeroRowFirst(i, r, k, mens);
      ConsZeroRows(Rows(mens, 0.0, false, srd, i, stop), rest, i, r, mens);
    } else {
      assert srd == 0.0;
    }
  }

  /** A first row and the run after it make the run. */
  lemma ConsZeroRows(rows: seq<Row>, rest: seq<Row>, i: int, r: int, mens: real)
    requires r > 0 && rows == [ZeroRow(i, r, 0, mens)] + rest && |rest| == r - 1
    requires forall j :: 0 <= j < r - 1 ==> rest[j] == ZeroRow(i + 1, r - 1, j, mens)
    ensures |rows| == r && forall j :: 0 <= j < r ==> rows[j] == ZeroRow(i, r, j, mens)
  {
    forall j | 1 <= j < r
      ensures rows[j] == ZeroRow(i, r, j, mens)
    {
      assert rows[j] == rest[j - 1];
      ZeroRowShift(i, r, j, mens);
    }
  }

  /** One period at rate 0: the row repays one payment of the balance. */
  lemma ZeroRateStep(mens: real, srd: real, next: real, i: int, stop: real)
    requires IsCents(mens) && IsCents(next) && next == srd - mens
    requires srd > 0.0 && (i as real) < stop
    ensures Rows(mens, 0.0, false, srd, i, stop) ==
      [Row(i + 1, srd, 0.0, mens, next)] + Rows(mens, 0.0, false, next, i + 1, stop)
  {
    ArrondiCentsExact(mens);
    ArrondiCentsExact(next);
    assert srd * 0.0 == 0.0;
    assert Ligne(i + 1, srd, mens, 0.0, false) == Row(i + 1, srd, 0.0, mens, next);
  }

  lemma PositiveTimes(x: real, y: real)
    requires x > 0.0 && y > 0.0
    ensures x * y > 0.0
  {
  }

  lemma OnePaymentLess(r: int, k: int, m: real)
    requires k == r - 1
    ensures r as real * m - m == k as real * m
  {
  }

  lemma SameTimes(a: int, b: int, m: real)
    requires a == b
    ensures a as real * m == b as real * m
  {
  }

  lemma SubTimes(a: int, b: int, m: real)
    ensures (a - b) as real * m == a as real * m - b as real * m
  {
  }

  /** A whole number of cent amounts is in cents. */
  lemma CentsTimes(k: int, x: real)
    requires IsCents(x)
    ensures IsCents(k as real * x)
  {
    var c := (x * 100.0).Floor;
    assert (k as real * x) * 100.0 == (k * c) as real;
    Cents(k as real * x, k * c);
  }

  /** tableauAmort at rate 0 with the default window, for a loan `K0` of `n`
      payments `mens` in cents: the payment is `K0 / n`, there are `n` rows,
      row `k` opens with `K0 - (k - 1) mens`, has no interest, repays `mens`
      and closes with `K0 - k mens`, and the last closes at exactly 0. */
  lemma ZeroRateTable(mens: real, n: int)
    requires n >= 1 && mens > 0.0 && IsCents(mens)
    ensures RegularDefined(n, 0.0, IntOr(None, 1))
    ensures var K0 := n as real * mens;
      var table := AmortTable(K0, n, 0.0, None, None);
      K0 / n as real == mens && |table| == n + 1 &&
      table[0] == Head(Header(K0, n, 0.0, Some(mens), None, 1, n as real)) &&
      (forall k :: 1 <= k <= n ==>
         table[k] == Line(Row(k, K0 - (k - 1) as real * mens, 0.0, mens, K0 - k as real * mens))) &&
      table[n] == Line(Row(n, mens, 0.0, mens, 0.0))
  {
    var K0 := n as real * mens;
    var rows := ZeroRateRegular(mens, n);
    ZeroRateRun(mens, n, 0, n as real);
    ZeroTableShape(AmortTable(K0, n, 0.0, None, None), rows, K0, n, mens);
  }

  /** At rate 0 the payment on `n` payments `mens` in cents is `mens`, and
      the regular rows are the loop from that balance. */
  lemma ZeroRateRegular(mens: real, n: int) returns (rows: seq<Row>)
    requires n >= 1 && IsCents(mens)
    ensures (n as real * mens) / n as real == mens
    ensures RegularDefined(n, 0.0, 1) && Vpm(n as real * mens, n, 0.0, Some(2.0)) == mens
    ensures rows == RegularRows(n as real * mens, n, 0.0, 1, n as real)
    ensures rows == Rows(mens, 0.0, false, n as real * mens, 0, n as real)
    ensures AmortTable(n as real * mens, n, 0.0, None, None) ==
      [Head(Header(n as real * mens, n, 0.0, Some(mens), None, 1, n as real))] + Lines(rows)
  {
    DivIs(n as real * mens, n as real, mens);
    ArrondiCentsExact(mens);
    rows := RegularRows(n as real * mens, n, 0.0, 1, n as real);
  }

  /** The header followed by the lines of a zero-rate run from the loan. */
  lemma ZeroTableShape(table: seq<Entry>, rows: seq<Row>, K0: real, n: int, mens: real)
    requires n >= 1 && K0 == n as real * mens
    requires table == [Head(Header(K0, n, 0.0, Some(mens), None, 1, n as real))] + Lines(rows)
    requires |rows| == n && forall j :: 0 <= j < n ==> rows[j] == ZeroRow(0, n, j, mens)
    ensures |table| == n + 1
    ensures forall k :: 1 <= k <= n ==>
      table[k] == Line(Row(k, K0 - (k - 1) as real * mens, 0.0, mens, K0 - k as real * mens))
    ensures table[n] == Line(Row(n, mens, 0.0, mens, 0.0))
  {
    forall k | 1 <= k <= n
      ensures table[k] == Line(Row(k, K0 - (k - 1) as real * mens, 0.0, mens, K0 - k as real * mens))
    {
      assert table[k] == Line(rows[k - 1]);
      ZeroRowFromTop(K0, n, k, mens);
    }
    assert K0 - n as real * mens == 0.0;
    assert K0 - (n - 1) as real * mens == mens by {
      SubTimes(n, 1, mens);
    }
  }

  /** Counted from the loan: row `k` opens with `K0 - (k - 1)` payments and closes with `K0 - k`. */
  lemma ZeroRowFromTop(K0: real, n: int, k: int, mens: real)
    requires K0 == n as real * mens
    ensures ZeroRow(0, n, k - 1, mens) == Row(k, K0 - (k - 1) as real * mens, 0.0, mens, K0 - k as real * mens)
  {
    SubTimes(n, k - 1, mens);
    SameTimes(n - (k - 1) - 1, n - k, mens);
    SubTimes(n, k, mens);
  }

  lemma OnGrid0()
    ensures IsCents(0.0)
  {
    assert 0.0 * 100.0 == 0.0;
    IntIsInt(0);
  }

  // ---------------------------------------------------------------------
  // tableauAmort

  /** The balance the regular table opens with, after period `q1 - 1`:
      the loan itself when that is period 0, otherwise the unrounded SRDPn. */
  predicate RegularDefined(n: int, t: real, q1: int) {
    VpmDefined(n, t) && (q1 - 1 != 0 ==> SrdDefined(n, t, q1 - 1))
  }

  function RegularOpening(K0: real, n: int, t: real, q1: int): real
    requires RegularDefined(n, t, q1)
  {
    if q1 - 1 == 0 then K0 else SrdPn(Vpm(K0, n, t, Some(2.0)), n, t, q1 - 1, None)
  }

  /** The rows of the regular table from period `q1` to `q2`. */
  function RegularRows(K0: real, n: int, t: real, q1: int, q2: real): seq<Row>
    requires RegularDefined(n, t, q1)
  {
    Rows(Vpm(K0, n, t, Some(2.0)), t, false, RegularOpening(K0, n, t, q1), q1 - 1, q2)
  }

  /** The regular table for first period `q1` and last period `q2`. */
  function RegularTable(K0: real, n: int, t: real, q1: int, q2: real): seq<Entry>
    requires RegularDefined(n, t, q1)
  {
    [Head(Header(K0, n, t, Some(Vpm(K0, n, t, Some(2.0))), None, q1, q2))] + Lines(RegularRows(K0, n, t, q1, q2))
  }

  /** The table tableauAmort returns: its defaults, then the regular table. */
  function AmortTable(K0: real, n: int, t: real, p1: Option<real>, p2: Option<real>): seq<Entry>
    requires RegularDefined(n, t, IntOr(p1, 1))
  {
    var q1 := IntOr(p1, 1);
    RegularTable(K0, n, t, q1, RegularEnd(p2, q1, n))
  }

  /** tableauAmort (hypo.js). */
  method TableauAmort(K0: real, n: int, t: real, p1: Option<real>, p2: Option<real>) returns (tableau: seq<Entry>)
    requires RegularDefined(n, t, IntOr(p1, 1))
    ensures tableau == AmortTable(K0, n, t, p1, p2)
  {
    var q1 := IntOr(p1, 1);
    var q2 := RegularEnd(p2, q1, n);
    var i := q1 - 1;
    var mens := Vpm(K0, n, t, Some(2.0));
    var srd := if i == 0 then K0 else SrdPn(mens, n, t, i, None);
    assert RegularRows(K0, n, t, q1, q2) == Rows(mens, t, false, srd, i, q2);
    tableau := [Head(Header(K0, n, t, Some(mens), None, q1, q2))];
    tableau := PushRows(tableau, mens, t, false, srd, i, q2);
  }

  /** The loop `while (srd > 0 && i < stop)` of both builders, pushing one row
      per period onto `tableau` from balance `srd0` after period `i0`. */
  method PushRows(tableau: seq<Entry>, mens: real, t: real, rounded: bool, srd0: real, i0: int, stop: real)
      returns (table: seq<Entry>)
    ensures table == tableau + Lines(Rows(mens, t, rounded, srd0, i0, stop))
  {
    var srd, i := srd0, i0;
    table := tableau;
    ghost var rows: seq<Row> := [];
    while srd > 0.0 && (i as real) < stop
      invariant table == tableau + Lines(rows)
      invariant Rows(mens, t, rounded, srd0, i0, stop) == rows + Rows(mens, t, rounded, srd, i, stop)
      decreases (stop - i as real).Floor
    {
      i := i + 1;
      var ligne := Ligne(i, srd, mens, t, rounded);
      srd := ligne.srd;
      LinesAppend(rows, ligne);
      table := table + [Line(ligne)];
      rows := rows + [ligne];
    }
  }

  /** The regular table: its header, and a ledger of rows from period `q1`,
      opening with the loan when `q1 = 1`, stopping after the first row that
      closes at or below 0, or after the period at which `i < q2` fails. */
  lemma RegularTableLedger(K0: real, n: int, t: real, q1: int, q2: real)
    requires RegularDefined(n, t, q1)
    ensures var tab, mens := RegularTable(K0, n, t, q1, q2), Vpm(K0, n, t, Some(2.0));
      |tab| >= 1 && tab[0] == Head(Header(K0, n, t, Some(mens), None, q1, q2)) &&
      tab[1..] == Lines(RegularRows(K0, n, t, q1, q2)) &&
      Ledger(RegularRows(K0, n, t, q1, q2), mens, t, false, RegularOpening(K0, n, t, q1), q1 - 1, q2) &&
      (q1 == 1 ==> RegularOpening(K0, n, t, q1) == K0)
  {
    RowsLedger(Vpm(K0, n, t, Some(2.0)), t, false, RegularOpening(K0, n, t, q1), q1 - 1, q2);
  }

  /** With an integer last period, every row's period lies in `[q1, q2]`. */
  lemma RegularWindow(K0: real, n: int, t: real, q1: int, q2: real)
    requires RegularDefined(n, t, q1) && IsInt(q2)
    ensures forall r :: r in RegularRows(K0, n, t, q1, q2) ==> q1 <= r.periode && r.periode as real <= q2
  {
    var rows := RegularRows(K0, n, t, q1, q2);
    RegularTableLedger(K0, n, t, q1, q2);
    forall r | r in rows
      ensures q1 <= r.periode && r.periode as real <= q2
    {
      var k :| 0 <= k < |rows| && rows[k] == r;
      assert ((q1 - 1 + k) as real) < q2;
      assert q1 - 1 + k < q2.Floor;
    }
  }

  // ---------------------------------------------------------------------
  // tableauAmort_amd

  /** The first `count` rows of a deferral: interest only on the whole loan. */
  function DeferredRows(K0: real, t: real, count: nat): (rows: seq<Row>)
    ensures |rows| == count
    ensures forall k :: 0 <= k < count ==> rows[k] == Row(k + 1, K0, Arrondi(K0 * t, Some(2.0)), 0.0, K0)
  {
    seq(count, k requires 0 <= k < count => Row(k + 1, K0, Arrondi(K0 * t, Some(2.0)), 0.0, K0))
  }

  /** `Array.prototype.slice`'s reading of a bound `x` on an array of length `len`. */
  function SliceBound(x: int, len: nat): (r: nat)
    ensures r <= len
    ensures 0 <= x ==> r == if x < len then x else len
  {
    if x < 0 then (if len + x > 0 then len + x else 0) else if x < len then x else len
  }

  /** `s.slice(start, end)`. */
  function JsSlice<T>(s: seq<T>, start: int, end: int): (r: seq<T>)
    ensures |r| <= |s|
  {
    var a, b := SliceBound(start, |s|), SliceBound(end, |s|);
    if a < b then s[a..b] else []
  }

  /** All the rows a deferred table generates: `d` deferral rows, then the
      regular rows from balance `K0` with rounded interest up to period `n`. */
  function DeferredBody(K0: real, n: int, t: real, d: int): seq<Row>
    requires VpmDefined(n - d, t)
  {
    DeferredRows(K0, t, NonNeg(d)) + Rows(Vpm(K0, n - d, t, Some(2.0)), t, true, K0, NonNeg(d), n as real)
  }

  function DeferredHeader(K0: real, n: int, t: real, d: int, q1: int, q2: int): Header
    requires VpmDefined(n - d, t)
  {
    Header(K0, n, t, Some(Vpm(K0, n - d, t, Some(2.0))), Some(VpmAmd(K0, n, t, d, Some(2.0)).mAmd), q1, q2 as real)
  }

  /** The deferred table: the header, then `slice(q1, q2 + 1)` of the array
      holding the header and every generated row. */
  function DeferredTable(K0: real, n: int, t: real, d: int, q1: int, q2: int): seq<Entry>
    requires VpmDefined(n - d, t)
  {
    var h := Head(DeferredHeader(K0, n, t, d, q1, q2));
    [h] + JsSlice([h] + Lines(DeferredBody(K0, n, t, d)), q1, q2 + 1)
  }

  /** What tableauAmort_amd needs: the regular table from period 0 when there
      is no deferral, the payment over the remaining term otherwise. */
  predicate AmdDefined(n: int, t: real, nAmd: Option<real>) {
    var d := IntOr(nAmd, 0);
    if d == 0 then RegularDefined(n, t, 0) else VpmDefined(n - d, t)
  }

  /** The table tableauAmort_amd returns. Without a deferral it is
      tableauAmort with the deferral count 0 in the place of `p1`. */
  function AmdTable(K0: real, n: int, t: real, nAmd: Option<real>, p1: Option<real>, p2: Option<real>): seq<Entry>
    requires AmdDefined(n, t, nAmd)
  {
    var d := IntOr(nAmd, 0);
    if d == 0 then
      assert IntOr(Some(0.0), 1) == 0 by { IntIsInt(0); }
      AmortTable(K0, n, t, Some(d as real), None)
    else DeferredTable(K0, n, t, d, IntOr(p1, 1), IntOr(p2, n))
  }

  /** tableauAmort_amd (hypo.js). */
  method TableauAmortAmd(K0: real, n: int, t: real, nAmd: Option<real>, p1: Option<real>, p2: Option<real>)
      returns (tableau: seq<Entry>)
    requires AmdDefined(n, t, nAmd)
    ensures tableau == AmdTable(K0, n, t, nAmd, p1, p2)
  {
    var q1 := IntOr(p1, 1);
    var q2 := IntOr(p2, n);
    var d := IntOr(nAmd, 0);
    if d == 0 {
      assert IntOr(Some(0.0), 1) == 0 by { IntIsInt(0); }
      tableau := TableauAmort(K0, n, t, Some(d as real), None);
      return;
    }
    var amd := VpmAmd(K0, n, t, d, Some(2.0));
    var i := 0;
    var mens := amd.mAmd;
    var srd := K0;
    var table := [Head(Header(K0, n, t, None, Some(mens), q1, q2 as real))];
    ghost var head0 := table[0];
    ghost var rows: seq<Row> := [];
    while i < d
      invariant 0 <= i <= NonNeg(d)
      invariant table == [head0] + Lines(rows)
      invariant rows == DeferredRows(K0, t, i)
    {
      i := i + 1;
      var ligne := Row(i, K0, Arrondi(K0 * t, Some(2.0)), 0.0, K0);
      LinesAppend(rows, ligne);
      table := table + [Line(ligne)];
      rows := rows + [ligne];
    }
    srd := K0;
    mens := Vpm(srd, n - d, t, Some(2.0));
    table := table[0 := Head(table[0].header.(m := Some(mens)))];
    assert table == [Head(DeferredHeader(K0, n, t, d, q1, q2))] + Lines(rows);
    table := PushRows(table, mens, t, true, srd, i, n as real);
    DeferredAssembled(K0, n, t, d, q1, q2, table, rows);
    var first := [table[0]];
    tableau := first + JsSlice(table, q1, q2 + 1);
    assert AmdTable(K0, n, t, nAmd, p1, p2) == DeferredTable(K0, n, t, d, q1, q2);
  }

  /** The array the deferred builder fills holds its header and every row it
      generates, so its slice is the deferred table. */
  lemma DeferredAssembled(K0: real, n: int, t: real, d: int, q1: int, q2: int,
                          table: seq<Entry>, rows: seq<Row>)
    requires d != 0 && VpmDefined(n - d, t)
    requires rows == DeferredRows(K0, t, NonNeg(d))
    requires var mens := Vpm(K0, n - d, t, Some(2.0));
      table == [Head(Header(K0, n, t, Some(mens), Some(VpmAmd(K0, n, t, d, Some(2.0)).mAmd), q1, q2 as real))]
               + Lines(rows) + Lines(Rows(mens, t, true, K0, NonNeg(d), n as real))
    ensures [table[0]] + JsSlice(table, q1, q2 + 1) == DeferredTable(K0, n, t, d, q1, q2)
  {
    var mens := Vpm(K0, n - d, t, Some(2.0));
    LinesConcat(rows, Rows(mens, t, true, K0, NonNeg(d), n as real));
    assert table == [Head(DeferredHeader(K0, n, t, d, q1, q2))] + Lines(DeferredBody(K0, n, t, d));
  }

  /** The rows of a deferred table: the periods are `1, 2, ...`; the first
      `d` rows pay the interest `round(K0 t, 2)` on the whole loan and repay
      nothing; the rest are a ledger from `K0` after period `d`, with rounded
      interest, for the payment over the remaining `n - d` periods, ending by
      period `n`. The header carries both payments. */
  lemma DeferredShape(K0: real, n: int, t: real, d: int, q1: int, q2: int)
    requires d != 0 && VpmDefined(n - d, t)
    ensures var body, mens := DeferredBody(K0, n, t, d), Vpm(K0, n - d, t, Some(2.0));
      NonNeg(d) <= |body| &&
      (forall k :: 0 <= k < NonNeg(d) ==> body[k] == Row(k + 1, K0, Arrondi(K0 * t, Some(2.0)), 0.0, K0)) &&
      Ledger(body[NonNeg(d)..], mens, t, true, K0, NonNeg(d), n as real) &&
      (forall k :: 0 <= k < |body| ==> body[k].periode == k + 1) &&
      (forall k :: NonNeg(d) <= k < |body| ==> body[k].periode <= n)
    ensures DeferredHeader(K0, n, t, d, q1, q2) ==
      Header(K0, n, t, Some(Vpm(K0, n - d, t, Some(2.0))), Some(Arrondi(K0 * t, Some(2.0))), q1, q2 as real)
  {
    BodyShape(K0, t, NonNeg(d), Vpm(K0, n - d, t, Some(2.0)), n);
    assert VpmAmd(K0, n, t, d, Some(2.0)).mAmd == Arrondi(K0 * t, Some(2.0));
  }

  lemma BodyShape(K0: real, t: real, c: nat, mens: real, n: int)
    ensures var body := DeferredRows(K0, t, c) + Rows(mens, t, true, K0, c, n as real);
      c <= |body| &&
      (forall k :: 0 <= k < c ==> body[k] == Row(k + 1, K0, Arrondi(K0 * t, Some(2.0)), 0.0, K0)) &&
      Ledger(body[c..], mens, t, true, K0, c, n as real) &&
      (forall k :: 0 <= k < |body| ==> body[k].periode == k + 1) &&
      (forall k :: c <= k < |body| ==> body[k].periode <= n)
  {
    var regular := Rows(mens, t, true, K0, c, n as real);
    var body := DeferredRows(K0, t, c) + regular;
    RowsLedger(mens, t, true, K0, c, n as real);
    assert body[c..] == regular;
    forall k | c <= k < |body|
      ensures body[k].periode == k + 1 && body[k].periode <= n
    {
      assert body[k] == regular[k - c];
      assert ((c + (k - c)) as real) < n as real;
    }
  }

  /** For a first period of at least 1 and a last of at least 0, the deferred
      table is its header followed by the generated rows of the periods in
      `[q1, q2]`, in order, and no others. */
  lemma DeferredWindow(K0: real, n: int, t: real, d: int, q1: int, q2: int)
    requires d != 0 && VpmDefined(n - d, t) && q1 >= 1 && q2 >= 0
    ensures var body, tab := DeferredBody(K0, n, t, d), DeferredTable(K0, n, t, d, q1, q2);
      var lo := if q1 - 1 < |body| then q1 - 1 else |body|;
      var hi := if q2 < |body| then (if q2 < lo then lo else q2) else |body|;
      lo <= hi <= |body| &&
      tab[0] == Head(DeferredHeader(K0, n, t, d, q1, q2)) &&
      tab[1..] == Lines(body[lo..hi]) &&
      (forall k :: 0 <= k < |body| ==> (q1 <= body[k].periode <= q2 <==> lo <= k < hi))
  {
    DeferredShape(K0, n, t, d, q1, q2);
    SliceWindow(Head(DeferredHeader(K0, n, t, d, q1, q2)), DeferredBody(K0, n, t, d), q1, q2);
  }

  /** `[h] + ([h] + rows).slice(q1, q2 + 1)` keeps the rows of the periods in
      `[q1, q2]` when row `k` is of period `k + 1`. */
  lemma SliceWindow(h: Entry, body: seq<Row>, q1: int, q2: int)
    requires q1 >= 1 && q2 >= 0
    requires forall k :: 0 <= k < |body| ==> body[k].periode == k + 1
    ensures var tab := [h] + JsSlice([h] + Lines(body), q1, q2 + 1);
      var lo := if q1 - 1 < |body| then q1 - 1 else |body|;
      var hi := if q2 < |body| then (if q2 < lo then lo else q2) else |body|;
      lo <= hi <= |body| &&
      tab[0] == h && tab[1..] == Lines(body[lo..hi]) &&
      (forall k :: 0 <= k < |body| ==> (q1 <= body[k].periode <= q2 <==> lo <= k < hi))
  {
    var all := [h] + Lines(body);
    var lo := if q1 - 1 < |body| then q1 - 1 else |body|;
    var hi := if q2 < |body| then (if q2 < lo then lo else q2) else |body|;
    var a, b := SliceBound(q1, |all|), SliceBound(q2 + 1, |all|);
    assert a == lo + 1;
    LinesSlice(body, lo, hi);
    if a < b {
      assert b == hi + 1;
      assert all[a..b] == Lines(body)[lo..hi];
    } else {
      assert hi == lo;
    }
  }

  /** The rows generated for a loan of 1000 over 2 periods at 10% with one
      deferred period: a deferral row paying 100 of interest, then a row
      paying 1100, of which 100 interest and 1000 principal, closing at 0. */
  lemma ExampleBody()
    ensures VpmDefined(1, 0.1)
    ensures DeferredHeader(1000.0, 2, 0.1, 1, 1, 2) == Header(1000.0, 2, 0.1, Some(1100.0), Some(100.0), 1, 2.0)
    ensures DeferredHeader(1000.0, 2, 0.1, 1, 1, -2) == Header(1000.0, 2, 0.1, Some(1100.0), Some(100.0), 1, -2.0)
    ensures DeferredBody(1000.0, 2, 0.1, 1) ==
      [Row(1, 1000.0, 100.0, 0.0, 1000.0), Row(2, 1000.0, 100.0, 1000.0, 0.0)]
  {
    assert IPow(1.1, -1) == 1.0 / 1.1;
    assert Payment(1000.0, IPow(1.1, -1), 0.1) == 1100.0;
    Cents(1100.0, 110000);
    Cents(100.0, 10000);
    Cents(1000.0, 100000);
    OnGrid0();
    ArrondiCentsExact(1100.0);
    ArrondiCentsExact(100.0);
    ArrondiCentsExact(1000.0);
    ArrondiCentsExact(0.0);
    assert 1000.0 * 0.1 == 100.0;
    var row2 := Ligne(2, 1000.0, 1100.0, 0.1, true);
    assert row2 == Row(2, 1000.0, 100.0, 1000.0, 0.0);
    assert Rows(1100.0, 0.1, true, 1000.0, 1, 2.0) == [row2];
  }

  /** The deferred schedule of that loan, as tableauAmort_amd returns it
      with the default periods. */
  lemma DeferredExample()
    ensures AmdDefined(2, 0.1, Some(1.0))
    ensures AmdTable(1000.0, 2, 0.1, Some(1.0), None, None) ==
      [Head(Header(1000.0, 2, 0.1, Some(1100.0), Some(100.0), 1, 2.0)),
       Line(Row(1, 1000.0, 100.0, 0.0, 1000.0)),
       Line(Row(2, 1000.0, 100.0, 1000.0, 0.0))]
  {
    IntIsInt(1);
    assert IntOr(Some(1.0), 0) == 1;
    ExampleBody();
    var body := DeferredBody(1000.0, 2, 0.1, 1);
    var h := Head(DeferredHeader(1000.0, 2, 0.1, 1, 1, 2));
    var all := [h] + Lines(body);
    assert JsSlice(all, 1, 3) == all[1..3] == Lines(body);
  }

  /** A last period below -1 makes `slice` count back from the end of the
      array: asked for periods 1 to -2, an empty window, the table of that
      loan still returns the row of period 1. */
  lemma NegativeEndCountsBack()
    ensures VpmDefined(1, 0.1)
    ensures DeferredTable(1000.0, 2, 0.1, 1, 1, -2) ==
      [Head(Header(1000.0, 2, 0.1, Some(1100.0), Some(100.0), 1, -2.0)),
       Line(Row(1, 1000.0, 100.0, 0.0, 1000.0))]
  {
    ExampleBody();
    var body := DeferredBody(1000.0, 2, 0.1, 1);
    var h := Head(DeferredHeader(1000.0, 2, 0.1, 1, 1, -2));
    var all := [h] + Lines(body);
    assert JsSlice(all, 1, -1) == all[1..2] == [Line(body[0])];
  }

  lemma Cents(x: real, c: int)
    requires x * 100.0 == c as real
    ensures IsCents(x)
  {
    IntIsInt(c);
  }

  // ---------------------------------------------------------------------
  // The window defaults, as intended

  /** As written, tableauAmort reads a last period whose integer part equals
      the first period as absent: asking for periods 3 to 3 of a 12-period
      loan gives the table up to period 12. */
  lemma EqualBoundsReadAsOpen(K0: real, t: real)
    requires RegularDefined(12, t, 3)
    ensures IntOr(Some(3.0), 1) == 3
    ensures var tab := AmortTable(K0, 12, t, Some(3.0), Some(3.0));
      tab[0].header.p1 == 3 && tab[0].header.p2 == 12.0 &&
      tab == RegularTable(K0, 12, t, 3, 12.0)
  {
    IntIsInt(3);
  }

  /** tableauAmort with the last period defaulted the way tableauAmort_amd
      defaults it: to `n` only when absent or not an integer. */
  function AmortTableIntended(K0: real, n: int, t: real, p1: Option<real>, p2: Option<real>): seq<Entry>
    requires RegularDefined(n, t, IntOr(p1, 1))
  {
    RegularTable(K0, n, t, IntOr(p1, 1), IntOr(p2, n) as real)
  }

  /** With the intended default every row lies in the caller's window, and
      the header records it. */
  lemma IntendedWindow(K0: real, n: int, t: real, p1: Option<real>, p2: Option<real>)
    requires RegularDefined(n, t, IntOr(p1, 1))
    ensures var q1, q2, tab := IntOr(p1, 1), IntOr(p2, n), AmortTableIntended(K0, n, t, p1, p2);
      tab[0].header.p1 == q1 && tab[0].header.p2 == q2 as real &&
      (p1.Some? && IsInt(p1.value) ==> q1 as real == p1.value) &&
      (p2.Some? && IsInt(p2.value) ==> q2 as real == p2.value) &&
      forall e :: e in tab[1..] ==> e.Line? && q1 <= e.row.periode <= q2
  {
    var q1, q2 := IntOr(p1, 1), IntOr(p2, n);
    IntIsInt(q2);
    RegularWindow(K0, n, t, q1, q2 as real);
    var rows := RegularRows(K0, n, t, q1, q2 as real);
    var tab := AmortTableIntended(K0, n, t, p1, p2);
    assert tab[1..] == Lines(rows);
    forall e | e in tab[1..]
      ensures e.Line? && q1 <= e.row.periode <= q2
    {
      var k :| 0 <= k < |rows| && Lines(rows)[k] == e;
      assert rows[k] in rows;
    }
  }

  /** As written, tableauAmort_amd without a deferral ignores the caller's
      window: the table is the same for every `p1` and `p2`. */
  lemma ZeroDeferralDiscardsWindow(K0: real, n: int, t: real, p1: Option<real>, p2: Option<real>,
                                   p1b: Option<real>, p2b: Option<real>)
    requires AmdDefined(n, t, Some(0.0))
    ensures IntOr(Some(0.0), 1) == 0
    ensures AmdTable(K0, n, t, Some(0.0), p1, p2) == AmdTable(K0, n, t, Some(0.0), p1b, p2b)
    ensures AmdTable(K0, n, t, Some(0.0), p1, p2) == RegularTable(K0, n, t, 0, n as real)
  {
    IntIsInt(0);
  }

  /** As written, a loan of 1000 over 2 periods at 10% with no deferral,
      asked for periods 1 to 2, gets a first row of period 0 whose opening
      balance is the balance one period before the loan started. */
  lemma ZeroDeferralStartsAtPeriodZero()
    ensures AmdDefined(2, 0.1, Some(0.0))
    ensures var tab := AmdTable(1000.0, 2, 0.1, Some(0.0), Some(1.0), Some(2.0));
      |tab| >= 2 && tab[0].header.p1 == 0 && tab[1].Line? && tab[1].row.periode == 0 &&
      tab[1].row.soldeDep == SrdPn(Vpm(1000.0, 2, 0.1, Some(2.0)), 2, 0.1, -1, None) &&
      tab[1].row.soldeDep > 1000.0
  {
    IntIsInt(0);
    assert IPow(1.1, -2) == 1.0 / 1.21;
    assert Payment(1000.0, IPow(1.1, -2), 0.1) == 100.0 * 1.21 / 0.21;
    var y := Payment(1000.0, IPow(1.1, -2), 0.1);
    ArrondiCents(y);
    var mens := Vpm(1000.0, 2, 0.1, Some(2.0));
    assert mens > 576.0;
    assert IPow(1.1, -3) == 1.0 / 1.331;
    assert Discounted(mens, IPow(1.1, -3), 0.1) == mens * (1.0 - 1.0 / 1.331) / 0.1;
    var open := SrdPn(mens, 2, 0.1, -1, None);
    assert open == Discounted(mens, IPow(1.1, -3), 0.1);
    assert open > 1000.0;
    assert RegularRows(1000.0, 2, 0.1, 0, 2.0) == Rows(mens, 0.1, false, open, -1, 2.0);
  }

  /** tableauAmort_amd forwarding the caller's window to the regular table
      when there is no deferral. */
  function AmdTableIntended(K0: real, n: int, t: real, nAmd: Option<real>, p1: Option<real>, p2: Option<real>): seq<Entry>
    requires var d := IntOr(nAmd, 0);
      if d == 0 then RegularDefined(n, t, IntOr(p1, 1)) else VpmDefined(n - d, t)
  {
    var d := IntOr(nAmd, 0);
    if d == 0 then AmortTableIntended(K0, n, t, p1, p2)
    else DeferredTable(K0, n, t, d, IntOr(p1, 1), IntOr(p2, n))
  }

  /** With the window forwarded, every row the table returns without a
      deferral lies in the caller's window, as with a deferral. */
  lemma IntendedZeroDeferralWindow(K0: real, n: int, t: real, p1: Option<real>, p2: Option<real>)
    requires RegularDefined(n, t, IntOr(p1, 1))
    ensures IntOr(Some(0.0), 0) == 0
    ensures var q1, q2, tab := IntOr(p1, 1), IntOr(p2, n), AmdTableIntended(K0, n, t, Some(0.0), p1, p2);
      tab[0].header.p1 == q1 &&
      forall e :: e in tab[1..] ==> e.Line? && q1 <= e.row.periode <= q2
  {
    IntIsInt(0);
    IntendedWindow(K0, n, t, p1, p2);
  }
}
