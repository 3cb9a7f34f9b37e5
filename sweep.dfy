/** The sweep of `guessCribInAll`: every ciphertext index but the last in the
    outer loop, every offset at which the crib fits in the first ciphertext in
    the inner loop, and a report for each hypothesis the scorer accepts. */
module Sweep {
  import opened Slices
  import opened English
  import opened Crib

  datatype Option<T> = None | Some(value: T)

  /** One line of the sweep's output: an accepted hypothesis and its fragments. */
  datatype Report = Report(i: nat, pos: nat, ptexts: seq<seq<bv8>>)

  /** The report for `(i, pos)`, if `score` accepts it. */
  function Emit(score: (nat, nat) -> Option<seq<seq<bv8>>>, i: nat, pos: nat): seq<Report> {
    match score(i, pos)
    case Some(ptexts) => [Report(i, pos, ptexts)]
    case None => []
  }

  /** The reports of row `i` for the offsets below `n`, offsets ascending. */
  function ScanRow(score: (nat, nat) -> Option<seq<seq<bv8>>>, i: nat, n: nat): seq<Report> {
    if n == 0 then [] else ScanRow(score, i, n - 1) + Emit(score, i, n - 1)
  }

  /** The reports of the rows below `rows`, each over the offsets below `cols`,
      rows ascending. */
  function Scan(score: (nat, nat) -> Option<seq<seq<bv8>>>, rows: nat, cols: nat): seq<Report> {
    if rows == 0 then [] else Scan(score, rows - 1, cols) + ScanRow(score, rows - 1, cols)
  }

  /** `(i, pos)` comes before `(i', pos')` in the sweep: `i` major, `pos` minor. */
  predicate Before(a: Report, b: Report) {
    a.i < b.i || (a.i == b.i && a.pos < b.pos)
  }

  predicate Ascending(rs: seq<Report>) {
    forall a, b :: 0 <= a < b < |rs| ==> Before(rs[a], rs[b])
  }

  /** Two ascending runs, the first wholly before the point `at` and the
      second wholly at or after it, make an ascending run. */
  lemma AscendingAppend(xs: seq<Report>, ys: seq<Report>, at: Report)
    requires Ascending(xs) && Ascending(ys)
    requires forall x :: x in xs ==> Before(x, at)
    requires forall y :: y in ys ==> !Before(y, at)
    ensures Ascending(xs + ys)
  {
    forall a, b | 0 <= a < b < |xs + ys|
      ensures Before((xs + ys)[a], (xs + ys)[b])
    {
      if a < |xs| && b >= |xs| {
        assert (xs + ys)[a] in xs && (xs + ys)[b] in ys;
      }
    }
  }

  /** Row `i` reports only accepted offsets below `n`, each with its fragments. */
  lemma {:induction false} ScanRowSound(score: (nat, nat) -> Option<seq<seq<bv8>>>, i: nat, n: nat)
    ensures forall r :: r in ScanRow(score, i, n) ==> r.i == i && r.pos < n && score(i, r.pos) == Some(r.ptexts)
  {
    if n > 0 {
      ScanRowSound(score, i, n - 1);
    }
  }

  /** Row `i` reports every accepted offset below `n`. */
  lemma {:induction false} ScanRowComplete(score: (nat, nat) -> Option<seq<seq<bv8>>>, i: nat, n: nat)
    ensures forall pos :: 0 <= pos < n && score(i, pos).Some? ==>
              Report(i, pos, score(i, pos).value) in ScanRow(score, i, n)
  {
    if n > 0 {
      ScanRowComplete(score, i, n - 1);
    }
  }

  /** Row `i` reports its offsets in ascending order. */
  lemma {:induction false} ScanRowAscending(score: (nat, nat) -> Option<seq<seq<bv8>>>, i: nat, n: nat)
    ensures Ascending(ScanRow(score, i, n))
  {
    if n > 0 {
      ScanRowAscending(score, i, n - 1);
      ScanRowSound(score, i, n - 1);
      var prev, last := ScanRow(score, i, n - 1), Emit(score, i, n - 1);
      AscendingAppend(prev, last, Report(i, n - 1, []));
    }
  }

  /** The scan reports only accepted pairs `(i, pos)` with `i < rows` and
      `pos < cols`, each with its fragments. */
  lemma {:induction false} ScanSound(score: (nat, nat) -> Option<seq<seq<bv8>>>, rows: nat, cols: nat)
    ensures forall r :: r in Scan(score, rows, cols) ==>
              r.i < rows && r.pos < cols && score(r.i, r.pos) == Some(r.ptexts)
  {
    if rows > 0 {
      ScanSound(score, rows - 1, cols);
      ScanRowSound(score, rows - 1, cols);
    }
  }

  /** The scan reports every accepted pair `(i, pos)` with `i < rows` and `pos < cols`. */
  lemma {:induction false} ScanComplete(score: (nat, nat) -> Option<seq<seq<bv8>>>, rows: nat, cols: nat)
    ensures forall i, pos :: 0 <= i < rows && 0 <= pos < cols && score(i, pos).Some? ==>
              Report(i, pos, score(i, pos).value) in Scan(score, rows, cols)
  {
    if rows > 0 {
      var prev, row := Scan(score, rows - 1, cols), ScanRow(score, rows - 1, cols);
      ScanComplete(score, rows - 1, cols);
      ScanRowComplete(score, rows - 1, cols);
      forall i, pos | 0 <= i < rows && 0 <= pos < cols && score(i, pos).Some?
        ensures Report(i, pos, score(i, pos).value) in prev + row
      {
        if i < rows - 1 {
          assert Report(i, pos, score(i, pos).value) in prev;
        } else {
          assert Report(i, pos, score(i, pos).value) in row;
        }
      }
    }
  }

  /** The scan reports in the order of the nested loop: rows ascending, and
      offsets ascending within a row. */
  lemma {:induction false} ScanAscending(score: (nat, nat) -> Option<seq<seq<bv8>>>, rows: nat, cols: nat)
    ensures Ascending(Scan(score, rows, cols))
  {
    if rows > 0 {
      var prev, row := Scan(score, rows - 1, cols), ScanRow(score, rows - 1, cols);
      ScanAscending(score, rows - 1, cols);
      ScanSound(score, rows - 1, cols);
      ScanRowAscending(score, rows - 1, cols);
      ScanRowSound(score, rows - 1, cols);
      AscendingAppend(prev, row, Report(rows - 1, 0, []));
    }
  }

  /** The number of offsets the sweep tries: `pos` runs from 0 to `m - l` inclusive. */
  function Positions(m: nat, l: nat): nat {
    if l <= m then m - l + 1 else 0
  }

  /** What `guessCribInAll(crib, ctexts)` needs so that no visit panics: at
      least one ciphertext (it reads `ctexts[0]`), and, whenever some
      hypothesis is visited, no ciphertext shorter than the first. */
  predicate SweepFits(texts: seq<seq<bv8>>, l: nat) {
    |texts| >= 1 &&
    (|texts| >= 2 && l <= |texts[0]| ==> forall x :: 0 <= x < |texts| ==> |texts[x]| >= |texts[0]|)
  }

  /** Every hypothesis the sweep visits meets `guessCrib`'s bounds. */
  lemma InRangeFits(texts: seq<seq<bv8>>, l: nat, i: nat, pos: nat)
    requires SweepFits(texts, l)
    requires i < |texts| - 1 && pos + l <= |texts[0]|
    ensures CribFits(texts, l, i, pos)
  {
  }

  /** What `guessCrib` reports for hypothesis `(i, pos)`: its fragments when
      it is accepted, nothing when it is not (or does not fit). */
  function Verdict(texts: seq<seq<bv8>>, crib: seq<bv8>, i: nat, pos: nat): Option<seq<seq<bv8>>> {
    if CribFits(texts, |crib|, i, pos) && Accepts(Ninvalid(texts, crib, i, pos))
    then Some(Fragments(texts, crib, i, pos))
    else None
  }

  /** `Verdict` as the scoring function of a scan. */
  function Scorer(texts: seq<seq<bv8>>, crib: seq<bv8>): (nat, nat) -> Option<seq<seq<bv8>>> {
    (i: nat, pos: nat) => Verdict(texts, crib, i, pos)
  }

  /** Everything the sweep reports. */
  function SweepReports(texts: seq<seq<bv8>>, crib: seq<bv8>): seq<Report>
    requires |texts| >= 1
  {
    Scan(Scorer(texts, crib), |texts| - 1, Positions(|texts[0]|, |crib|))
  }

  /** The sweep reports exactly the accepted hypotheses `(i, pos)` with
      `i < N - 1` and `pos <= len(ctexts[0]) - len(crib)`, each with its
      fragments, in the order the nested loop visits them; every one of
      them meets `guessCrib`'s bounds. */
  lemma SweepExact(texts: seq<seq<bv8>>, crib: seq<bv8>)
    requires SweepFits(texts, |crib|)
    ensures forall r :: r in SweepReports(texts, crib) ==>
              r.i < |texts| - 1 && r.pos + |crib| <= |texts[0]| && CribFits(texts, |crib|, r.i, r.pos)
              && Accepts(Ninvalid(texts, crib, r.i, r.pos)) && r.ptexts == Fragments(texts, crib, r.i, r.pos)
    ensures forall i, pos :: 0 <= i < |texts| - 1 && 0 <= pos && pos + |crib| <= |texts[0]| ==>
              CribFits(texts, |crib|, i, pos)
              && (Accepts(Ninvalid(texts, crib, i, pos)) ==>
                    Report(i, pos, Fragments(texts, crib, i, pos)) in SweepReports(texts, crib))
    ensures Ascending(SweepReports(texts, crib))
  {
    var score, rows, cols := Scorer(texts, crib), |texts| - 1, Positions(|texts[0]|, |crib|);
    ScanSound(score, rows, cols);
    ScanComplete(score, rows, cols);
    ScanAscending(score, rows, cols);
    forall r | r in SweepReports(texts, crib)
      ensures r.i < |texts| - 1 && r.pos + |crib| <= |texts[0]| && CribFits(texts, |crib|, r.i, r.pos)
      ensures Accepts(Ninvalid(texts, crib, r.i, r.pos)) && r.ptexts == Fragments(texts, crib, r.i, r.pos)
    {
      VerdictSome(texts, crib, r.i, r.pos, r.ptexts);
    }
    forall i, pos | 0 <= i < |texts| - 1 && 0 <= pos && pos + |crib| <= |texts[0]|
      ensures CribFits(texts, |crib|, i, pos)
      ensures Accepts(Ninvalid(texts, crib, i, pos)) ==>
                Report(i, pos, Fragments(texts, crib, i, pos)) in SweepReports(texts, crib)
    {
      InRangeFits(texts, |crib|, i, pos);
      if Accepts(Ninvalid(texts, crib, i, pos)) {
        VerdictAccepted(texts, crib, i, pos);
      }
    }
  }

  lemma VerdictSome(texts: seq<seq<bv8>>, crib: seq<bv8>, i: nat, pos: nat, ptexts: seq<seq<bv8>>)
    requires Scorer(texts, crib)(i, pos) == Some(ptexts)
    ensures CribFits(texts, |crib|, i, pos) && Accepts(Ninvalid(texts, crib, i, pos))
    ensures ptexts == Fragments(texts, crib, i, pos)
  {
  }

  /** What one `guessCrib` call contributes to the sweep's reports. */
  lemma EmitGuess(texts: seq<seq<bv8>>, crib: seq<bv8>, i: nat, pos: nat, accepted: bool, ptexts: seq<seq<bv8>>)
    requires CribFits(texts, |crib|, i, pos)
    requires accepted == Accepts(Ninvalid(texts, crib, i, pos)) && ptexts == Fragments(texts, crib, i, pos)
    ensures Emit(Scorer(texts, crib), i, pos) == if accepted then [Report(i, pos, ptexts)] else []
  {
  }

  lemma VerdictAccepted(texts: seq<seq<bv8>>, crib: seq<bv8>, i: nat, pos: nat)
    requires CribFits(texts, |crib|, i, pos) && Accepts(Ninvalid(texts, crib, i, pos))
    ensures Scorer(texts, crib)(i, pos) == Some(Fragments(texts, crib, i, pos))
  {
  }

  lemma AppendAssoc(a: seq<Report>, b: seq<Report>, c: seq<Report>)
    ensures (a + b) + c == a + (b + c)
  {
  }

  /** `guessCribInAll(crib, ctexts)`: scores every hypothesis, `i` in the outer
      loop from 0 to `N - 2` and `pos` in the inner loop from 0 to
      `len(ctexts[0]) - len(crib)`, and returns the accepted ones in that order. */
  method GuessCribInAll(crib: Slice, ctexts: seq<Slice>, ghost texts: seq<seq<bv8>>, ghost cb: seq<bv8>)
    returns (reports: seq<Report>)
    requires crib.Valid() && AllValid(ctexts) && |texts| == |ctexts|
    requires forall x :: 0 <= x < |ctexts| ==> ctexts[x].Bytes() == texts[x]
    requires crib.Bytes() == cb
    requires SweepFits(texts, |cb|)
    ensures reports == SweepReports(texts, cb)
  {
    var length := ctexts[0].hi - ctexts[0].lo;
    reports := [];
    var i := 0;
    while i < |ctexts| - 1
      invariant 0 <= i <= |ctexts| - 1
      invariant reports == Scan(Scorer(texts, cb), i, Positions(|texts[0]|, |cb|))
    {
      reports := SweepRow(crib, i, ctexts, texts, cb, length, reports);
      i := i + 1;
    }
  }

  /** The inner loop for row `i`: `pos` from 0 to `length - len(crib)`. */
  method SweepRow(crib: Slice, i: nat, ctexts: seq<Slice>, ghost texts: seq<seq<bv8>>, ghost cb: seq<bv8>,
                  length: int, reports: seq<Report>)
    returns (reports': seq<Report>)
    requires crib.Valid() && AllValid(ctexts) && |texts| == |ctexts|
    requires forall x :: 0 <= x < |ctexts| ==> ctexts[x].Bytes() == texts[x]
    requires crib.Bytes() == cb
    requires SweepFits(texts, |cb|) && i < |texts| - 1 && length == |texts[0]|
    ensures reports' == reports + ScanRow(Scorer(texts, cb), i, Positions(|texts[0]|, |cb|))
  {
    ghost var score := Scorer(texts, cb);
    ghost var cols := Positions(|texts[0]|, |cb|);
    var l := crib.hi - crib.lo;
    assert l == |cb|;
    reports' := reports;
    var pos := 0;
    while pos <= length - l
      invariant 0 <= pos <= cols
      invariant reports' == reports + ScanRow(score, i, pos)
    {
      reports' := SweepTurn(crib, i, pos, ctexts, texts, cb, reports, reports');
      pos := pos + 1;
    }
    assert pos == cols;
    assert reports' == reports + ScanRow(score, i, cols);
  }

  /** One turn of the inner loop: the `guessCrib(crib, i, pos, ctexts)` call
      and the report it adds when it accepts. */
  method SweepTurn(crib: Slice, i: nat, pos: nat, ctexts: seq<Slice>, ghost texts: seq<seq<bv8>>, ghost cb: seq<bv8>,
                   ghost before: seq<Report>, reports: seq<Report>)
    returns (reports': seq<Report>)
    requires crib.Valid() && AllValid(ctexts) && |texts| == |ctexts|
    requires forall x :: 0 <= x < |ctexts| ==> ctexts[x].Bytes() == texts[x]
    requires crib.Bytes() == cb
    requires SweepFits(texts, |cb|) && i < |texts| - 1 && pos + |cb| <= |texts[0]|
    requires reports == before + ScanRow(Scorer(texts, cb), i, pos)
    ensures reports' == before + ScanRow(Scorer(texts, cb), i, pos + 1)
  {
    InRangeFits(texts, |cb|, i, pos);
    var accepted, ptexts := GuessCrib(crib, i, pos, ctexts, texts, cb);
    EmitGuess(texts, cb, i, pos, accepted, ptexts);
    AppendAssoc(before, ScanRow(Scorer(texts, cb), i, pos), Emit(Scorer(texts, cb), i, pos));
    reports' := reports;
    if accepted {
      reports' := reports + [Report(i, pos, ptexts)];
    }
  }
}
