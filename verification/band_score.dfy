/**
 * calculateBandScore of ListeningAttempt: the IELTS listening band for a
 * number of correct answers. Bands are counted in half-bands, so 3.5 is 7
 * and 9.0 is 18.
 */
module BandScore {

  /** The lowest band the table gives (3.5) and the highest (9.0), in half-bands. */
  const MinBand: int := 7
  const MaxBand: int := 18

  /** The per-count table of the source, one entry per listed count. */
  const BandMap: map<int, int> := map[
    40 := 18, 39 := 18,
    38 := 17, 37 := 17,
    36 := 16, 35 := 16,
    34 := 15, 33 := 15, 32 := 15,
    31 := 14, 30 := 14,
    29 := 13, 28 := 13, 27 := 13, 26 := 13,
    25 := 12, 24 := 12, 23 := 12,
    22 := 11, 21 := 11, 20 := 11, 19 := 11, 18 := 11,
    17 := 10, 16 := 10,
    15 := 9, 14 := 9, 13 := 9,
    12 := 8, 11 := 8
  ]

  /**
   * `$map[$correct] ?? ($correct > 40 ? 9.0 : 3.5)`: the table entry when
   * there is one, otherwise 9.0 above the table and 3.5 below it.
   */
  function BandHalves(correct: int): (h: int)
    ensures MinBand <= h <= MaxBand
    ensures correct > 40 ==> h == MaxBand
    ensures correct <= 10 ==> h == MinBand
  {
    if correct in BandMap then BandMap[correct]
    else if correct > 40 then 18
    else 7
  }

  /**
   * An independent reading of the same table: rows of (lowest count, band),
   * from the highest band down. A count gets the band of the first row whose
   * lowest count it reaches.
   */
  const Rows: seq<(int, int)> := [
    (39, 18), (37, 17), (35, 16), (32, 15), (30, 14), (26, 13),
    (23, 12), (18, 11), (16, 10), (13, 9), (11, 8)
  ]

  /**
   * Lowest counts strictly decrease down the rows, bands never increase, and
   * every row's band is above the 3.5 floor.
   */
  predicate RowsDescending(rows: seq<(int, int)>) {
    && (forall k :: 0 < k < |rows| ==> rows[k].0 < rows[k - 1].0 && rows[k].1 <= rows[k - 1].1)
    && (forall k :: 0 <= k < |rows| ==> rows[k].1 > MinBand)
  }

  lemma RowsAreDescending()
    ensures RowsDescending(Rows)
  {
    forall k | 0 <= k < |Rows|
      ensures Rows[k].1 > MinBand
      ensures k > 0 ==> Rows[k].0 < Rows[k - 1].0 && Rows[k].1 <= Rows[k - 1].1
    {
      assert k in {0, 1, 2, 3, 4, 5, 6, 7, 8, 9, 10};
    }
  }

  /** The band of the first row from `i` on that `correct` reaches; 3.5 when none does. */
  function BandFromRows(rows: seq<(int, int)>, correct: int, i: nat): (h: int)
    requires i <= |rows| && RowsDescending(rows)
    ensures i < |rows| ==> MinBand <= h <= rows[i].1
    ensures i == |rows| ==> h == MinBand
    ensures i < |rows| && correct >= rows[i].0 ==> h == rows[i].1
    decreases |rows| - i
  {
    if i == |rows| then MinBand
    else if correct >= rows[i].0 then rows[i].1
    else BandFromRows(rows, correct, i + 1)
  }

  /** The range reading of the band table. */
  function BandByRows(correct: int): int {
    RowsAreDescending();
    BandFromRows(Rows, correct, 0)
  }

  /** Reading rows from `i` on is monotone in the count. */
  lemma {:induction false} BandFromRowsMonotone(rows: seq<(int, int)>, a: int, b: int, i: nat)
    requires i <= |rows| && RowsDescending(rows)
    requires a <= b
    ensures BandFromRows(rows, a, i) <= BandFromRows(rows, b, i)
    decreases |rows| - i
  {
    if i < |rows| && b < rows[i].0 {
      BandFromRowsMonotone(rows, a, b, i + 1);
    }
  }

  /** A row is reached exactly on its own range: from its lowest count up to just below the previous row's. */
  lemma {:induction false} BandFromRowsOnRange(rows: seq<(int, int)>, correct: int, i: nat, k: nat)
    requires i <= k < |rows| && RowsDescending(rows)
    requires correct >= rows[k].0 && (k > i ==> correct < rows[k - 1].0)
    ensures BandFromRows(rows, correct, i) == rows[k].1
    decreases k - i
  {
    if i < k {
      DescendingBetween(rows, i, k - 1);
      BandFromRowsOnRange(rows, correct, i + 1, k);
    }
  }

  /** Below the last row's lowest count no row is reached. */
  lemma {:induction false} BandFromRowsBelow(rows: seq<(int, int)>, correct: int, i: nat)
    requires i <= |rows| && RowsDescending(rows)
    requires |rows| > 0 && correct < rows[|rows| - 1].0
    ensures BandFromRows(rows, correct, i) == MinBand
    decreases |rows| - i
  {
    if i < |rows| {
      DescendingBetween(rows, i, |rows| - 1);
      BandFromRowsBelow(rows, correct, i + 1);
    }
  }

  lemma {:induction false} DescendingBetween(rows: seq<(int, int)>, i: nat, j: nat)
    requires i <= j < |rows| && RowsDescending(rows)
    ensures rows[j].0 <= rows[i].0
    decreases j - i
  {
    if i < j {
      DescendingBetween(rows, i, j - 1);
    }
  }

  /** The per-count table, read as consecutive ranges of counts. */
  lemma MapAsRanges(c: int)
    ensures BandHalves(c) ==
      (if c >= 39 then 18 else if c >= 37 then 17 else if c >= 35 then 16
      else if c >= 32 then 15 else if c >= 30 then 14 else if c >= 26 then 13
      else if c >= 23 then 12 else if c >= 18 then 11 else if c >= 16 then 10
      else if c >= 13 then 9 else if c >= 11 then 8 else 7)
  {
    assert c in BandMap <==> 11 <= c <= 40;
  }

  /** The per-count table and the range rows give the same band for every count. */
  lemma BandTablesAgree(correct: int)
    ensures BandHalves(correct) == BandByRows(correct)
  {
    MapAsRanges(correct);
    RowsAreDescending();
    if correct < 11 {
      BandFromRowsBelow(Rows, correct, 0);
    } else if correct >= 39 {
      BandFromRowsOnRange(Rows, correct, 0, 0);
    } else if correct >= 37 {
      BandFromRowsOnRange(Rows, correct, 0, 1);
    } else if correct >= 35 {
      BandFromRowsOnRange(Rows, correct, 0, 2);
    } else if correct >= 32 {
      BandFromRowsOnRange(Rows, correct, 0, 3);
    } else if correct >= 30 {
      BandFromRowsOnRange(Rows, correct, 0, 4);
    } else if correct >= 26 {
      BandFromRowsOnRange(Rows, correct, 0, 5);
    } else if correct >= 23 {
      BandFromRowsOnRange(Rows, correct, 0, 6);
    } else if correct >= 18 {
      BandFromRowsOnRange(Rows, correct, 0, 7);
    } else if correct >= 16 {
      BandFromRowsOnRange(Rows, correct, 0, 8);
    } else if correct >= 13 {
      BandFromRowsOnRange(Rows, correct, 0, 9);
    } else if correct >= 11 {
      BandFromRowsOnRange(Rows, correct, 0, 10);
    }
  }

  /** More correct answers never give a lower band. */
  lemma BandMonotone(a: int, b: int)
    requires a <= b
    ensures BandHalves(a) <= BandHalves(b)
  {
    BandTablesAgree(a);
    BandTablesAgree(b);
    RowsAreDescending();
    BandFromRowsMonotone(Rows, a, b, 0);
  }

  /** Every band is a whole number of half-bands from 3.5 to 9.0, and each of them is reached. */
  lemma BandRangeIsExact(h: int)
    ensures (exists c :: BandHalves(c) == h) <==> MinBand <= h <= MaxBand
  {
    if MinBand <= h <= MaxBand {
      var c := if h == 7 then 0 else if h == 18 then 40 else Rows[18 - h].0;
      MapAsRanges(c);
      assert BandHalves(c) == h;
    }
  }
}
