/** getCountryVaccinePercentages: each country's vaccine counts become shares of
    the country's total, rounded to two decimals, and the total key is dropped.
    Values are exact reals; a country whose total is zero keeps its counts. */
module Percentages {
  import opened Lookup
  import opened Counts
  import opened MapSums

  /** Display vaccine name to its share (or, for a zero total, its count). */
  type ShareRow = map<string, real>

  /** Display country name to that country's shares. */
  type Shares = map<string, ShareRow>

  /** The integer nearest to y, ties going to the even neighbour. */
  function RoundHalfEven(y: real): (n: int)
    ensures -0.5 <= n as real - y <= 0.5
    ensures (n as real - y == 0.5 || y - n as real == 0.5) ==> n % 2 == 0
  {
    var f := y.Floor;
    var frac := y - f as real;
    if frac < 0.5 then f
    else if frac > 0.5 then f + 1
    else if f % 2 == 0 then f
    else f + 1
  }

  /** round(x, 2) on the exact value: the nearest multiple of one hundredth,
      ties to the even hundredth. */
  function Round2(x: real): (r: real)
    ensures -0.005 <= r - x <= 0.005
    ensures (r * 100.0).Floor as real == r * 100.0
    ensures (r - x == 0.005 || x - r == 0.005) ==> (r * 100.0).Floor % 2 == 0
  {
    var n := RoundHalfEven(x * 100.0);
    Hundredths(n, x);
    n as real / 100.0
  }

  /** n hundredths are n once scaled by 100, and their distance to x is the
      distance of n to 100*x, scaled back. */
  lemma Hundredths(n: int, x: real)
    ensures n as real / 100.0 * 100.0 == n as real
    ensures n as real / 100.0 - x == (n as real - x * 100.0) / 100.0
  {
  }

  /** The value a vaccine entry takes: unchanged for a zero total, otherwise
      100*value/total rounded to two decimals. */
  function Percent(value: int, total: int): (p: real)
    ensures total == 0 ==> p == value as real
    ensures total != 0 ==> -0.005 <= p - (value * 100) as real / total as real <= 0.005
    ensures total != 0 ==> (p * 100.0).Floor as real == p * 100.0
  {
    if total == 0 then value as real
    else Round2((value * 100) as real / total as real)
  }

  /** A country's row of counts with every entry read as a real. */
  function AsReals(row: CountryRow): (r: ShareRow)
    ensures r.Keys == row.Keys
  {
    map v | v in row :: row[v] as real
  }

  /** A country's shares: every vaccine entry converted against the row's total,
      the total key itself left out. */
  function RowPercentages(row: CountryRow): (shares: ShareRow)
    requires TotalKey in row
    ensures shares.Keys == row.Keys - {TotalKey}
  {
    map v | v in row && v != TotalKey :: Percent(row[v], row[TotalKey])
  }

  /** The result of getCountryVaccinePercentages for a summary of counts. */
  function Percentages(s: Summary): (shares: Shares)
    requires HasTotals(s)
    ensures shares.Keys == s.Keys
  {
    map c | c in s :: RowPercentages(s[c])
  }

  /** Every country of counts is converted in shares, except those still pending,
      which hold their counts as reals. */
  predicate ConvertedExcept(counts: Summary, shares: Shares, pending: set<string>)
    requires HasTotals(counts)
  {
    && shares.Keys == counts.Keys
    && forall c :: c in counts ==>
         shares[c] == if c in pending then AsReals(counts[c]) else RowPercentages(counts[c])
  }

  /** Converting one pending country keeps the others as they are. */
  lemma ConvertOne(counts: Summary, shares: Shares, pending: set<string>, country: string, converted: ShareRow)
    requires HasTotals(counts) && ConvertedExcept(counts, shares, pending)
    requires country in pending && country in counts && converted == RowPercentages(counts[country])
    ensures ConvertedExcept(counts, shares[country := converted], pending - {country})
  {
  }

  /** Once nothing is pending, shares are the percentages of counts. */
  lemma ConvertedAll(counts: Summary, shares: Shares)
    requires HasTotals(counts) && ConvertedExcept(counts, shares, {})
    ensures shares == Percentages(counts)
  {
  }

  /** The outer loop of getCountryVaccinePercentages over a summary of counts:
      every country's row is converted by the inner loop. */
  method ToPercentages(counts: Summary) returns (shares: Shares)
    requires HasTotals(counts)
    ensures shares == Percentages(counts)
  {
    shares := map c | c in counts :: AsReals(counts[c]);
    var countries := counts.Keys;
    while countries != {}
      invariant countries <= counts.Keys
      invariant ConvertedExcept(counts, shares, countries)
      decreases countries
    {
      var country :| country in countries;
      var converted := ConvertRow(counts[country]);
      ConvertOne(counts, shares, countries, country, converted);
      shares := shares[country := converted];
      countries := countries - {country};
    }
    ConvertedAll(counts, shares);
  }

  /** The inner loop for one country: the total is read once, before any entry is
      rewritten; every other entry becomes its rounded share unless the total is
      zero; then the total key is deleted. */
  method ConvertRow(counts: CountryRow) returns (converted: ShareRow)
    requires TotalKey in counts
    ensures converted == RowPercentages(counts)
  {
    converted := AsReals(counts);
    var totalDoses := converted[TotalKey];
    var vaccines := converted.Keys;
    while vaccines != {}
      invariant vaccines <= counts.Keys
      invariant converted.Keys == counts.Keys
      invariant converted[TotalKey] == totalDoses
      invariant forall v :: v in vaccines ==> converted[v] == counts[v] as real
      invariant forall v :: v in counts && v !in vaccines && v != TotalKey ==>
        converted[v] == Percent(counts[v], counts[TotalKey])
      decreases vaccines
    {
      var vaccineType :| vaccineType in vaccines;
      if vaccineType == TotalKey || totalDoses == 0.0 {
      } else {
        var percentage := converted[vaccineType] * 100.0 / (1.0 * totalDoses);
        assert percentage == (counts[vaccineType] * 100) as real / counts[TotalKey] as real;
        percentage := Round2(percentage);
        converted := converted[vaccineType := percentage];
      }
      vaccines := vaccines - {vaccineType};
    }
    converted := converted - {TotalKey};
  }

  /** getCountryVaccinePercentages: the counts of the rows, converted. */
  method CountryVaccinePercentages(t: CodeTables, rows: seq<DoseRecord>) returns (shares: Shares)
    ensures shares == Percentages(CountsOf(t, rows))
    ensures shares.Keys == CountryNames(t, rows)
    ensures NoReservedName(t, rows) ==> forall c :: c in shares ==>
      && shares[c].Keys == VaccineNames(t, rows, c)
      && forall v :: v in shares[c] ==>
           shares[c][v] == Percent(DoseSum(t, rows, c, Some(v)), DoseSum(t, rows, c, None))
  {
    var counts := CountryVaccineCounts(t, rows);
    shares := ToPercentages(counts);
    if NoReservedName(t, rows) {
      TalliedPercentages(t, rows, counts);
    }
  }

  /** The percentages of a tallied summary: each country's vaccine names, each with
      its share of the country's doses. */
  lemma TalliedPercentages(t: CodeTables, rows: seq<DoseRecord>, s: Summary)
    requires HasTotals(s) && Tallied(t, rows, s) && NoReservedName(t, rows)
    ensures forall c :: c in Percentages(s) ==>
      && Percentages(s)[c].Keys == VaccineNames(t, rows, c)
      && forall v :: v in Percentages(s)[c] ==>
           Percentages(s)[c][v] == Percent(DoseSum(t, rows, c, Some(v)), DoseSum(t, rows, c, None))
  {
    forall c | c in s
      ensures && Percentages(s)[c].Keys == VaccineNames(t, rows, c)
              && forall v :: v in Percentages(s)[c] ==>
                   Percentages(s)[c][v] == Percent(DoseSum(t, rows, c, Some(v)), DoseSum(t, rows, c, None))
    {
      TalliedRowPercentages(t, rows, c, s[c]);
    }
  }

  /** One tallied country row, converted. */
  lemma TalliedRowPercentages(t: CodeTables, rows: seq<DoseRecord>, c: string, row: CountryRow)
    requires RowTallied(t, rows, c, row) && NoReservedName(t, rows)
    ensures && RowPercentages(row).Keys == VaccineNames(t, rows, c)
            && forall v :: v in RowPercentages(row) ==>
                 RowPercentages(row)[v] == Percent(DoseSum(t, rows, c, Some(v)), DoseSum(t, rows, c, None))
  {
    assert TotalKey !in VaccineNames(t, rows, c);
  }

  /** The countries are kept, no row keeps the total key and each row keeps every
      other key of the counts. */
  lemma PercentagesKeys(s: Summary)
    requires HasTotals(s)
    ensures Percentages(s).Keys == s.Keys
    ensures forall c :: c in s ==> TotalKey !in Percentages(s)[c]
    ensures forall c :: c in s ==> Percentages(s)[c].Keys == s[c].Keys - {TotalKey}
  {
  }

  /** A country whose total is zero keeps its counts. */
  lemma ZeroTotalKeepsCounts(s: Summary, c: string)
    requires HasTotals(s) && c in s && s[c][TotalKey] == 0
    ensures forall v :: v in s[c] && v != TotalKey ==> Percentages(s)[c][v] == s[c][v] as real
  {
  }

  /** A count between zero and a positive total gives a share between 0 and 100. */
  lemma PercentInRange(value: int, total: int)
    requires 0 <= value <= total && total > 0
    ensures 0.0 <= Percent(value, total) <= 100.0
  {
    var exact := (value * 100) as real / total as real;
    assert 0.0 <= exact <= 100.0 by {
      assert (value * 100) as real <= (total * 100) as real;
    }
    var n := RoundHalfEven(exact * 100.0);
    assert -0.5 <= n as real && n as real <= 10000.5;
  }

  /** With consistent totals and a nonzero total, a country's shares add up to 100
      up to half a hundredth per vaccine. */
  lemma SharesNearHundred(row: CountryRow)
    requires TotalKey in row && row[TotalKey] != 0
    requires row[TotalKey] == SumOver(row, row.Keys - {TotalKey})
    ensures var shares := RowPercentages(row);
      var slack := 0.005 * |shares.Keys| as real;
      -slack <= RealSumOver(shares, shares.Keys) - 100.0 <= slack
  {
    var shares, keys := RowPercentages(row), row.Keys - {TotalKey};
    assert shares.Keys == keys;
    RoundingGap(row, keys);
    ExactSharesHundred(row);
  }

  /** With consistent totals, the unrounded shares add up to exactly 100. */
  lemma ExactSharesHundred(row: CountryRow)
    requires TotalKey in row && row[TotalKey] != 0
    requires row[TotalKey] == SumOver(row, row.Keys - {TotalKey})
    ensures RealSumOver(ExactShares(row), row.Keys - {TotalKey}) == 100.0
  {
    var keys := row.Keys - {TotalKey};
    ExactSum(row, keys);
    var total := row[TotalKey] as real;
    assert (SumOver(row, keys) * 100) as real == total * 100.0;
    DivSelf(total);
  }

  lemma DivAdd(x: real, y: real, t: real)
    requires t != 0.0
    ensures (x + y) / t == x / t + y / t
  {
  }

  lemma DivSelf(t: real)
    requires t != 0.0
    ensures (t * 100.0) / t == 100.0
  {
  }

  /** A country's unrounded shares, 100*value/total. */
  function ExactShares(row: CountryRow): (shares: ShareRow)
    requires TotalKey in row && row[TotalKey] != 0
    ensures shares.Keys == row.Keys - {TotalKey}
  {
    map v | v in row && v != TotalKey :: (row[v] * 100) as real / row[TotalKey] as real
  }

  /** Over any set of vaccines, the rounded shares add up to the unrounded ones up to
      half a hundredth each. */
  lemma {:induction false} RoundingGap(row: CountryRow, keys: set<string>)
    requires TotalKey in row && row[TotalKey] != 0
    requires keys <= row.Keys - {TotalKey}
    ensures -0.005 * |keys| as real
         <= RealSumOver(RowPercentages(row), keys) - RealSumOver(ExactShares(row), keys)
         <= 0.005 * |keys| as real
    decreases keys
  {
    if keys != {} {
      var shares, exact := RowPercentages(row), ExactShares(row);
      var k :| k in keys;
      var rest := keys - {k};
      RealSumOverRemove(shares, keys, k);
      RealSumOverRemove(exact, keys, k);
      RoundingGap(row, rest);
      assert |keys| as real == |rest| as real + 1.0;
      GapStep(shares[k], exact[k], RealSumOver(shares, rest), RealSumOver(exact, rest), |rest| as real);
    }
  }

  /** Over any set of vaccines, the unrounded shares add up to 100 times their doses
      over the total. */
  lemma {:induction false} ExactSum(row: CountryRow, keys: set<string>)
    requires TotalKey in row && row[TotalKey] != 0
    requires keys <= row.Keys - {TotalKey}
    ensures RealSumOver(ExactShares(row), keys) == (SumOver(row, keys) * 100) as real / row[TotalKey] as real
    decreases keys
  {
    if keys != {} {
      var exact := ExactShares(row);
      var k :| k in keys;
      var rest := keys - {k};
      RealSumOverRemove(exact, keys, k);
      SumOverRemove(row, keys, k);
      ExactSum(row, rest);
      var x, y := (row[k] * 100) as real, (SumOver(row, rest) * 100) as real;
      assert (SumOver(row, keys) * 100) as real == x + y;
      DivAdd(x, y, row[TotalKey] as real);
    }
  }

  /** Adding one term whose gap is within half a hundredth to a sum whose gap is
      within n half hundredths. */
  lemma GapStep(p: real, e: real, ps: real, es: real, n: real)
    requires -0.005 <= p - e <= 0.005
    requires -0.005 * n <= ps - es <= 0.005 * n
    ensures -0.005 * (n + 1.0) <= (p + ps) - (e + es) <= 0.005 * (n + 1.0)
  {
  }

  /** A worked example: two Belgian tuples and a French one. */
  lemma BelgiumFranceCounts()
    ensures CountsOf(SourceTables, [DoseRecord(Some(100), "BE", "COM"), DoseRecord(Some(50), "BE", "MOD"),
                                    DoseRecord(Some(0), "FR", "UNK")])
         == map["Belgium" := map["Pfizer/BioNTech" := 100, "Moderna" := 50, TotalKey := 150],
                "France" := map["Unknown" := 0, TotalKey := 0]]
  {
    var r1, r2, r3 := DoseRecord(Some(100), "BE", "COM"), DoseRecord(Some(50), "BE", "MOD"),
                      DoseRecord(Some(0), "FR", "UNK");
    KnownCountryCodes();
    KnownVaccineCodes();
    assert CountryOf(SourceTables, r1) == "Belgium" && VaccineOf(SourceTables, r1) == "Pfizer/BioNTech";
    assert CountryOf(SourceTables, r2) == "Belgium" && VaccineOf(SourceTables, r2) == "Moderna";
    assert CountryOf(SourceTables, r3) == "France" && VaccineOf(SourceTables, r3) == "Unknown";
    ExampleShape(SourceTables, r1, r2, r3);
  }

  /** The shape of that example for any tables: two tuples of one country with two
      different vaccines, then one tuple of another country. */
  lemma ExampleShape(t: CodeTables, r1: DoseRecord, r2: DoseRecord, r3: DoseRecord)
    requires CountryOf(t, r1) == CountryOf(t, r2) != CountryOf(t, r3)
    requires VaccineOf(t, r1) != VaccineOf(t, r2)
    requires VaccineOf(t, r1) != TotalKey && VaccineOf(t, r2) != TotalKey && VaccineOf(t, r3) != TotalKey
    ensures var d1, d2, d3 := Doses(r1), Doses(r2), Doses(r3);
      CountsOf(t, [r1, r2, r3])
        == map[CountryOf(t, r1) := map[VaccineOf(t, r1) := d1, VaccineOf(t, r2) := d2, TotalKey := d1 + d2],
               CountryOf(t, r3) := map[VaccineOf(t, r3) := d3, TotalKey := d3]]
  {
    var c, v1, v2, d1, d2 := CountryOf(t, r1), VaccineOf(t, r1), VaccineOf(t, r2), Doses(r1), Doses(r2);
    var rows := [r1, r2, r3];
    assert rows[..2] == [r1, r2] && [r1, r2][..1] == [r1] && [r1][..0] == [];
    assert CountsOf(t, []) == map[];
    var s1 := CountsOf(t, [r1]);
    assert s1 == Accumulate(t, map[], r1);
    assert s1 == map[c := map[v1 := d1, TotalKey := d1]];
    var s2 := CountsOf(t, [r1, r2]);
    assert s2 == Accumulate(t, s1, r2);
    assert Insert(s1, c, v2, d2) == map[v1 := d1, v2 := d2, TotalKey := d1 + d2];
    assert CountsOf(t, rows) == Accumulate(t, s2, r3);
  }

  /** The shares of that example: 100 and 50 of 150 give 66.67 and 33.33; a zero
      total leaves France's zero count. */
  lemma BelgiumFrancePercentages()
    ensures Percentages(map["Belgium" := map["Pfizer/BioNTech" := 100, "Moderna" := 50, TotalKey := 150],
                            "France" := map["Unknown" := 0, TotalKey := 0]])
         == map["Belgium" := map["Pfizer/BioNTech" := 66.67, "Moderna" := 33.33],
                "France" := map["Unknown" := 0.0]]
  {
    ExampleRowShares();
  }

  /** The two rows of that example, converted. */
  lemma ExampleRowShares()
    ensures RowPercentages(map["Pfizer/BioNTech" := 100, "Moderna" := 50, TotalKey := 150])
         == map["Pfizer/BioNTech" := 66.67, "Moderna" := 33.33]
    ensures RowPercentages(map["Unknown" := 0, TotalKey := 0]) == map["Unknown" := 0.0]
  {
    ExampleShares();
    var pfizer, moderna := "Pfizer/BioNTech", "Moderna";
    assert pfizer[0] != TotalKey[0] && moderna[0] != TotalKey[0] && moderna[0] != pfizer[0];
    TwoVaccineShares(pfizer, moderna, 100, 50);
    assert "Unknown"[0] != TotalKey[0];
    OneVaccineShares("Unknown", 0);
  }

  /** A row of two vaccines and their total, converted. */
  lemma TwoVaccineShares(v1: string, v2: string, d1: int, d2: int)
    requires v1 != v2 && v1 != TotalKey && v2 != TotalKey
    ensures RowPercentages(map[v1 := d1, v2 := d2, TotalKey := d1 + d2])
         == map[v1 := Percent(d1, d1 + d2), v2 := Percent(d2, d1 + d2)]
  {
  }

  /** A row of one vaccine and its total, converted. */
  lemma OneVaccineShares(v: string, d: int)
    requires v != TotalKey
    ensures RowPercentages(map[v := d, TotalKey := d]) == map[v := Percent(d, d)]
  {
  }

  /** The three shares of that example. */
  lemma ExampleShares()
    ensures Percent(100, 150) == 66.67 && Percent(50, 150) == 33.33 && Percent(0, 0) == 0.0
  {
    var y1 := (100 * 100) as real / 150 as real * 100.0;
    assert 6666.0 <= y1 < 6667.0 && y1 - 6666.0 > 0.5;
    assert y1.Floor == 6666;
    var y2 := (50 * 100) as real / 150 as real * 100.0;
    assert 3333.0 <= y2 < 3334.0 && y2 - 3333.0 < 0.5;
    assert y2.Floor == 3333;
  }
}
