/** The per-country, per-vaccine dose accumulation of getCountryVaccineCounts.
    The rows are the result of the distinct-tuple query, taken as input; the
    code tables are a parameter, which the program fixes to SourceTables. */
module Counts {
  import opened Lookup
  import opened MapSums

  datatype Option<T> = None | Some(value: T)

  /** One (dosesReceived, countryCode, vaccineCode) tuple; a null dose count is None. */
  datatype DoseRecord = DoseRecord(doses: Option<int>, country: string, vaccine: string)

  /** Display vaccine name (or TotalKey) to accumulated dose count. */
  type CountryRow = map<string, int>

  /** Display country name to that country's row. */
  type Summary = map<string, CountryRow>

  /** The reserved key holding a country's running total. */
  const TotalKey: string := "total_doses"

  /** The dose count used for accumulation: null counts as zero. */
  function Doses(r: DoseRecord): (n: int)
    ensures r.doses == None ==> n == 0
    ensures r.doses.Some? ==> n == r.doses.value
  {
    match r.doses
    case None => 0
    case Some(n) => n
  }

  function CountryOf(t: CodeTables, r: DoseRecord): string { Resolve(t.countries, r.country) }

  function VaccineOf(t: CodeTables, r: DoseRecord): string { Resolve(t.vaccines, r.vaccine) }

  /** Every country row carries the total key, so reading it cannot fail. */
  predicate HasTotals(s: Summary)
  {
    forall c :: c in s ==> TotalKey in s[c]
  }

  /** One pass of the loop body: the resolved country's row is replaced by the
      row that Insert gives. */
  function Accumulate(t: CodeTables, s: Summary, r: DoseRecord): (s': Summary)
    requires HasTotals(s)
    ensures HasTotals(s')
  {
    var country := CountryOf(t, r);
    s[country := Insert(s, country, VaccineOf(t, r), Doses(r))]
  }

  /** Country c's row once the doses of vaccine v are added, by the three insertion
      branches: a new country, a new vaccine of a known country, a known vaccine. */
  function Insert(s: Summary, c: string, v: string, doses: int): (row: CountryRow)
    requires HasTotals(s)
    ensures TotalKey in row
  {
    if c !in s then
      map[v := doses, TotalKey := doses]
    else if v !in s[c] then
      var row := s[c][v := doses];
      row[TotalKey := row[TotalKey] + doses]
    else
      var row := s[c][v := s[c][v] + doses];
      row[TotalKey := row[TotalKey] + doses]
  }

  /** The summary after processing the rows in order, starting from an empty one. */
  function CountsOf(t: CodeTables, rows: seq<DoseRecord>): (s: Summary)
    ensures HasTotals(s)
  {
    if rows == [] then map[]
    else Accumulate(t, CountsOf(t, rows[..|rows| - 1]), rows[|rows| - 1])
  }

  /** The total key holds the sum of the country's other entries. */
  ghost predicate TotalsConsistent(s: Summary)
  {
    forall c :: c in s ==>
      TotalKey in s[c] && s[c][TotalKey] == SumOver(s[c], s[c].Keys - {TotalKey})
  }

  /** No tuple's vaccine resolves to the reserved key. */
  predicate NoReservedName(t: CodeTables, rows: seq<DoseRecord>)
  {
    forall r :: r in rows ==> VaccineOf(t, r) != TotalKey
  }

  // Reference definitions, independent of the order of the rows.

  /** The resolved country names of the rows. */
  function CountryNames(t: CodeTables, rows: seq<DoseRecord>): set<string>
  {
    set r | r in rows :: CountryOf(t, r)
  }

  /** The resolved vaccine names of the rows that resolve to country c. */
  function VaccineNames(t: CodeTables, rows: seq<DoseRecord>, c: string): set<string>
  {
    set r | r in rows && CountryOf(t, r) == c :: VaccineOf(t, r)
  }

  /** Row r is one of country c's rows and, when v is given, one of vaccine v's. */
  predicate Selects(t: CodeTables, r: DoseRecord, c: string, v: Option<string>)
  {
    CountryOf(t, r) == c && (v.None? || VaccineOf(t, r) == v.value)
  }

  /** The null-as-zero doses of the selected rows. */
  function DoseSum(t: CodeTables, rows: seq<DoseRecord>, c: string, v: Option<string>): int
  {
    if rows == [] then 0
    else
      var last := rows[|rows| - 1];
      DoseSum(t, rows[..|rows| - 1], c, v) + (if Selects(t, last, c, v) then Doses(last) else 0)
  }

  /** A country row holds, for the rows, exactly the country's vaccine names plus
      the total key, the country's dose sum as total and each vaccine's dose sum. */
  predicate RowTallied(t: CodeTables, rows: seq<DoseRecord>, c: string, row: CountryRow)
  {
    && row.Keys == VaccineNames(t, rows, c) + {TotalKey}
    && row[TotalKey] == DoseSum(t, rows, c, None)
    && forall v :: v in row && v != TotalKey ==> row[v] == DoseSum(t, rows, c, Some(v))
  }

  /** Summary s holds exactly the rows' countries, each with a tallied row. */
  predicate Tallied(t: CodeTables, rows: seq<DoseRecord>, s: Summary)
  {
    && s.Keys == CountryNames(t, rows)
    && forall c :: c in s ==> RowTallied(t, rows, c, s[c])
  }

  /** The loop of getCountryVaccineCounts over the query result. */
  method CountryVaccineCounts(t: CodeTables, rows: seq<DoseRecord>) returns (summary: Summary)
    ensures summary == CountsOf(t, rows)
    ensures summary.Keys == CountryNames(t, rows)
    ensures NoReservedName(t, rows) ==> TotalsConsistent(summary) && Tallied(t, rows, summary)
  {
    summary := map[];
    for i := 0 to |rows|
      invariant summary == CountsOf(t, rows[..i])
      invariant NoReservedName(t, rows) ==> TotalsConsistent(summary)
    {
      ghost var before := summary;
      summary := AddTuple(t, summary, rows[i]);
      assert rows[..i + 1][..i] == rows[..i];
      if NoReservedName(t, rows) {
        AccumulateKeepsTotals(t, before, rows[i]);
      }
    }
    assert rows[..|rows|] == rows;
    CountsCountries(t, rows);
    if NoReservedName(t, rows) {
      CountsMatchTallies(t, rows);
    }
  }

  /** The body of that loop: resolve both codes, read a null count as zero and
      insert or add the doses by the three branches. */
  method AddTuple(t: CodeTables, summary: Summary, entry: DoseRecord) returns (updated: Summary)
    requires HasTotals(summary)
    ensures updated == Accumulate(t, summary, entry)
  {
    var doses, country, vaccineType := entry.doses, entry.country, entry.vaccine;
    if country in t.countries {
      country := t.countries[country];
    }
    if vaccineType in t.vaccines {
      vaccineType := t.vaccines[vaccineType];
    }
    if doses == None {
      doses := Some(0);
    }
    var count := doses.value;
    if country !in summary {
      updated := summary[country := map[vaccineType := count, TotalKey := count]];
    } else if vaccineType !in summary[country] {
      var row := summary[country][vaccineType := count];
      row := row[TotalKey := row[TotalKey] + count];
      updated := summary[country := row];
    } else {
      var row := summary[country][vaccineType := summary[country][vaccineType] + count];
      row := row[TotalKey := row[TotalKey] + count];
      updated := summary[country := row];
    }
  }

  /** Accumulating a row adds its country and no other. */
  lemma AccumulateCountries(t: CodeTables, s: Summary, r: DoseRecord)
    requires HasTotals(s)
    ensures Accumulate(t, s, r).Keys == s.Keys + {CountryOf(t, r)}
  {
  }

  /** The summary's countries are exactly the rows' resolved country names. */
  lemma {:induction false} CountsCountries(t: CodeTables, rows: seq<DoseRecord>)
    ensures CountsOf(t, rows).Keys == CountryNames(t, rows)
  {
    if rows != [] {
      var init, last := rows[..|rows| - 1], rows[|rows| - 1];
      assert rows == init + [last];
      CountsCountries(t, init);
      AccumulateCountries(t, CountsOf(t, init), last);
      assert CountryNames(t, rows) == CountryNames(t, init) + {CountryOf(t, last)};
    }
  }

  /** Each of the three insertion branches keeps every total equal to the sum
      of its country's vaccine entries. */
  lemma AccumulateKeepsTotals(t: CodeTables, s: Summary, r: DoseRecord)
    requires TotalsConsistent(s)
    requires VaccineOf(t, r) != TotalKey
    ensures TotalsConsistent(Accumulate(t, s, r))
  {
    var country, vaccine := CountryOf(t, r), VaccineOf(t, r);
    var s' := Accumulate(t, s, r);
    var row' := s'[country];
    var keys' := row'.Keys - {TotalKey};
    if country !in s {
      assert keys' == {vaccine};
      SumOverRemove(row', keys', vaccine);
      assert keys' - {vaccine} == {};
    } else {
      var row := s[country];
      var keys := row.Keys - {TotalKey};
      if vaccine !in row {
        assert keys' == keys + {vaccine};
        SumOverRemove(row', keys', vaccine);
        assert keys' - {vaccine} == keys;
        SumOverAgree(row, row', keys);
      } else {
        assert keys' == keys;
        SumOverRemove(row', keys, vaccine);
        SumOverRemove(row, keys, vaccine);
        SumOverAgree(row, row', keys - {vaccine});
      }
    }
    forall c | c in s' && c != country
      ensures s'[c][TotalKey] == SumOver(s'[c], s'[c].Keys - {TotalKey})
    {
      assert s'[c] == s[c];
    }
  }

  /** After every processed tuple the totals are consistent. */
  lemma {:induction false} CountsKeepTotals(t: CodeTables, rows: seq<DoseRecord>)
    requires NoReservedName(t, rows)
    ensures TotalsConsistent(CountsOf(t, rows))
  {
    if rows != [] {
      var init, last := rows[..|rows| - 1], rows[|rows| - 1];
      assert last in rows;
      assert forall r :: r in init ==> r in rows;
      CountsKeepTotals(t, init);
      AccumulateKeepsTotals(t, CountsOf(t, init), last);
    }
  }

  /** A sum over rows none of which is selected is zero. */
  lemma {:induction false} DoseSumUnselected(t: CodeTables, rows: seq<DoseRecord>, c: string, v: Option<string>)
    requires forall r :: r in rows ==> !Selects(t, r, c, v)
    ensures DoseSum(t, rows, c, v) == 0
  {
    if rows != [] {
      var init := rows[..|rows| - 1];
      assert forall r :: r in init ==> r in rows;
      assert rows[|rows| - 1] in rows;
      DoseSumUnselected(t, init, c, v);
    }
  }

  /** Appending a tuple adds its names to the reference sets and its doses to the
      sums that select it. */
  lemma AppendOne(t: CodeTables, init: seq<DoseRecord>, last: DoseRecord, c: string)
    ensures CountryNames(t, init + [last]) == CountryNames(t, init) + {CountryOf(t, last)}
    ensures VaccineNames(t, init + [last], c)
         == VaccineNames(t, init, c) + (if CountryOf(t, last) == c then {VaccineOf(t, last)} else {})
    ensures forall v :: (DoseSum(t, init + [last], c, v)
         == DoseSum(t, init, c, v) + (if Selects(t, last, c, v) then Doses(last) else 0))
  {
    var rows := init + [last];
    assert rows[..|rows| - 1] == init && rows[|rows| - 1] == last;
    assert forall r :: r in rows <==> r in init || r == last;
  }

  /** First branch: a country not seen before gets a row of one vaccine and its total. */
  lemma TallyNewCountry(t: CodeTables, init: seq<DoseRecord>, last: DoseRecord)
    requires CountryOf(t, last) !in CountryNames(t, init)
    requires VaccineOf(t, last) != TotalKey
    ensures var d := Doses(last);
      RowTallied(t, init + [last], CountryOf(t, last), map[VaccineOf(t, last) := d, TotalKey := d])
  {
    var c, v := CountryOf(t, last), VaccineOf(t, last);
    AppendOne(t, init, last, c);
    assert forall r :: r in init ==> CountryOf(t, r) != c;
    assert VaccineNames(t, init, c) == {};
    DoseSumUnselected(t, init, c, None);
    DoseSumUnselected(t, init, c, Some(v));
  }

  /** Second branch: a new vaccine of a known country gets its doses, added to the total. */
  lemma TallyNewVaccine(t: CodeTables, init: seq<DoseRecord>, last: DoseRecord, row: CountryRow)
    requires RowTallied(t, init, CountryOf(t, last), row)
    requires VaccineOf(t, last) !in row && VaccineOf(t, last) != TotalKey
    ensures var r := row[VaccineOf(t, last) := Doses(last)];
      RowTallied(t, init + [last], CountryOf(t, last), r[TotalKey := r[TotalKey] + Doses(last)])
  {
    var c, v := CountryOf(t, last), VaccineOf(t, last);
    AppendOne(t, init, last, c);
    assert forall r :: r in init ==> !Selects(t, r, c, Some(v));
    DoseSumUnselected(t, init, c, Some(v));
  }

  /** Third branch: a vaccine already present adds to its entry and to the total. */
  lemma TallyKnownVaccine(t: CodeTables, init: seq<DoseRecord>, last: DoseRecord, row: CountryRow)
    requires RowTallied(t, init, CountryOf(t, last), row)
    requires VaccineOf(t, last) in row && VaccineOf(t, last) != TotalKey
    ensures var v, d := VaccineOf(t, last), Doses(last);
      var r := row[v := row[v] + d];
      RowTallied(t, init + [last], CountryOf(t, last), r[TotalKey := r[TotalKey] + d])
  {
    AppendOne(t, init, last, CountryOf(t, last));
  }

  /** Other countries' rows are untouched and still tallied. */
  lemma TallyOtherCountry(t: CodeTables, init: seq<DoseRecord>, last: DoseRecord, c: string, row: CountryRow)
    requires RowTallied(t, init, c, row)
    requires c != CountryOf(t, last)
    ensures RowTallied(t, init + [last], c, row)
  {
    AppendOne(t, init, last, c);
  }

  /** The resolved country's new row, by whichever branch Insert takes, is tallied. */
  lemma TallyInsert(t: CodeTables, init: seq<DoseRecord>, last: DoseRecord, s: Summary)
    requires HasTotals(s)
    requires CountryOf(t, last) in s ==> RowTallied(t, init, CountryOf(t, last), s[CountryOf(t, last)])
    requires CountryOf(t, last) !in s ==> CountryOf(t, last) !in CountryNames(t, init)
    requires VaccineOf(t, last) != TotalKey
    ensures RowTallied(t, init + [last], CountryOf(t, last),
      Insert(s, CountryOf(t, last), VaccineOf(t, last), Doses(last)))
  {
    var country, vaccine := CountryOf(t, last), VaccineOf(t, last);
    if country !in s {
      TallyNewCountry(t, init, last);
    } else if vaccine !in s[country] {
      TallyNewVaccine(t, init, last, s[country]);
    } else {
      TallyKnownVaccine(t, init, last, s[country]);
    }
  }

  /** Appending one tuple to rows whose summary is tallied gives a tallied summary. */
  lemma AccumulateTallies(t: CodeTables, init: seq<DoseRecord>, last: DoseRecord, s: Summary)
    requires HasTotals(s) && Tallied(t, init, s)
    requires VaccineOf(t, last) != TotalKey
    ensures Tallied(t, init + [last], Accumulate(t, s, last))
  {
    var country := CountryOf(t, last);
    var s' := Accumulate(t, s, last);
    AccumulateCountries(t, s, last);
    AppendOne(t, init, last, country);
    forall c | c in s' ensures RowTallied(t, init + [last], c, s'[c]) {
      if c != country {
        TallyOtherCountry(t, init, last, c, s[c]);
      } else {
        TallyInsert(t, init, last, s);
      }
    }
  }

  /** The summary holds exactly the rows' countries, each country's vaccines plus the
      total key, each total the sum of the country's doses and each vaccine entry the
      sum of that vaccine's doses in that country. */
  lemma {:induction false} CountsMatchTallies(t: CodeTables, rows: seq<DoseRecord>)
    requires NoReservedName(t, rows)
    ensures Tallied(t, rows, CountsOf(t, rows))
  {
    if rows != [] {
      var init, last := rows[..|rows| - 1], rows[|rows| - 1];
      assert rows == init + [last];
      assert forall r :: r in init ==> r in rows;
      assert last in rows;
      CountsMatchTallies(t, init);
      AccumulateTallies(t, init, last, CountsOf(t, init));
    }
  }

  lemma {:induction false} DoseSumAppend(t: CodeTables, a: seq<DoseRecord>, b: seq<DoseRecord>, c: string, v: Option<string>)
    ensures DoseSum(t, a + b, c, v) == DoseSum(t, a, c, v) + DoseSum(t, b, c, v)
    decreases |b|
  {
    if b == [] {
      assert a + b == a;
    } else {
      var init := b[..|b| - 1];
      assert (a + b)[..|a + b| - 1] == a + init;
      assert (a + b)[|a + b| - 1] == b[|b| - 1];
      DoseSumAppend(t, a, init, c, v);
    }
  }

  /** Taking one tuple out of the middle of the rows takes its doses out of the sums. */
  lemma DoseSumSplit(t: CodeTables, front: seq<DoseRecord>, x: DoseRecord, back: seq<DoseRecord>, c: string, v: Option<string>)
    ensures DoseSum(t, front + [x] + back, c, v)
         == DoseSum(t, front + back, c, v) + (if Selects(t, x, c, v) then Doses(x) else 0)
  {
    DoseSumAppend(t, front + [x], back, c, v);
    DoseSumAppend(t, front, [x], c, v);
    DoseSumAppend(t, front, back, c, v);
    assert [x][..0] == [];
  }

  /** The last element of a is somewhere in b, a permutation of a; without it the
      two are still permutations of each other. */
  lemma MatchLast<T>(a: seq<T>, b: seq<T>) returns (front: seq<T>, back: seq<T>)
    requires a != [] && multiset(a) == multiset(b)
    ensures b == front + [a[|a| - 1]] + back
    ensures multiset(a[..|a| - 1]) == multiset(front + back)
  {
    var init, last := a[..|a| - 1], a[|a| - 1];
    assert a == init + [last];
    assert last in multiset(a);
    var j :| 0 <= j < |b| && b[j] == last;
    front, back := b[..j], b[j + 1..];
    assert b == front + [last] + back;
    assert multiset(init) == multiset(a) - multiset{last};
    assert multiset(front + back) == multiset(b) - multiset{last};
  }

  /** Sums of doses depend only on the multiset of rows. */
  lemma {:induction false} DoseSumPermutation(t: CodeTables, a: seq<DoseRecord>, b: seq<DoseRecord>, c: string, v: Option<string>)
    requires multiset(a) == multiset(b)
    ensures DoseSum(t, a, c, v) == DoseSum(t, b, c, v)
    decreases |a|
  {
    if a == [] {
      assert |b| == |multiset(b)| == 0;
    } else {
      var init, last := a[..|a| - 1], a[|a| - 1];
      var front, back := MatchLast(a, b);
      DoseSumPermutation(t, init, front + back, c, v);
      DoseSumSplit(t, front, last, back, c, v);
    }
  }

  /** Two tallied rows of one country for rows with the same multiset of tuples are equal. */
  lemma TalliedRowsAgree(t: CodeTables, a: seq<DoseRecord>, b: seq<DoseRecord>, c: string,
                         rowA: CountryRow, rowB: CountryRow)
    requires multiset(a) == multiset(b)
    requires forall r :: r in a <==> r in b
    requires RowTallied(t, a, c, rowA) && RowTallied(t, b, c, rowB)
    ensures rowA == rowB
  {
    assert VaccineNames(t, a, c) == VaccineNames(t, b, c);
    DoseSumPermutation(t, a, b, c, None);
    forall v | v in rowA && v != TotalKey ensures rowA[v] == rowB[v] {
      DoseSumPermutation(t, a, b, c, Some(v));
    }
  }

  /** The summary does not depend on the order of the tuples. */
  lemma CountsOrderIndependent(t: CodeTables, a: seq<DoseRecord>, b: seq<DoseRecord>)
    requires multiset(a) == multiset(b)
    requires NoReservedName(t, a)
    ensures CountsOf(t, a) == CountsOf(t, b)
  {
    forall r ensures r in a <==> r in b {
      assert r in a <==> r in multiset(a);
      assert r in b <==> r in multiset(b);
    }
    CountsMatchTallies(t, a);
    CountsMatchTallies(t, b);
    var sa, sb := CountsOf(t, a), CountsOf(t, b);
    assert CountryNames(t, a) == CountryNames(t, b);
    forall c | c in sa ensures sa[c] == sb[c] {
      TalliedRowsAgree(t, a, b, c, sa[c], sb[c]);
    }
  }

  /** A null dose count has the same effect as a count of zero. */
  lemma {:induction false} NullCountsAsZero(t: CodeTables, rows: seq<DoseRecord>, i: nat)
    requires i < |rows| && rows[i].doses == None
    ensures CountsOf(t, rows) == CountsOf(t, rows[i := rows[i].(doses := Some(0))])
  {
    var rows' := rows[i := rows[i].(doses := Some(0))];
    var n := |rows|;
    if i == n - 1 {
      assert rows'[..n - 1] == rows[..n - 1];
    } else {
      assert rows'[..n - 1] == rows[..n - 1][i := rows[i].(doses := Some(0))];
      NullCountsAsZero(t, rows[..n - 1], i);
    }
  }

  /** With the program's tables, only the literal code "total_doses" resolves to the
      reserved key. */
  lemma ReservedNameOnlyFromItself(code: string)
    ensures Resolve(VaccineTypes, code) == TotalKey <==> code == TotalKey
  {
  }

  /** Without NoReservedName the invariant fails: a second tuple of the same country
      whose vaccine resolves to the reserved key lands in the third branch and adds
      its doses to the total twice. */
  lemma ReservedNameBreaksTotals()
    ensures !TotalsConsistent(CountsOf(SourceTables,
      [DoseRecord(Some(5), "BE", "COM"), DoseRecord(Some(3), "BE", TotalKey)]))
  {
    var first, second := DoseRecord(Some(5), "BE", "COM"), DoseRecord(Some(3), "BE", TotalKey);
    KnownCountryCodes();
    KnownVaccineCodes();
    ReservedNameOnlyFromItself(TotalKey);
    assert CountryOf(SourceTables, first) == CountryOf(SourceTables, second);
    assert VaccineOf(SourceTables, first) != TotalKey;
    ReservedAfterVaccine(SourceTables, first, second);
  }

  /** The same for any tables: a tuple that resolves to the reserved key, after one
      of a real vaccine of the same country with positive doses. */
  lemma ReservedAfterVaccine(t: CodeTables, first: DoseRecord, second: DoseRecord)
    requires CountryOf(t, first) == CountryOf(t, second)
    requires VaccineOf(t, first) != TotalKey && VaccineOf(t, second) == TotalKey
    requires Doses(second) != 0
    ensures !TotalsConsistent(CountsOf(t, [first, second]))
  {
    var rows := [first, second];
    var country, vaccine, d1, d2 := CountryOf(t, first), VaccineOf(t, first), Doses(first), Doses(second);
    assert rows[..1] == [first] && [first][..0] == [];
    var s1 := CountsOf(t, [first]);
    assert CountsOf(t, []) == map[];
    assert s1 == Accumulate(t, CountsOf(t, []), first);
    assert s1 == map[country := map[vaccine := d1, TotalKey := d1]];
    var row := CountsOf(t, rows)[country];
    assert row == Insert(s1, country, TotalKey, d2);
    assert row == map[vaccine := d1, TotalKey := d1 + 2 * d2];
    assert row.Keys - {TotalKey} == {vaccine};
    SumOverRemove(row, {vaccine}, vaccine);
  }

  /** Without NoReservedName the order of the tuples matters: the same two tuples
      give totals 8 and 11 in the two orders. */
  lemma ReservedNameBreaksOrder()
    ensures var vaccine, reserved := DoseRecord(Some(5), "BE", "COM"), DoseRecord(Some(3), "BE", TotalKey);
      CountsOf(SourceTables, [reserved, vaccine]) != CountsOf(SourceTables, [vaccine, reserved])
  {
    var vaccine, reserved := DoseRecord(Some(5), "BE", "COM"), DoseRecord(Some(3), "BE", TotalKey);
    KnownCountryCodes();
    KnownVaccineCodes();
    ReservedNameOnlyFromItself(TotalKey);
    assert CountryOf(SourceTables, vaccine) == CountryOf(SourceTables, reserved);
    assert VaccineOf(SourceTables, vaccine) != TotalKey;
    ReservedReordered(SourceTables, vaccine, reserved);
  }

  /** The same for any tables: the reserved tuple first counts its doses once in the
      total, after a vaccine of the same country twice. */
  lemma ReservedReordered(t: CodeTables, first: DoseRecord, second: DoseRecord)
    requires CountryOf(t, first) == CountryOf(t, second)
    requires VaccineOf(t, first) != TotalKey && VaccineOf(t, second) == TotalKey
    requires Doses(second) != 0
    ensures var country := CountryOf(t, first);
      && CountsOf(t, [first, second])[country][TotalKey] == Doses(first) + 2 * Doses(second)
      && CountsOf(t, [second, first])[country][TotalKey] == Doses(first) + Doses(second)
  {
    var country, vaccine, d1, d2 := CountryOf(t, first), VaccineOf(t, first), Doses(first), Doses(second);
    assert [first, second][..1] == [first] && [first][..0] == [];
    assert [second, first][..1] == [second] && [second][..0] == [];
    assert CountsOf(t, []) == map[];
    var s1 := CountsOf(t, [first]);
    assert s1 == Accumulate(t, CountsOf(t, []), first);
    assert s1 == map[country := map[vaccine := d1, TotalKey := d1]];
    assert CountsOf(t, [first, second])[country] == Insert(s1, country, TotalKey, d2);
    var s2 := CountsOf(t, [second]);
    assert s2 == Accumulate(t, CountsOf(t, []), second);
    assert Insert(map[], country, TotalKey, d2) == map[TotalKey := d2];
    assert s2 == map[country := map[TotalKey := d2]];
    assert CountsOf(t, [second, first])[country] == Insert(s2, country, vaccine, d1);
  }
}
