# Vaccine tracker aggregation core, in Dafny

This project models the in-memory aggregation of `datawork.py` in the
fastapi-covid-vaccine-tracker repository. It covers four parts:

- **Code resolution.** Country and vaccine codes become display names through two fixed
  tables (`VACCINE_TYPE`, `COUNTRY_CODES`). A code missing from its table is kept as it is.
- **Dose accumulation** (`getCountryVaccineCounts`). Each `(doses, country, vaccine)` tuple of the
  query result is resolved. A null dose count is read as zero. The doses are then added into a
  per-country map of per-vaccine counts plus a running `"total_doses"` entry, by three insertion
  branches: new country, new vaccine of a known country, known vaccine.
- **Percentages** (`getCountryVaccinePercentages`). Each country reads its total once. When the
  total is nonzero, it rewrites every other entry as `round(100*value/total, 2)`; a zero total
  leaves the entries as they are. Then it deletes `"total_doses"`.
- **Grouping** (`getAllData`). Rows are grouped by their first field into lists of their second
  fields, in row order.

The modules follow that structure:

- `MapSums` (`map_sums.dfy`): sums of map values over a key set.
- `Lookup` (`lookup.dfy`): the two tables, copied verbatim, including the spellings "Cypress" and
  "Leichtenstein" and the en dash in "Coronavac – Sinovac".
- `Counts` (`counts.dfy`): the accumulation loop as a method, following a left-fold specification.
- `Percentages` (`percentages.dfy`): the nested conversion loops as methods.
- `Grouping` (`grouping.dfy`): the grouping loop as a method.

The loops are imperative methods. Each one is proved against a specification function
(`CountsOf`, `Percentages`, `ValuesFor`). Lemmas then relate `CountsOf` and `Percentages` to
order-free reference definitions:

- the set of resolved country names;
- the set of a country's resolved vaccine names;
- `DoseSum`, the null-as-zero sum of the doses of the tuples that resolve to a country (and,
  optionally, to one vaccine).

`ValuesFor` keeps the row order on purpose, since the grouped lists are ordered; lemmas state
how it splits over concatenation and how the group sizes add up.

The query results are the inputs of the methods. The code tables are the parameter `t`; the
program's own pair is `SourceTables`.

## Model

| member | source | states |
|---|---|---|
| Lookup.VaccineTableKeys | datawork.py:7 | The vaccine table has exactly eight codes: COM, MOD, CN, SIN, JANSS, SPU, AZ, UNK. |
| Lookup.KnownVaccineCodes | datawork.py:7 | Each of the eight vaccine codes resolves to its display name. |
| Lookup.KnownCountryCodes | datawork.py:8-37 | BE, FR, CY, LI and UK resolve to Belgium, France, Cypress, Leichtenstein and United Kingdom, spelled as in the table. |
| Lookup.Resolve | datawork.py:127-130 | A code in the table resolves to its display name. A code missing from the table resolves to itself, without error. |
| Lookup.VaccineNameIdempotent | datawork.py:129-130 | Resolving a resolved vaccine name again changes nothing: no display name is also a code. |
| Lookup.VaccineNamesDistinct | datawork.py:7 | Two different known vaccine codes have different display names. |
| Counts.Doses | datawork.py:131-132 | A null dose count is read as 0; any other count is used as it is. |
| Counts.Accumulate | datawork.py:126-142 | After one tuple, every country row still has the total key, so reading the total never fails. |
| Counts.Insert | datawork.py:133-142 | The new country row, whichever of the three branches is taken, carries the total key. |
| Counts.CountsOf | datawork.py:125-142 | The summary of any sequence of tuples has the total key in every country row. |
| Counts.CountryVaccineCounts | datawork.py:119-147 | The loop result equals the fold `CountsOf`. Its keys are exactly the tuples' resolved country names. When no vaccine resolves to "total_doses", every total equals the sum of its country's vaccine entries, and every row is tallied (see `CountsMatchTallies`). |
| Counts.AddTuple | datawork.py:126-142 | One loop iteration resolves both codes, reads a null count as 0 and applies the insertion branch that matches. The result equals one step of the fold. |
| Counts.AccumulateCountries | datawork.py:133-134 | One tuple adds its resolved country to the summary's keys and no other key. |
| Counts.CountsCountries | datawork.py:125-134 | The summary's countries are exactly the resolved country names of the tuples. |
| Counts.AccumulateKeepsTotals | datawork.py:133-142 | In each of the three branches, one tuple keeps every country's total equal to the sum of its vaccine entries. |
| Counts.CountsKeepTotals | datawork.py:125-142 | After any sequence of tuples, every total equals the sum of its country's vaccine entries. |
| Counts.TallyNewCountry | datawork.py:133-134 | First branch: a new country's row is its one vaccine plus the total, both equal to that country's dose sum. |
| Counts.TallyNewVaccine | datawork.py:136-138 | Second branch: a new vaccine entry gets its doses, and the total grows by them. The row still holds exactly the country's vaccines and their dose sums. |
| Counts.TallyKnownVaccine | datawork.py:139-142 | Third branch: the vaccine entry and the total both grow by the doses. The row stays tallied. |
| Counts.TallyOtherCountry | datawork.py:133-142 | Rows of countries other than the tuple's own stay tallied. |
| Counts.TallyInsert | datawork.py:133-142 | The row Insert builds for the tuple's country is tallied for the extended sequence of tuples. |
| Counts.AccumulateTallies | datawork.py:126-142 | Appending one tuple to a tallied summary gives a tallied summary. |
| Counts.CountsMatchTallies | datawork.py:125-142 | The countries are exactly the tuples' country names. Each row's keys are that country's vaccine names plus "total_doses". Each total is the null-as-zero sum of the country's doses, and each vaccine entry is the sum of that vaccine's doses in that country. |
| Counts.DoseSumPermutation | datawork.py:125-142 | Dose sums depend only on the multiset of tuples, not on their order. |
| Counts.CountsOrderIndependent | datawork.py:125-142 | When no vaccine of the tuples resolves to "total_doses", two tuple sequences with the same multiset of tuples give the same summary. |
| Counts.NullCountsAsZero | datawork.py:131-132 | Replacing one null dose count by 0 leaves the summary unchanged. |
| Counts.ReservedNameOnlyFromItself | datawork.py:129-130 | With the program's table, a vaccine resolves to "total_doses" exactly when its code is "total_doses". |
| Counts.ReservedNameBreaksTotals | datawork.py:139-142 | A tuple whose vaccine code is "total_doses" takes the third branch, adds its doses to the total twice and breaks the total invariant. |
| Counts.ReservedAfterVaccine | datawork.py:139-142 | For any tables, a vaccine entry followed by a tuple of the same country that resolves to "total_doses", with nonzero doses, leaves the total unequal to the sum of the entries. |
| Counts.ReservedNameBreaksOrder | datawork.py:133-142 | The tuples (5, BE, COM) and (3, BE, total_doses) give different summaries in the two orders, so order independence needs the "total_doses" condition. |
| Counts.ReservedReordered | datawork.py:133-142 | For any tables, a tuple resolving to "total_doses" with d2 doses and a vaccine tuple of the same country with d1 doses give the total d1 + d2 when the reserved tuple comes first and d1 + 2*d2 when it comes second. |
| Percentages.RoundHalfEven | datawork.py:113 | The result is an integer within 1/2 of the input. On an exact tie it is the even neighbour. |
| Percentages.Round2 | datawork.py:113 | The result is within 0.005 of the input and is a whole number of hundredths. On an exact tie it is the even hundredth. |
| Percentages.Percent | datawork.py:109-113 | With a zero total, the value is kept as it is. Otherwise the share is within 0.005 of 100*value/total and is a whole number of hundredths. |
| Percentages.RowPercentages | datawork.py:106-116 | A country's shares have exactly the keys of its counts except "total_doses". |
| Percentages.Percentages | datawork.py:105-116 | The shares have exactly the countries of the counts. |
| Percentages.ToPercentages | datawork.py:105-116 | The outer loop over countries gives exactly `Percentages(counts)`: every country's row converted and nothing else. |
| Percentages.ConvertRow | datawork.py:106-116 | The inner loop for one country gives `RowPercentages(counts)`. The total is read before any entry changes. Every other key is converted by `Percent`, and the total key is deleted. |
| Percentages.ConvertOne | datawork.py:105-116 | Converting one country leaves the other countries as they were. |
| Percentages.ConvertedAll | datawork.py:105-117 | Once every country is converted, the map is the percentages of the counts. |
| Percentages.CountryVaccinePercentages | datawork.py:103-117 | The result is the percentages of `CountsOf(rows)`, with exactly the tuples' country names as keys. When no vaccine resolves to "total_doses", each country maps exactly its resolved vaccine names to `Percent(vaccine dose sum, country dose sum)`. |
| Percentages.TalliedPercentages | datawork.py:103-117 | For a tallied summary, each country's shares have the country's vaccine names as keys and `Percent` of the dose sums as values. |
| Percentages.TalliedRowPercentages | datawork.py:106-116 | The same for one country row. |
| Percentages.PercentagesKeys | datawork.py:105-116 | The countries are unchanged, no row holds "total_doses", and each row keeps every other key. |
| Percentages.ZeroTotalKeepsCounts | datawork.py:109-110 | A country with total 0 keeps every vaccine value as it was. |
| Percentages.PercentInRange | datawork.py:112-113 | A count between 0 and a positive total gives a share between 0 and 100. |
| Percentages.SharesNearHundred | datawork.py:108-114 | When a country's total is nonzero and equals the sum of its entries, its shares add up to 100 within 0.005 per vaccine. |
| Percentages.ExactSharesHundred | datawork.py:112 | Under the same conditions, the unrounded shares add up to exactly 100. |
| Percentages.RoundingGap | datawork.py:112-113 | Over any set of vaccines, rounded and unrounded shares differ in sum by at most 0.005 per vaccine. |
| Percentages.ExactSum | datawork.py:112 | Over any set of vaccines, the unrounded shares add up to 100 times their doses divided by the total. |
| Percentages.BelgiumFranceCounts | datawork.py:125-142 | The tuples (100, BE, COM), (50, BE, MOD), (0, FR, UNK) give Belgium {Pfizer/BioNTech: 100, Moderna: 50, total: 150} and France {Unknown: 0, total: 0}. |
| Percentages.ExampleShape | datawork.py:133-142 | For any tables, two tuples of one country with different vaccines followed by one tuple of another country give the two rows of that example, with totals d1 + d2 and d3. |
| Percentages.BelgiumFrancePercentages | datawork.py:105-116 | Those counts give Belgium {Pfizer/BioNTech: 66.67, Moderna: 33.33} and France {Unknown: 0}. |
| Percentages.ExampleShares | datawork.py:109-113 | 100 of 150 is 66.67, 50 of 150 is 33.33, and a zero total keeps 0. |
| Percentages.TwoVaccineShares | datawork.py:106-116 | A row of two vaccines and their total converts to the two shares, with no total key. |
| Percentages.OneVaccineShares | datawork.py:106-116 | A row of one vaccine and its total converts to that one share, with no total key. |
| Grouping.GroupRows | datawork.py:95-100 | The loop result's keys are exactly the rows' distinct first fields. Each key maps to the second fields of the rows with that first field, in row order. |
| Grouping.AppendRow | datawork.py:98-100 | One row adds its first field to the keys and appends its second field to that key's list only. |
| Grouping.ValuesForAppend | datawork.py:95-100 | The list of a concatenation of rows is the concatenation of the lists, so row order is kept. |
| Grouping.RowInItsGroup | datawork.py:95-100 | Every row's second field is in the list of its first field. |
| Grouping.GroupSizes | datawork.py:95-100 | The list lengths add up to the number of rows. |
| Grouping.GroupsNonEmpty | datawork.py:98-100 | Every key's list is nonempty. |

## Left out

- Database access, SQL text, the config file and the command line are not modelled (`connect`, `writeConfig`, `loadData`, `populateVaccineData`, the `fire` entry point). The query results are inputs to `CountryVaccineCounts` and `GroupRows`.
- Duplicate elimination: the `distinct` of the counts query is not modelled. `CountryVaccineCounts` accepts any sequence of tuples, duplicates included.
- Counts.AddTuple: the `try`/`except` around the third branch is not modelled. Doses are integers once null is read as 0, so `int(doses)` is the identity.
- Percentages.Round2: rounds the exact real value half-to-even to hundredths. The source rounds a binary float, so results can differ in the last digit.
- Percentages.ToPercentages: every value is a real. The source keeps the integer counts of a zero-total country as integers and makes the others floats.
- `total_percentage` is not modelled. It is accumulated and never used. `SharesNearHundred` states the property it would measure.
- Dictionary iteration order is not modelled. Maps are unordered. When no vaccine resolves to "total_doses", `CountsOrderIndependent` shows that the order of the tuples does not matter.
- Counts.CountsOrderIndependent: holds only when no vaccine of the tuples resolves to "total_doses". Otherwise the order matters, as `ReservedNameBreaksOrder` shows.
- Counts.CountryVaccineCounts: the total invariant and the tallies are stated only when no vaccine resolves to "total_doses". `ReservedNameBreaksTotals` shows that the invariant fails otherwise.
- Lookup.KnownCountryCodes: states the resolution for five of the country codes, not all of them. The whole table is in `CountryCodes` with its entries in source order.
- The country table has 32 entries: the 27 EU members plus IS, LI, CH, NO and UK. `CountryCodes` holds all of them.
- Grouping.GroupRows: only a row's first two fields are modelled, as a pair. The other columns of `vaccine_list` are never read.
