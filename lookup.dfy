/** The two fixed code tables and the code-to-display-name resolution
    applied to every dose tuple before it is accumulated. */
module Lookup {

  /** Vaccine code to display name. */
  const VaccineTypes: map<string, string> := map[
    "COM" := "Pfizer/BioNTech", "MOD" := "Moderna", "CN" := "SinoPharm",
    "SIN" := "Coronavac – Sinovac", "JANSS" := "J&J Janssen", "SPU" := "Sputnik V",
    "AZ" := "AstraZeneca", "UNK" := "Unknown"]

  /** ISO reporting-country code to display name, spellings as in the table. */
  const CountryCodes: map<string, string> := map[
    "BE" := "Belgium", "BG" := "Bulgaria", "CZ" := "Czechia", "FR" := "France",
    "DK" := "Denmark", "DE" := "Germany", "EE" := "Estonia", "IE" := "Ireland",
    "EL" := "Greece", "ES" := "Spain", "HR" := "Croatia", "IT" := "Italy",
    "CY" := "Cypress", "LV" := "Latvia", "LT" := "Lithuania", "LU" := "Luxembourg",
    "HU" := "Hungary", "MT" := "Malta", "NL" := "Netherlands", "AT" := "Austria",
    "PL" := "Poland", "PT" := "Portugal", "RO" := "Romania", "SI" := "Slovenia",
    "SK" := "Slovakia", "FI" := "Finland", "SE" := "Sweden", "IS" := "Iceland",
    "LI" := "Leichtenstein", "CH" := "Switzerland", "NO" := "Norway",
    "UK" := "United Kingdom"]

  /** A pair of code tables. The aggregation is stated over any pair; the program
      always uses SourceTables. */
  datatype CodeTables = CodeTables(countries: map<string, string>, vaccines: map<string, string>)

  /** The tables the program resolves codes with. */
  const SourceTables: CodeTables := CodeTables(CountryCodes, VaccineTypes)

  /** A known code becomes its display name; any other code is kept as it is. */
  function Resolve(table: map<string, string>, code: string): (name: string)
    ensures code in table ==> name == table[code]
    ensures code !in table ==> name == code
  {
    if code in table then table[code] else code
  }

  /** The vaccine table has exactly these eight codes. */
  lemma VaccineTableKeys()
    ensures |VaccineTypes| == 8
    ensures VaccineTypes.Keys == {"COM", "MOD", "CN", "SIN", "JANSS", "SPU", "AZ", "UNK"}
  {
  }

  /** Every vaccine code in the table resolves to its display name. */
  lemma KnownVaccineCodes()
    ensures Resolve(VaccineTypes, "COM") == "Pfizer/BioNTech" && Resolve(VaccineTypes, "MOD") == "Moderna"
    ensures Resolve(VaccineTypes, "CN") == "SinoPharm" && Resolve(VaccineTypes, "SIN") == "Coronavac – Sinovac"
    ensures Resolve(VaccineTypes, "JANSS") == "J&J Janssen" && Resolve(VaccineTypes, "SPU") == "Sputnik V"
    ensures Resolve(VaccineTypes, "AZ") == "AstraZeneca" && Resolve(VaccineTypes, "UNK") == "Unknown"
  {
  }

  /** Known country codes resolve to the table's display names, spellings included. */
  lemma KnownCountryCodes()
    ensures Resolve(CountryCodes, "BE") == "Belgium" && Resolve(CountryCodes, "FR") == "France"
    ensures Resolve(CountryCodes, "CY") == "Cypress" && Resolve(CountryCodes, "LI") == "Leichtenstein"
    ensures Resolve(CountryCodes, "UK") == "United Kingdom"
  {
  }

  /** No vaccine display name is itself a vaccine code, so resolving twice changes nothing. */
  lemma VaccineNameIdempotent(code: string)
    ensures Resolve(VaccineTypes, Resolve(VaccineTypes, code)) == Resolve(VaccineTypes, code)
  {
  }

  /** Distinct known vaccine codes have distinct display names. */
  lemma VaccineNamesDistinct(a: string, b: string)
    requires a != b && a in VaccineTypes && b in VaccineTypes
    ensures Resolve(VaccineTypes, a) != Resolve(VaccineTypes, b)
  {
  }
}
