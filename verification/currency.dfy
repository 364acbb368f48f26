/** The supported currencies: their codes and display names, in declaration order. */
module Currency {

  const EUR := "EUR"
  const USD := "USD"
  const CZK := "CZK"
  const IDR := "IDR"
  const BRL := "BRL"

  /** The code-to-name table, an ordered PHP array. */
  const Names: seq<(string, string)> := [
    (EUR, "Euro"),
    (USD, "US Dollar"),
    (CZK, "Czech Koruna"),
    (IDR, "Indonesian Rupiah"),
    (BRL, "Brazilian Real")
  ]

  const Unknown := "Unknown"

  function Lookup(table: seq<(string, string)>, code: string): string {
    if table == [] then Unknown
    else if table[0].0 == code then table[0].1
    else Lookup(table[1..], code)
  }

  /** The display name of a currency code, or "Unknown". */
  function GetName(code: string): string {
    Lookup(Names, code)
  }

  function Keys(table: seq<(string, string)>): (ks: seq<string>)
    ensures |ks| == |table|
    ensures forall i :: 0 <= i < |table| ==> ks[i] == table[i].0
  {
    if table == [] then [] else [table[0].0] + Keys(table[1..])
  }

  /** All supported codes, in the table's order. */
  function GetAll(): seq<string> {
    Keys(Names)
  }

  predicate NoDuplicates(s: seq<string>) {
    forall i, j :: 0 <= i < j < |s| ==> s[i] != s[j]
  }

  lemma GetAllInOrder()
    ensures GetAll() == [EUR, USD, CZK, IDR, BRL]
    ensures NoDuplicates(GetAll())
  {
  }

  lemma NamesOfSupportedCodes()
    ensures GetName(EUR) == "Euro"
    ensures GetName(USD) == "US Dollar"
    ensures GetName(CZK) == "Czech Koruna"
    ensures GetName(IDR) == "Indonesian Rupiah"
    ensures GetName(BRL) == "Brazilian Real"
  {
    LookupFirstMatch(Names, 1);
    LookupFirstMatch(Names, 2);
    LookupFirstMatch(Names, 3);
    LookupFirstMatch(Names, 4);
  }

  /** Lookup returns the name paired with the first occurrence of the code. */
  lemma {:induction false} LookupFirstMatch(table: seq<(string, string)>, i: int)
    requires 0 <= i < |table|
    requires forall j :: 0 <= j < i ==> table[j].0 != table[i].0
    ensures Lookup(table, table[i].0) == table[i].1
  {
    if i > 0 {
      LookupFirstMatch(table[1..], i - 1);
    }
  }

  lemma {:induction false} LookupFinds(table: seq<(string, string)>, code: string)
    requires forall i :: 0 <= i < |table| ==> table[i].1 != Unknown
    ensures Lookup(table, code) != Unknown <==> code in Keys(table)
    ensures code !in Keys(table) ==> Lookup(table, code) == Unknown
  {
    if table != [] {
      LookupFinds(table[1..], code);
      assert Keys(table) == [table[0].0] + Keys(table[1..]);
    }
  }

  /** A code has a real name exactly when it is one of the supported codes. */
  lemma GetNameKnownIff(code: string)
    ensures GetName(code) != Unknown <==> code in GetAll()
    ensures code !in GetAll() ==> GetName(code) == Unknown
  {
    LookupFinds(Names, code);
  }
}
