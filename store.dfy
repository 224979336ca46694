/** The page's module-level state (`compdecData`, `repdecData`,
    `compdecHeaders`, `repdecHeaders`) and `fetchAndParseData`, which fills it
    from the two spreadsheet exports, together with the option lists that
    `populateCityDropdown` and `populateRegionalDropdown` derive from it. */
module Store {
  import opened Wrappers
  import opened Csv
  import opened Seqs

  /** `c => c.Coordenador || c.Municipio`: a contact row is kept when it names
      a coordinator or a municipality. */
  predicate KeepContact(c: Record) {
    Truthy(Get(c, "Coordenador")) || Truthy(Get(c, "Municipio"))
  }

  /** `r => r.REPDEC`: a regional row is kept when it names its regional. */
  predicate KeepRegional(r: Record) {
    Truthy(Get(r, "REPDEC"))
  }

  /** `records.map(r => r[name]).filter(Boolean)`: the present, non-empty
      values of one field, in record order. */
  function PresentValues(records: seq<Record>, name: string): (r: seq<string>)
    ensures forall v :: v in r <==> v != "" && exists i :: 0 <= i < |records| && Get(records[i], name) == Some(v)
  {
    if records == [] then []
    else
      var rest := PresentValues(records[1..], name);
      assert forall i :: 0 <= i < |records[1..]| ==> records[1..][i] == records[i + 1];
      assert forall v :: (exists i :: 0 <= i < |records| && Get(records[i], name) == Some(v)) <==>
        Get(records[0], name) == Some(v) || exists i :: 0 <= i < |records[1..]| && Get(records[1..][i], name) == Some(v) by {
        forall v | exists i :: 0 <= i < |records| && Get(records[i], name) == Some(v)
          ensures Get(records[0], name) == Some(v) || exists i :: 0 <= i < |records[1..]| && Get(records[1..][i], name) == Some(v)
        {
          var i :| 0 <= i < |records| && Get(records[i], name) == Some(v);
          if i > 0 { assert Get(records[1..][i - 1], name) == Some(v); }
        }
      }
      if Truthy(Get(records[0], name)) then [records[0][name]] + rest else rest
  }

  /** The list shown in a selector: the distinct non-empty values of one
      field, ascending. */
  function Options(records: seq<Record>, name: string): (r: seq<string>)
    ensures StrictlySorted(r)
    ensures forall v :: v in r <==> v != "" && exists i :: 0 <= i < |records| && Get(records[i], name) == Some(v)
  {
    var values := PresentValues(records, name);
    DistinctSortedSpec(values);
    DistinctSorted(values)
  }

  /** The two sheets the page loads: the municipal contacts (COMPDEC) and the
      regional offices (REPDEC). */
  datatype Sheet = Compdec | Repdec

  /** The row filter `fetchAndParseData` applies to a sheet. */
  predicate Keep(sheet: Sheet, row: Record) {
    match sheet
    case Compdec => KeepContact(row)
    case Repdec => KeepRegional(row)
  }

  /** `data.filter(<the sheet's filter>)`. A first-order copy of `Filter`:
      passing the predicate as a function value makes the proofs about the
      store much costlier for the solver, and `KeepRowsIsFilter` shows the
      two agree. */
  function KeepRows(sheet: Sheet, rows: seq<Record>): (r: seq<Record>)
    ensures |r| <= |rows|
    ensures (forall i :: 0 <= i < |rows| ==> Keep(sheet, rows[i])) ==> r == rows
  {
    if rows == [] then []
    else if Keep(sheet, rows[0]) then [rows[0]] + KeepRows(sheet, rows[1..])
    else KeepRows(sheet, rows[1..])
  }

  /** `KeepRows` is `Array.filter` with the sheet's predicate. */
  lemma {:induction false} KeepRowsIsFilter(sheet: Sheet, rows: seq<Record>)
    ensures KeepRows(sheet, rows) == Filter(rows, row => Keep(sheet, row))
    decreases |rows|
  {
    if rows != [] {
      KeepRowsIsFilter(sheet, rows[1..]);
    }
  }

  /** The kept rows are the rows that pass the sheet's filter, in their order
      and as often as they occur, and no others. */
  lemma KeepRowsSpec(sheet: Sheet, rows: seq<Record>)
    ensures IsSubsequence(KeepRows(sheet, rows), rows)
    ensures forall row :: row in KeepRows(sheet, rows) <==> row in rows && Keep(sheet, row)
    ensures forall row :: multiset(KeepRows(sheet, rows))[row] == if Keep(sheet, row) then multiset(rows)[row] else 0
  {
    KeepRowsIsFilter(sheet, rows);
    FilterSpec(rows, row => Keep(sheet, row));
  }

  /** Every kept row passes the sheet's filter. */
  lemma {:induction false} KeepRowsPass(sheet: Sheet, rows: seq<Record>)
    ensures forall i :: 0 <= i < |KeepRows(sheet, rows)| ==> Keep(sheet, KeepRows(sheet, rows)[i])
    decreases |rows|
  {
    if rows != [] {
      KeepRowsPass(sheet, rows[1..]);
    }
  }

  /** The header names of one sheet and the rows that survive its filter. */
  datatype Dataset = Dataset(headers: seq<string>, rows: seq<Record>)

  /** `parseCsv(text)` followed by the sheet's filter on its rows. */
  function KeptDataset(sheet: Sheet, text: string): Dataset {
    var parsed := Parse(text);
    Dataset(parsed.headers, KeepRows(sheet, parsed.data))
  }

  /** A loaded sheet keeps the parsed header names, and its rows are the
      ordered subsequence of the parsed rows that holds every row passing the
      sheet's filter and no other. */
  lemma KeptDatasetSpec(sheet: Sheet, text: string)
    ensures KeptDataset(sheet, text).headers == Parse(text).headers
    ensures IsSubsequence(KeptDataset(sheet, text).rows, Parse(text).data)
    ensures forall row :: row in KeptDataset(sheet, text).rows <==> row in Parse(text).data && Keep(sheet, row)
  {
    KeepRowsSpec(sheet, Parse(text).data);
  }

  /** Lines 77-79 and 82-84 of `fetchAndParseData` for one sheet: the parsed
      header names, and the parsed rows that pass the filter. */
  method ParseAndKeep(sheet: Sheet, text: string) returns (d: Dataset)
    ensures forall i :: 0 <= i < |d.rows| ==> Keep(sheet, d.rows[i])
    ensures d == KeptDataset(sheet, text)
  {
    var parsed := ParseCsv(text);
    d := Dataset(parsed.headers, KeepRows(sheet, parsed.data));
    KeepRowsPass(sheet, parsed.data);
  }

  class ContactStore {
    /** `compdecData`: the kept contact rows. */
    var contacts: seq<Record>
    /** `repdecData`: the kept regional rows. */
    var regionals: seq<Record>
    /** `compdecHeaders`. */
    var contactHeaders: seq<string>
    /** `repdecHeaders`. */
    var regionalHeaders: seq<string>

    /** Every stored row passed its sheet's filter. */
    ghost predicate Valid()
      reads this
    {
      && (forall i :: 0 <= i < |contacts| ==> Keep(Compdec, contacts[i]))
      && (forall i :: 0 <= i < |regionals| ==> Keep(Repdec, regionals[i]))
    }

    /** The four variables start out as empty arrays. */
    constructor ()
      ensures Valid()
      ensures contacts == [] && regionals == [] && contactHeaders == [] && regionalHeaders == []
    {
      contacts := [];
      regionals := [];
      contactHeaders := [];
      regionalHeaders := [];
    }

    /** The assignments of lines 78-79 and 83-84: both sheets' header names
        and kept rows replace the stored ones. Only rows that passed their
        sheet's filter are ever stored, so the invariant holds afterwards. */
    method Replace(compdec: Dataset, repdec: Dataset)
      requires forall i :: 0 <= i < |compdec.rows| ==> Keep(Compdec, compdec.rows[i])
      requires forall i :: 0 <= i < |repdec.rows| ==> Keep(Repdec, repdec.rows[i])
      modifies this
      ensures Valid()
      ensures contactHeaders == compdec.headers && contacts == compdec.rows
      ensures regionalHeaders == repdec.headers && regionals == repdec.rows
    {
      contactHeaders := compdec.headers;
      contacts := compdec.rows;
      regionalHeaders := repdec.headers;
      regionals := repdec.rows;
    }

    /** `fetchAndParseData` after both requests have answered: `contactsOk` and
        `regionalOk` are the responses' `ok` flags, the texts their bodies.
        A failed response throws before any variable is assigned, so the
        previous snapshot stays as it was. */
    method Load(contactsOk: bool, regionalOk: bool, contactsText: string, regionalText: string)
      returns (loaded: bool)
      modifies this
      ensures loaded <==> contactsOk && regionalOk
      ensures !loaded ==> unchanged(this)
      ensures loaded ==> Valid()
      ensures loaded ==> Dataset(contactHeaders, contacts) == KeptDataset(Compdec, contactsText)
      ensures loaded ==> Dataset(regionalHeaders, regionals) == KeptDataset(Repdec, regionalText)
    {
      if !contactsOk || !regionalOk {
        return false;
      }
      var compdec := ParseAndKeep(Compdec, contactsText);
      var repdec := ParseAndKeep(Repdec, regionalText);
      Replace(compdec, repdec);
      return true;
    }

    /** `populateCityDropdown`'s list: strictly ascending, so without
        repetitions, and holding exactly the non-empty `Municipio` values of
        the stored contacts. */
    function CityOptions(): (r: seq<string>)
      reads this
      ensures StrictlySorted(r)
      ensures forall v :: v in r <==> v != "" && exists i :: 0 <= i < |contacts| && Get(contacts[i], "Municipio") == Some(v)
    {
      Options(contacts, "Municipio")
    }

    /** `populateRegionalDropdown`'s list: strictly ascending and holding
        exactly the non-empty `REPDEC` values of the stored regionals. */
    function RegionalOptions(): (r: seq<string>)
      reads this
      ensures StrictlySorted(r)
      ensures forall v :: v in r <==> v != "" && exists i :: 0 <= i < |regionals| && Get(regionals[i], "REPDEC") == Some(v)
    {
      Options(regionals, "REPDEC")
    }
  }
}
