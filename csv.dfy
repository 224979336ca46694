/** `parseCsv` (Contatos/script-contatos.js): the page's simplified CSV
    reader. Lines are split on LF and trimmed; the first line is split on
    every comma into header names; every later line is split on the commas
    outside double quotes (a quote-parity rule) and zipped with the header
    names into a record. No quote unescaping is done. */
module Csv {
  import opened Wrappers
  import opened Text

  /** A parsed row: a JavaScript object whose own properties are the header
      names, each holding a string. */
  type Record = map<string, string>

  datatype Parsed = Parsed(headers: seq<string>, data: seq<Record>)

  /** `record.name`: the property value, or `None` for `undefined`. */
  function Get(record: Record, name: string): (r: Option<string>)
    ensures r.Some? <==> name in record
    ensures r.Some? ==> r.value == record[name]
  {
    if name in record then Some(record[name]) else None
  }

  /** JavaScript truthiness of a property value that is a string or
      `undefined`: present and non-empty. */
  predicate Truthy(value: Option<string>) {
    value.Some? && value.value != ""
  }

  /** Number of `"` characters in `s`. */
  function QuoteCount(s: string): nat {
    if s == [] then 0 else (if s[0] == '"' then 1 else 0) + QuoteCount(s[1..])
  }

  /** The comma at position `i` splits the row: the lookahead
      `(?=(?:(?:[^"]*"){2})*[^"]*$)` accepts exactly the remainders that hold
      an even number of quotes. */
  predicate IsSeparator(row: string, i: int)
    requires 0 <= i < |row|
  {
    row[i] == ',' && QuoteCount(row[i + 1..]) % 2 == 0
  }

  /** The first separator at or after `from`, or `|row|` if there is none. */
  function NextSeparator(row: string, from: nat): (j: nat)
    requires from <= |row|
    ensures from <= j <= |row|
    ensures j < |row| ==> IsSeparator(row, j)
    ensures forall i :: from <= i < j ==> !IsSeparator(row, i)
    decreases |row| - from
  {
    if from == |row| then from
    else if IsSeparator(row, from) then from
    else NextSeparator(row, from + 1)
  }

  /** `row.split(/,(?=(?:(?:[^"]*"){2})*[^"]*$)/)`: cut the row at every
      separator comma. */
  function SplitRow(row: string): (r: seq<string>)
    ensures |r| >= 1
    decreases |row|
  {
    var j := NextSeparator(row, 0);
    if j == |row| then [row]
    else [row[..j]] + SplitRow(row[j + 1..])
  }

  /** Joining the pieces of a row with commas gives the row back. */
  lemma {:induction false} SplitRowJoin(row: string)
    ensures Join(SplitRow(row), ',') == row
    decreases |row|
  {
    var j := NextSeparator(row, 0);
    if j < |row| {
      var rest := SplitRow(row[j + 1..]);
      SplitRowJoin(row[j + 1..]);
      var r := SplitRow(row);
      assert r[1..] == rest;
      assert row == row[..j] + [','] + row[j + 1..];
    }
  }

  /** The positions of the row that are separators. */
  ghost function SeparatorPositions(row: string): set<int> {
    set i | 0 <= i < |row| && IsSeparator(row, i)
  }

  /** The positions of the commas that `Join(pieces, ',')` puts between the pieces. */
  ghost function JoinPositions(pieces: seq<string>): set<int>
    decreases |pieces|
  {
    if |pieces| <= 1 then {}
    else {|pieces[0]|} + Shift(JoinPositions(pieces[1..]), |pieces[0]| + 1)
  }

  ghost function Shift(positions: set<int>, offset: int): set<int> {
    set i | i in positions :: i + offset
  }

  /** Past a separator, whether a comma splits does not depend on what came
      before it: the lookahead only reads the rest of the line. */
  lemma SeparatorInSuffix(row: string, j: nat, i: int)
    requires j < |row| && j < i < |row|
    ensures IsSeparator(row, i) <==> IsSeparator(row[j + 1..], i - j - 1)
  {
    assert row[j + 1..][i - j - 1] == row[i];
    assert row[j + 1..][i - j..] == row[i + 1..];
  }

  /** A separator other than the first lies after it, and is a separator
      of the rest of the line. */
  lemma LaterSeparator(row: string, j: nat, i: int)
    requires j == NextSeparator(row, 0) && j < |row|
    requires 0 <= i < |row| && IsSeparator(row, i) && i != j
    ensures j < i && i - j - 1 in SeparatorPositions(row[j + 1..])
  {
    SeparatorInSuffix(row, j, i);
  }

  /** A separator of the rest of the line is a separator of the row. */
  lemma EarlierSeparator(row: string, j: nat, k: int)
    requires j < |row|
    requires k in SeparatorPositions(row[j + 1..])
    ensures k + j + 1 in SeparatorPositions(row)
  {
    SeparatorInSuffix(row, j, k + j + 1);
  }

  /** The separators of a row are its first separator followed by the
      separators of the rest of the line, shifted into place. */
  lemma SeparatorsAfterFirst(row: string, j: nat)
    requires j == NextSeparator(row, 0) && j < |row|
    ensures SeparatorPositions(row) == {j} + Shift(SeparatorPositions(row[j + 1..]), j + 1)
  {
    var restPositions := SeparatorPositions(row[j + 1..]);
    var lhs := SeparatorPositions(row);
    var rhs := {j} + Shift(restPositions, j + 1);
    forall i | i in lhs ensures i in rhs {
      if i != j {
        LaterSeparator(row, j, i);
        assert i == (i - j - 1) + (j + 1);
      }
    }
    forall i | i in rhs ensures i in lhs {
      if i != j {
        var k :| k in restPositions && i == k + j + 1;
        EarlierSeparator(row, j, k);
      }
    }
  }

  /** A comma is a field boundary of the split exactly when an even number of
      quotes follows it on the line. */
  lemma {:induction false} SplitRowSeparators(row: string)
    ensures JoinPositions(SplitRow(row)) == SeparatorPositions(row)
    decreases |row|
  {
    var j := NextSeparator(row, 0);
    if j == |row| {
      assert SeparatorPositions(row) == {};
    } else {
      var rest := row[j + 1..];
      var pieces := SplitRow(row);
      assert pieces == [row[..j]] + SplitRow(rest);
      assert pieces[1..] == SplitRow(rest);
      SplitRowSeparators(rest);
      SeparatorsAfterFirst(row, j);
    }
  }

  /** Every comma inside a pair of quotes stays in its field: the quoted
      comma of `1,"x,y",2` does not split it. */
  lemma SplitRowQuotedComma()
    ensures SplitRow("1,\"x,y\",2") == ["1", "\"x,y\"", "2"]
  {
    var row := "1,\"x,y\",2";
    var rest := "\"x,y\",2";
    assert row[2..] == rest;
    assert QuoteCount("2") == 0;
    assert QuoteCount("\",2") == 1;
    assert QuoteCount("y\",2") == 1;
    assert QuoteCount("x,y\",2") == 1;
    assert QuoteCount(rest) == 2;
    assert NextSeparator("2", 1) == 1;
    assert NextSeparator("2", 0) == 1;
    assert SplitRow("2") == ["2"];
    assert rest[6..] == "2";
    assert rest[3..] == "y\",2";
    assert IsSeparator(rest, 5);
    assert !IsSeparator(rest, 2);
    assert NextSeparator(rest, 5) == 5;
    assert NextSeparator(rest, 4) == 5;
    assert NextSeparator(rest, 3) == 5;
    assert NextSeparator(rest, 2) == 5;
    assert NextSeparator(rest, 1) == 5;
    assert NextSeparator(rest, 0) == 5;
    assert rest[..5] == "\"x,y\"";
    assert SplitRow(rest) == ["\"x,y\""] + SplitRow("2");
    assert IsSeparator(row, 1);
    assert NextSeparator(row, 1) == 1;
    assert NextSeparator(row, 0) == 1;
    assert row[..1] == "1";
    assert SplitRow(row) == ["1"] + SplitRow(rest);
  }

  /** `value.trim().replace(/^"|"$/g, '')`: the clean-up every header name
      and field value gets. */
  function Clean(field: string): (r: string)
    ensures |Trim(field)| - 2 <= |r| <= |Trim(field)| <= |field|
  {
    StripQuotes(Trim(field))
  }

  /** Trimming and quote removal only cut from the ends: the cleaned value
      is a piece of the field as it was. */
  lemma CleanOccurs(field: string)
    ensures exists i :: OccursAt(field, Clean(field), i)
  {
    var t := TrimStart(field);
    TrimStartSpec(field);
    TrimEndSpec(t);
    var u := TrimEnd(t);
    var r := StripQuotes(u);
    var a := |field| - |t|;
    var b := if u != [] && u[0] == '"' then 1 else 0;
    assert u == Trim(field);
    assert t == field[a..] && u == t[..|u|];
    assert u == field[a..a + |u|];
    assert r == u[b..b + |r|];
    assert field[a + b..a + b + |r|] == r;
    assert r == Clean(field);
    assert OccursAt(field, r, a + b);
  }

  /** `values[index] ? <cleaned value> : ''`: an absent or empty value reads
      as the empty string, a present one is cleaned. */
  function ValueAt(values: seq<string>, index: nat): (r: string)
    ensures index >= |values| ==> r == ""
    ensures index < |values| ==> r == Clean(values[index])
  {
    if index < |values| && values[index] != "" then Clean(values[index]) else ""
  }

  /** The record after the `forEach` has visited the first `n` header names:
      each visit sets the property named by the header, so a later header of
      the same name overwrites an earlier one. */
  function RecordUpTo(headers: seq<string>, values: seq<string>, n: nat): Record
    requires n <= |headers|
  {
    if n == 0 then map[]
    else RecordUpTo(headers, values, n - 1)[headers[n - 1] := ValueAt(values, n - 1)]
  }

  function RecordOf(headers: seq<string>, values: seq<string>): (r: Record)
    ensures r.Keys == ColumnNames(headers, |headers|)
  {
    RecordUpToKeys(headers, values, |headers|);
    RecordUpTo(headers, values, |headers|)
  }

  /** Column `j` is the last one named `headers[j]` among the first `n`. */
  predicate LastOccurrence(headers: seq<string>, j: nat, n: nat)
    requires j < n <= |headers|
  {
    forall m :: j < m < n ==> headers[m] != headers[j]
  }

  /** The names of the first `n` columns. */
  function ColumnNames(headers: seq<string>, n: nat): set<string>
    requires n <= |headers|
  {
    if n == 0 then {} else ColumnNames(headers, n - 1) + {headers[n - 1]}
  }

  lemma {:induction false} ColumnNamesSpec(headers: seq<string>, n: nat)
    requires n <= |headers|
    ensures ColumnNames(headers, n) == set i | 0 <= i < n :: headers[i]
  {
    if n > 0 {
      ColumnNamesSpec(headers, n - 1);
      var before := set i | 0 <= i < n - 1 :: headers[i];
      var after := set i | 0 <= i < n :: headers[i];
      forall x | x in after ensures x in before + {headers[n - 1]} {
        var i :| 0 <= i < n && headers[i] == x;
        if i < n - 1 { assert headers[i] in before; }
      }
      forall x | x in before ensures x in after {
        var i :| 0 <= i < n - 1 && headers[i] == x;
        assert headers[i] in after;
      }
      assert headers[n - 1] in after;
    }
  }

  /** The properties set by the first `n` visits are the first `n` header names. */
  lemma {:induction false} RecordUpToKeys(headers: seq<string>, values: seq<string>, n: nat)
    requires n <= |headers|
    ensures RecordUpTo(headers, values, n).Keys == ColumnNames(headers, n)
  {
    if n > 0 {
      RecordUpToKeys(headers, values, n - 1);
    }
  }

  /** After `n` visits, a header name holds the value of its last column so far. */
  lemma {:induction false} RecordUpToValues(headers: seq<string>, values: seq<string>, n: nat)
    requires n <= |headers|
    ensures forall j :: 0 <= j < n && LastOccurrence(headers, j, n) ==>
      headers[j] in RecordUpTo(headers, values, n) && RecordUpTo(headers, values, n)[headers[j]] == ValueAt(values, j)
  {
    if n > 0 {
      RecordUpToValues(headers, values, n - 1);
      var prev := RecordUpTo(headers, values, n - 1);
      assert RecordUpTo(headers, values, n) == prev[headers[n - 1] := ValueAt(values, n - 1)];
      forall j | 0 <= j < n && LastOccurrence(headers, j, n)
        ensures headers[j] in RecordUpTo(headers, values, n) && RecordUpTo(headers, values, n)[headers[j]] == ValueAt(values, j)
      {
        if j < n - 1 {
          assert LastOccurrence(headers, j, n - 1);
          assert headers[n - 1] != headers[j];
        }
      }
    }
  }

  /** The record has exactly the header names as its keys; the value of a
      name is the cleaned field of the last column with that name, and the
      empty string when the row has no field at that position. */
  lemma RecordOfFields(headers: seq<string>, values: seq<string>)
    ensures RecordOf(headers, values).Keys == set i | 0 <= i < |headers| :: headers[i]
    ensures forall j :: 0 <= j < |headers| && LastOccurrence(headers, j, |headers|) ==>
      headers[j] in RecordOf(headers, values) && RecordOf(headers, values)[headers[j]] == ValueAt(values, j)
  {
    RecordUpToKeys(headers, values, |headers|);
    ColumnNamesSpec(headers, |headers|);
    RecordUpToValues(headers, values, |headers|);
  }

  /** The `headers.forEach` loop of `parseCsv` that fills one record. */
  method BuildRecord(headers: seq<string>, values: seq<string>) returns (record: Record)
    ensures record == RecordOf(headers, values)
  {
    record := map[];
    for index := 0 to |headers|
      invariant record == RecordUpTo(headers, values, index)
    {
      var value := ValueAt(values, index);
      record := record[headers[index] := value];
    }
  }

  /** `rows.map(row => row.trim())`. */
  function TrimAll(rows: seq<string>): (r: seq<string>)
    ensures |r| == |rows|
    ensures forall i :: 0 <= i < |rows| ==> r[i] == Trim(rows[i])
  {
    if rows == [] then [] else [Trim(rows[0])] + TrimAll(rows[1..])
  }

  /** `names.map(h => <clean h>)`. */
  function CleanAll(names: seq<string>): (r: seq<string>)
    ensures |r| == |names|
    ensures forall i :: 0 <= i < |names| ==> r[i] == Clean(names[i])
  {
    if names == [] then [] else [Clean(names[0])] + CleanAll(names[1..])
  }

  /** `rows.map(row => <record of row>)`. */
  function RecordsOf(headers: seq<string>, rows: seq<string>): (r: seq<Record>)
    ensures |r| == |rows|
    ensures forall k :: 0 <= k < |rows| ==> r[k] == RecordOf(headers, SplitRow(rows[k]))
  {
    if rows == [] then [] else [RecordOf(headers, SplitRow(rows[0]))] + RecordsOf(headers, rows[1..])
  }

  lemma RecordsOfAppend(headers: seq<string>, rows: seq<string>, row: string)
    ensures RecordsOf(headers, rows + [row]) == RecordsOf(headers, rows) + [RecordOf(headers, SplitRow(row))]
  {
    var a := RecordsOf(headers, rows + [row]);
    var b := RecordsOf(headers, rows) + [RecordOf(headers, SplitRow(row))];
    assert |a| == |b|;
    forall k | 0 <= k < |a| ensures a[k] == b[k] {
      assert (rows + [row])[k] == if k < |rows| then rows[k] else row;
    }
  }

  /** `csvText.split('\n').map(row => row.trim())`. */
  function Lines(text: string): (rows: seq<string>)
    ensures |rows| >= 1
  {
    TrimAll(Split(text, '\n'))
  }

  /** `rows[0].split(',').map(h => <clean h>)`. */
  function HeaderNames(line: string): (headers: seq<string>)
    ensures |headers| >= 1
  {
    CleanAll(Split(line, ','))
  }

  /** What `parseCsv(text)` returns. */
  function Parse(text: string): (r: Parsed)
    ensures |r.headers| >= 1
    ensures |r.data| == |Split(text, '\n')| - 1
  {
    var rows := Lines(text);
    var headers := HeaderNames(rows[0]);
    Parsed(headers, RecordsOf(headers, rows[1..]))
  }

  /** `rows.slice(1).map(row => ...)` of `parseCsv`: split every data line
      and build its record. */
  method BuildRecords(headers: seq<string>, rows: seq<string>) returns (data: seq<Record>)
    ensures data == RecordsOf(headers, rows)
  {
    data := [];
    var k := 0;
    while k < |rows|
      invariant 0 <= k <= |rows|
      invariant data == RecordsOf(headers, rows[..k])
    {
      var values := SplitRow(rows[k]);
      var record := BuildRecord(headers, values);
      RecordsOfAppend(headers, rows[..k], rows[k]);
      assert rows[..k] + [rows[k]] == rows[..k + 1];
      data := data + [record];
      k := k + 1;
    }
    assert rows[..k] == rows;
  }

  /** `parseCsv`: header names from the first line, one record per later line. */
  method ParseCsv(csvText: string) returns (parsed: Parsed)
    ensures parsed == Parse(csvText)
  {
    var rows := Lines(csvText);
    var headers := HeaderNames(rows[0]);
    var data := BuildRecords(headers, rows[1..]);
    parsed := Parsed(headers, data);
  }

  /** One record per line after the first, in line order, and every record
      has exactly the header names as keys. */
  lemma ParseShape(text: string)
    ensures |Parse(text).data| == |Lines(text)| - 1
    ensures forall k :: 0 <= k < |Parse(text).data| ==>
      Parse(text).data[k] == RecordOf(Parse(text).headers, SplitRow(Lines(text)[k + 1]))
    ensures forall k :: 0 <= k < |Parse(text).data| ==>
      Parse(text).data[k].Keys == set i | 0 <= i < |Parse(text).headers| :: Parse(text).headers[i]
  {
    var p := Parse(text);
    forall k | 0 <= k < |p.data|
      ensures p.data[k].Keys == set i | 0 <= i < |p.headers| :: p.headers[i]
    {
      RecordOfFields(p.headers, SplitRow(Lines(text)[k + 1]));
    }
  }

  /** The value a record holds for a header name: the cleaned field at the
      position of the last column of that name, or the empty string past the
      end of the row. */
  lemma ParseFieldValue(text: string, k: nat, j: nat)
    requires k < |Parse(text).data| && j < |Parse(text).headers|
    requires LastOccurrence(Parse(text).headers, j, |Parse(text).headers|)
    ensures var values := SplitRow(Lines(text)[k + 1]);
      && Parse(text).headers[j] in Parse(text).data[k]
      && Parse(text).data[k][Parse(text).headers[j]] == if j < |values| then Clean(values[j]) else ""
  {
    var p := Parse(text);
    var values := SplitRow(Lines(text)[k + 1]);
    assert p.data[k] == RecordOf(p.headers, values);
    RecordOfFields(p.headers, values);
    assert p.data[k][p.headers[j]] == ValueAt(values, j);
  }

  /** Empty input is not guarded: it gives one empty header name and no records. */
  lemma ParseEmpty()
    ensures Parse("") == Parsed([""], [])
  {
    assert Split("", '\n') == [""];
    assert Lines("") == [""];
    assert Split("", ',') == [""];
    assert Trim("") == "";
    assert HeaderNames("") == [""];
  }

  /** A text without a line feed is a header line alone: its header names
      and no records. */
  lemma ParseSingleLine(text: string)
    requires '\n' !in text
    ensures Parse(text) == Parsed(HeaderNames(Trim(text)), [])
  {
    SplitUnique(text, '\n', [text]);
    assert Lines(text) == [Trim(text)];
    assert Lines(text)[1..] == [];
  }

  /** A field with no surrounding whitespace or quotes is kept as it is. */
  lemma CleanUnchanged(field: string)
    requires field != [] && !IsWhitespace(field[0]) && !IsWhitespace(field[|field| - 1])
    requires field[0] != '"' && field[|field| - 1] != '"'
    ensures Clean(field) == field
  {
    assert TrimStart(field) == field;
    assert TrimEnd(field) == field;
  }
}
