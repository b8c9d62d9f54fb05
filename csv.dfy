/**
 * The CSV codec of the timesheet archive (api/csv.ts): records are maps from
 * column name to text; lines are split on "\n" and fields on ",", with no
 * quoting or escaping of any kind.
 */
module Csv {
  import opened Text

  type Record = map<string, string>

  /** The property name JavaScript gives `obj[undefined]`. */
  const Undefined: string := "undefined"

  // ---------------------------------------------------------------------------
  // parse (api/csv.ts:3-21)
  // ---------------------------------------------------------------------------

  /**
   * `columns[j]` as a property name: the j-th header column, or "undefined"
   * for a field past the end of the header.
   */
  function ColumnAt(columns: seq<string>, j: nat): (c: string)
    ensures j < |columns| ==> c == columns[j]
    ensures j >= |columns| ==> c == Undefined
  {
    if j < |columns| then columns[j] else Undefined
  }

  /** The record one line's fields make, assigned left to right. */
  function ParseRecord(columns: seq<string>, values: seq<string>): (r: Record)
    ensures forall j :: 0 <= j < |values| ==> ColumnAt(columns, j) in r
    ensures |values| > 0 ==> r[ColumnAt(columns, |values| - 1)] == values[|values| - 1]
  {
    if values == [] then map[]
    else ParseRecord(columns, values[..|values| - 1])[ColumnAt(columns, |values| - 1) := values[|values| - 1]]
  }

  /** What `parse` returns: one record for every line after the header. */
  function Parsed(content: string): seq<Record>
  {
    var lines := Split(content, '\n');
    var columns := Split(lines[0], ',');
    seq(|lines| - 1, i requires 0 <= i < |lines| - 1 => ParseRecord(columns, Split(lines[i + 1], ',')))
  }

  /** `parse`: the header's fields name the columns, each later line becomes a record. */
  method Parse(content: string) returns (results: seq<Record>)
    ensures results == Parsed(content)
    ensures |results| == |Split(content, '\n')| - 1
  {
    var lines := Split(content, '\n');
    var header := lines[0];
    var columns := Split(header, ',');
    results := [];
    for i := 1 to |lines|
      invariant |results| == i - 1
      invariant forall r :: 0 <= r < i - 1 ==> results[r] == ParseRecord(columns, Split(lines[r + 1], ','))
    {
      var values := Split(lines[i], ',');
      var obj: Record := map[];
      for j := 0 to |values|
        invariant obj == ParseRecord(columns, values[..j])
      {
        var column := ColumnAt(columns, j);
        assert values[..j + 1][..j] == values[..j];
        obj := obj[column := values[j]];
      }
      assert values[..|values|] == values;
      results := results + [obj];
    }
  }

  /** The empty text holds no records: it is one empty header line. */
  lemma ParseEmpty()
    ensures Parsed("") == []
  {
  }

  /** There is one record per line after the first, a trailing empty line included. */
  lemma ParseCount(content: string)
    ensures |Parsed(content)| == |Split(content, '\n')| - 1
  {
  }

  /** No two columns share a name. */
  predicate Distinct(columns: seq<string>)
  {
    forall i, j :: 0 <= i < j < |columns| ==> columns[i] != columns[j]
  }

  /**
   * Fields are matched to columns by position: with distinct column names and
   * no more fields than columns, the record holds exactly the first
   * `|values|` columns, the j-th with the j-th field; a short line gives a
   * record with fewer keys.
   */
  lemma {:induction false} ParseRecordFields(columns: seq<string>, values: seq<string>)
    requires Distinct(columns) && |values| <= |columns|
    ensures forall k :: k in ParseRecord(columns, values) <==> k in columns[..|values|]
    ensures forall j :: 0 <= j < |values| ==> ParseRecord(columns, values)[columns[j]] == values[j]
  {
    if values != [] {
      var n := |values|;
      var init := values[..n - 1];
      ParseRecordFields(columns, init);
      assert columns[..n] == columns[..n - 1] + [columns[n - 1]];
      forall j | 0 <= j < n - 1
        ensures ParseRecord(columns, values)[columns[j]] == values[j]
      {
        assert init[j] == values[j];
      }
    }
  }

  /** A line with more fields than the header stores its last field under "undefined". */
  lemma ParseLongLine(columns: seq<string>, values: seq<string>)
    requires |values| > |columns|
    ensures Undefined in ParseRecord(columns, values)
    ensures ParseRecord(columns, values)[Undefined] == values[|values| - 1]
  {
  }

  // ---------------------------------------------------------------------------
  // format (api/csv.ts:23-45)
  // ---------------------------------------------------------------------------

  /** `row[column] || ""`: the value, or "" when the row lacks the column. */
  function Field(row: Record, column: string): (v: string)
    ensures column in row ==> v == row[column]
    ensures column !in row ==> v == ""
  {
    if column in row then row[column] else ""
  }

  /** One field per column, in column order. */
  function Fields(row: Record, columns: seq<string>): (r: seq<string>)
    ensures |r| == |columns|
    ensures forall j :: 0 <= j < |columns| && columns[j] in row ==> r[j] == row[columns[j]]
    ensures forall j :: 0 <= j < |columns| && columns[j] !in row ==> r[j] == ""
  {
    seq(|columns|, j requires 0 <= j < |columns| => Field(row, columns[j]))
  }

  /** Every key of every row. */
  function AllKeys(rows: seq<Record>): (ks: set<string>)
    ensures forall i, k :: 0 <= i < |rows| && k in rows[i] ==> k in ks
  {
    if rows == [] then {}
    else
      var init := rows[..|rows| - 1];
      assert forall i :: 0 <= i < |init| ==> init[i] == rows[i];
      AllKeys(init) + rows[|rows| - 1].Keys
  }

  /** The header: all keys, ascending. */
  ghost function Header(rows: seq<Record>): seq<string>
  {
    Sorted(AllKeys(rows))
  }

  /** One line per row: its fields in column order, joined by ",". */
  function RowLines(rows: seq<Record>, columns: seq<string>): seq<string>
  {
    seq(|rows|, i requires 0 <= i < |rows| => Join(Fields(rows[i], columns), ','))
  }

  /** What `format` returns: "" for no rows, else the header line and one line per row. */
  ghost function Formatted(rows: seq<Record>): string
  {
    if rows == [] then ""
    else Join([Join(Header(rows), ',')] + RowLines(rows, Header(rows)), '\n')
  }

  /** `format`: gather the keys, sort them, write the header and then each row. */
  method Format(content: seq<Record>) returns (text: string)
    ensures text == Formatted(content)
  {
    if |content| == 0 {
      return "";
    }
    var columnSet := GatherKeys(content);
    var columns := SortKeys(columnSet);
    var lines: seq<string> := [Join(columns, ',')];
    for r := 0 to |content|
      invariant lines == [Join(columns, ',')] + RowLines(content[..r], columns)
    {
      var line := FormatRow(content[r], columns);
      assert RowLines(content[..r + 1], columns) == RowLines(content[..r], columns) + [line];
      lines := lines + [line];
    }
    assert content[..|content|] == content;
    text := Join(lines, '\n');
  }

  /** The outer key loop of `format`: the keys of all rows. */
  method GatherKeys(content: seq<Record>) returns (columnSet: set<string>)
    ensures columnSet == AllKeys(content)
  {
    columnSet := {};
    for r := 0 to |content|
      invariant columnSet == AllKeys(content[..r])
    {
      columnSet := AddKeys(columnSet, content[r]);
      assert content[..r + 1][..r] == content[..r];
    }
    assert content[..|content|] == content;
  }

  /** The inner column loop of `format`: one row's line. */
  method FormatRow(row: Record, columns: seq<string>) returns (text: string)
    ensures text == Join(Fields(row, columns), ',')
  {
    var line: seq<string> := [];
    for c := 0 to |columns|
      invariant |line| == c
      invariant forall j :: 0 <= j < c ==> line[j] == Field(row, columns[j])
    {
      line := line + [Field(row, columns[c])];
    }
    assert line == Fields(row, columns);
    text := Join(line, ',');
  }

  /** The inner key loop of `format`: each key of the row added to the set. */
  method AddKeys(columnSet: set<string>, row: Record) returns (result: set<string>)
    ensures result == columnSet + row.Keys
  {
    result := columnSet;
    var keys := row.Keys;
    while keys != {}
      invariant result + keys == columnSet + row.Keys
      decreases keys
    {
      var rowKey :| rowKey in keys;
      result := result + {rowKey};
      keys := keys - {rowKey};
    }
  }

  /** No rows format to the empty text. */
  lemma FormatEmpty()
    ensures Formatted([]) == ""
  {
  }

  /** A key is gathered exactly when some row has it. */
  lemma {:induction false} AllKeysMembers(rows: seq<Record>)
    ensures forall k :: k in AllKeys(rows) <==> exists i :: 0 <= i < |rows| && k in rows[i]
  {
    if rows != [] {
      var init := rows[..|rows| - 1];
      AllKeysMembers(init);
      forall k | k in AllKeys(rows)
        ensures exists i :: 0 <= i < |rows| && k in rows[i]
      {
        if k in AllKeys(init) {
          var i :| 0 <= i < |init| && k in init[i];
          assert k in rows[i];
        } else {
          assert k in rows[|rows| - 1];
        }
      }
    }
  }

  /**
   * The header is the union of all rows' keys, each once, in ascending order.
   */
  lemma HeaderSortedUnion(rows: seq<Record>)
    ensures StrictlySorted(Header(rows))
    ensures forall k :: k in Header(rows) <==> exists i :: 0 <= i < |rows| && k in rows[i]
  {
    AllKeysMembers(rows);
  }

  /** Text a field or key may hold without breaking the format: no "," and no "\n". */
  predicate Plain(s: string)
  {
    ',' !in s && '\n' !in s
  }

  /**
   * The one property name a JavaScript object literal will not store as its
   * own: assigning a string to it changes nothing.
   */
  const ProtoKey: string := "__proto__"

  /** Every key and every value of the row is plain, and no key is `__proto__`. */
  predicate PlainRecord(row: Record)
  {
    forall k :: k in row ==> Plain(k) && Plain(row[k]) && k != ProtoKey
  }

  /** A line of plain fields holds no line break. */
  lemma LineFree(fields: seq<string>)
    requires forall j :: 0 <= j < |fields| ==> Plain(fields[j])
    ensures '\n' !in Join(fields, ',')
  {
    JoinFree(fields, ',', '\n');
  }

  /**
   * With plain keys and values, the text splits back into the header line and
   * one line per row, in row order: `rows.length + 1` lines.
   */
  lemma FormatLines(rows: seq<Record>)
    requires rows != []
    requires forall i :: 0 <= i < |rows| ==> PlainRecord(rows[i])
    ensures Split(Formatted(rows), '\n') == [Join(Header(rows), ',')] + RowLines(rows, Header(rows))
    ensures |Split(Formatted(rows), '\n')| == |rows| + 1
  {
    var columns := Header(rows);
    var lines := [Join(columns, ',')] + RowLines(rows, columns);
    HeaderLineFree(rows);
    forall k | 0 <= k < |lines|
      ensures '\n' !in lines[k]
    {
      if k > 0 {
        RowLineFree(rows[k - 1], columns);
      }
    }
    SplitJoin(lines, '\n');
  }

  /** The header line of plain rows holds no line break. */
  lemma HeaderLineFree(rows: seq<Record>)
    requires forall i :: 0 <= i < |rows| ==> PlainRecord(rows[i])
    ensures '\n' !in Join(Header(rows), ',')
  {
    var columns := Header(rows);
    HeaderSortedUnion(rows);
    forall j | 0 <= j < |columns| ensures Plain(columns[j]) {
      assert columns[j] in columns;
    }
    LineFree(columns);
  }

  /** The line of a plain row holds no line break, whatever the columns. */
  lemma RowLineFree(row: Record, columns: seq<string>)
    requires PlainRecord(row)
    ensures '\n' !in Join(Fields(row, columns), ',')
  {
    forall j | 0 <= j < |columns| ensures Plain(Fields(row, columns)[j]) {
      if columns[j] in row {
        assert Plain(row[columns[j]]);
      }
    }
    LineFree(Fields(row, columns));
  }

  /** A strictly ascending header has no repeated column. */
  lemma SortedDistinct(columns: seq<string>)
    requires StrictlySorted(columns)
    ensures Distinct(columns)
  {
    forall i, j | 0 <= i < j < |columns|
      ensures columns[i] != columns[j]
    {
    }
  }

  /** The fields of a plain row hold no ",". */
  lemma FieldsCommaFree(row: Record, columns: seq<string>)
    requires PlainRecord(row)
    ensures forall j :: 0 <= j < |columns| ==> ',' !in Fields(row, columns)[j]
  {
    forall j | 0 <= j < |columns| ensures ',' !in Fields(row, columns)[j] {
      if columns[j] in row {
        assert Plain(row[columns[j]]);
      }
    }
  }

  /**
   * Parsing a row's fields under the row's own distinct columns gives the row:
   * the keys are the columns and each holds its field.
   */
  lemma FieldsParseBack(row: Record, columns: seq<string>)
    requires Distinct(columns)
    requires forall k :: k in columns <==> k in row
    ensures ParseRecord(columns, Fields(row, columns)) == row
  {
    var values := Fields(row, columns);
    ParseRecordFields(columns, values);
    var rec := ParseRecord(columns, values);
    assert columns[..|values|] == columns;
    forall k | k in rec ensures k in row && rec[k] == row[k] {
      var j :| 0 <= j < |columns| && columns[j] == k;
      assert rec[columns[j]] == values[j];
    }
    assert rec.Keys == row.Keys;
  }

  /** One row survives a trip through its formatted line. */
  lemma RowRoundTrip(row: Record, columns: seq<string>)
    requires Distinct(columns) && |columns| > 0
    requires forall k :: k in columns <==> k in row
    requires PlainRecord(row)
    ensures ParseRecord(columns, Split(Join(Fields(row, columns), ','), ',')) == row
  {
    FieldsCommaFree(row, columns);
    SplitJoin(Fields(row, columns), ',');
    FieldsParseBack(row, columns);
  }

  /**
   * For rows sharing a non-empty, plain key set, the header is those keys,
   * each once, and its line splits back into them.
   */
  lemma UniformHeader(rows: seq<Record>, keys: set<string>)
    requires rows != [] && keys != {}
    requires forall i :: 0 <= i < |rows| ==> rows[i].Keys == keys
    requires forall i :: 0 <= i < |rows| ==> PlainRecord(rows[i])
    ensures Distinct(Header(rows)) && |Header(rows)| > 0
    ensures forall k :: k in Header(rows) <==> k in keys
    ensures Split(Join(Header(rows), ','), ',') == Header(rows)
  {
    var columns := Header(rows);
    HeaderSortedUnion(rows);
    SortedDistinct(columns);
    assert forall k :: k in columns <==> k in keys by {
      assert rows[0].Keys == keys;
    }
    var k0 :| k0 in keys;
    assert k0 in columns;
    forall j | 0 <= j < |columns| ensures ',' !in columns[j] {
      assert columns[j] in columns;
      assert columns[j] in rows[0];
    }
    SplitJoin(columns, ',');
  }

  /**
   * Why the round trip needs a non-empty key set: a row with no keys formats
   * to an empty header and an empty line, which parses back as one record
   * mapping "" to "".
   */
  lemma EmptyKeysNoRoundTrip()
    ensures Formatted([map[]]) == "\n"
    ensures Parsed(Formatted([map[]])) == [map["" := ""]]
  {
    var rows: seq<Record> := [map[]];
    assert AllKeys(rows) == {} by {
      assert rows[..0] == [];
    }
    assert Header(rows) == [];
    assert Fields(rows[0], []) == [];
    assert RowLines(rows, []) == [""];
    assert Join(["", ""], '\n') == "\n";
    assert Split("\n", '\n') == ["", ""];
    assert Split("", ',') == [""];
    assert ParseRecord([""], [""]) == map["" := ""];
  }

  /**
   * Round trip: parsing the formatted rows gives the rows back, provided they
   * all have the same non-empty key set and no key or value holds "," or "\n".
   */
  lemma RoundTrip(rows: seq<Record>, keys: set<string>)
    requires keys != {}
    requires forall i :: 0 <= i < |rows| ==> rows[i].Keys == keys
    requires forall i :: 0 <= i < |rows| ==> PlainRecord(rows[i])
    ensures Parsed(Formatted(rows)) == rows
  {
    if rows != [] {
      var columns := Header(rows);
      FormatLines(rows);
      UniformHeader(rows, keys);
      var lines := Split(Formatted(rows), '\n');
      var parsed := Parsed(Formatted(rows));
      assert |parsed| == |rows|;
      forall i | 0 <= i < |rows|
        ensures parsed[i] == rows[i]
      {
        assert lines[i + 1] == Join(Fields(rows[i], columns), ',');
        RowRoundTrip(rows[i], columns);
      }
    }
  }
}
