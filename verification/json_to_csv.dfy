/** The JSON to CSV converter: a parsed array of records becomes a header
    line of the first record's keys and one line of quoted fields per
    record. Parsing the JSON text is a parameter of the model. */
module JsonToCsv {
  import opened Wrappers
  import opened JsText
  import opened JsSet
  import opened JsObject

  /** A parsed JSON value. Numbers are integers; an object keeps its members
      in source order, repeats included. */
  datatype Json =
    | JNull
    | JBool(b: bool)
    | JNumber(n: int)
    | JString(s: string)
    | JArray(items: seq<Json>)
    | JObject(members: seq<(string, Json)>)

  /** Why a conversion fails. `ParseFailed` carries the parser's message;
      `NullRecord` is the type error raised on reading a property of
      `null`. */
  datatype ConvertError = EmptyInput | ParseFailed(message: string) | NotRecordArray | NullRecord {
    /** The text shown after "Erro: ", or `None` where it is the script
        engine's own wording. */
    function Message(): Option<string> {
      match this
      case EmptyInput => Some("A entrada JSON está vazia.")
      case ParseFailed(m) => Some(m)
      case NotRecordArray => Some("O JSON deve ser um array de objetos não vazio.")
      case NullRecord => None
    }
  }

  // ---------------------------------------------------------------------
  // Property access

  /** The keys of an array or a string: its indices in decimal. */
  function IndexKeys(n: nat): (r: seq<string>)
    ensures |r| == n
    ensures forall i :: 0 <= i < n ==> r[i] == NatToDecimal(i)
  {
    seq(n, i requires 0 <= i < n => NatToDecimal(i))
  }

  /** `Object.keys`: an object's member names once each in the order first
      written, an array's or a string's indices, nothing for a number or a
      boolean, and a type error for `null`. */
  function Keys(v: Json): (r: Result<seq<string>, ConvertError>)
    ensures r.Err? <==> v.JNull?
    ensures r.Ok? ==> NoDuplicates(r.value)
    ensures v.JObject? ==> r == Ok(InsertionOrder(MemberNames(v.members)))
    ensures v.JArray? ==> r == Ok(IndexKeys(|v.items|))
    ensures v.JString? ==> r == Ok(IndexKeys(|v.s|))
    ensures v.JNumber? || v.JBool? ==> r == Ok([])
  {
    match v
    case JNull => Err(NullRecord)
    case JObject(members) => Ok(InsertionOrder(MemberNames(members)))
    case JArray(items) => IndexKeysDistinct(|items|); Ok(IndexKeys(|items|))
    case JString(s) => IndexKeysDistinct(|s|); Ok(IndexKeys(|s|))
    case _ => Ok([])
  }

  /** Different indices have different decimal forms. */
  lemma IndexKeysDistinct(n: nat)
    ensures NoDuplicates(IndexKeys(n))
  {
    forall i, j | 0 <= i < j < n ensures NatToDecimal(i) != NatToDecimal(j) {
      assert DigitsValue(NatToDecimal(i)) == i;
      assert DigitsValue(NatToDecimal(j)) == j;
    }
  }

  /** The value of the last member named `key`, as the parser keeps it. */
  function Lookup(members: seq<(string, Json)>, key: string): (r: Option<Json>)
    ensures r.None? <==> key !in MemberNames(members)
  {
    if |members| == 0 then None
    else
      var init := members[..|members| - 1];
      var last := members[|members| - 1];
      assert MemberNames(members) == MemberNames(init) + [last.0];
      if last.0 == key then Some(last.1) else Lookup(init, key)
  }

  /** The value found is that of a member with the key, and no later member
      has the key. */
  lemma {:induction false} LookupIsLast(members: seq<(string, Json)>, key: string)
    requires Lookup(members, key).Some?
    ensures exists i :: 0 <= i < |members| && members[i] == (key, Lookup(members, key).value) &&
                       forall j :: i < j < |members| ==> members[j].0 != key
    decreases |members|
  {
    var init := members[..|members| - 1];
    var last := members[|members| - 1];
    if last.0 == key {
      assert members[|members| - 1] == (key, Lookup(members, key).value);
    } else {
      LookupIsLast(init, key);
      var v := Lookup(init, key).value;
      var i :| 0 <= i < |init| && init[i] == (key, v) && forall j :: i < j < |init| ==> init[j].0 != key;
      assert members[i] == init[i];
      forall j | i < j < |members| ensures members[j].0 != key {
        if j < |init| {
          assert members[j] == init[j];
        }
      }
    }
  }

  /** Every key listed reads back: an object's keys are exactly its member
      names and each reads a value, an array's `i`-th key reads its `i`-th
      element, and a string's its `i`-th character. */
  lemma KeysReadBack(v: Json)
    requires !v.JNull?
    ensures v.JObject? ==> forall k :: k in Keys(v).value <==> k in MemberNames(v.members)
    ensures v.JObject? ==> forall k :: k in Keys(v).value ==> Get(v, k).value.Some?
    ensures v.JArray? ==> forall i :: 0 <= i < |Keys(v).value| ==> Get(v, Keys(v).value[i]) == Ok(Some(v.items[i]))
    ensures v.JString? ==> forall i :: 0 <= i < |Keys(v).value| ==> Get(v, Keys(v).value[i]) == Ok(Some(JString([v.s[i]])))
  {
    if v.JArray? {
      forall i | 0 <= i < |Keys(v).value| ensures Get(v, Keys(v).value[i]) == Ok(Some(v.items[i])) {
        GetElement(v.items, i);
      }
    } else if v.JString? {
      forall i | 0 <= i < |Keys(v).value| ensures Get(v, Keys(v).value[i]) == Ok(Some(JString([v.s[i]]))) {
        IndexOfDecimal(i);
        assert NatToDecimal(i) != "length" by {
          assert IsDigit(NatToDecimal(i)[0]);
        }
      }
    }
  }

  /** The array index a property name stands for: a decimal with no
      leading zero. */
  function IndexOf(key: string): (r: Option<nat>)
    ensures r.Some? ==> AllDigits(key) && |key| >= 1
  {
    if |key| >= 1 && AllDigits(key) && (key[0] != '0' || |key| == 1) then Some(DigitsValue(key))
    else None
  }

  /** An index written in decimal names that index. */
  lemma IndexOfDecimal(n: nat)
    ensures IndexOf(NatToDecimal(n)) == Some(n)
  {
    NatToDecimalNoLeadingZero(n);
  }

  /** `row[key]`: an own member, an element, a character, a length, or
      `undefined` (`None`); reading from `null` is a type error. */
  function Get(row: Json, key: string): (r: Result<Option<Json>, ConvertError>)
    ensures r.Err? <==> row.JNull?
    ensures row.JObject? ==> r == Ok(Lookup(row.members, key))
  {
    match row
    case JNull => Err(NullRecord)
    case JObject(members) => Ok(Lookup(members, key))
    case JArray(items) =>
      if key == "length" then Ok(Some(JNumber(|items|)))
      else (
        match IndexOf(key)
        case Some(i) => if i < |items| then Ok(Some(items[i])) else Ok(None)
        case None => Ok(None))
    case JString(s) =>
      if key == "length" then Ok(Some(JNumber(|s|)))
      else (
        match IndexOf(key)
        case Some(i) => if i < |s| then Ok(Some(JString([s[i]]))) else Ok(None)
        case None => Ok(None))
    case _ => Ok(None)
  }

  /** The element an index key reads from an array. */
  lemma GetElement(items: seq<Json>, i: nat)
    requires i < |items|
    ensures Get(JArray(items), NatToDecimal(i)) == Ok(Some(items[i]))
  {
    IndexOfDecimal(i);
    assert NatToDecimal(i) != "length" by {
      assert IsDigit(NatToDecimal(i)[0]);
    }
  }

  // ---------------------------------------------------------------------
  // Field text

  /** `'' + v`: the string form of a value. An array joins its elements'
      forms with commas, writing nothing for a `null` element. */
  function Stringify(v: Json): string {
    match v
    case JNull => "null"
    case JBool(b) => if b then "true" else "false"
    case JNumber(n) => IntToDecimal(n)
    case JString(s) => s
    case JArray(items) =>
      Join(seq(|items|, i requires 0 <= i < |items| => if items[i].JNull? then "" else Stringify(items[i])), ",")
    case JObject(_) => "[object Object]"
  }

  /** The text of a field before quoting: nothing for `null` or
      `undefined`, the string form otherwise. */
  function FieldText(value: Option<Json>): string {
    match value
    case None => ""
    case Some(JNull) => ""
    case Some(v) => Stringify(v)
  }

  /** Doubles every quotation mark. */
  function Escape(s: string): (r: string)
    ensures |r| >= |s|
    ensures '"' !in s ==> r == s
  {
    if |s| == 0 then ""
    else (if s[0] == '"' then "\"\"" else [s[0]]) + Escape(s[1..])
  }

  /** A field as written: escaped and between quotation marks. */
  function Quote(s: string): string {
    "\"" + Escape(s) + "\""
  }

  /** One data line: every field quoted, separated by commas. */
  function RowLine(cells: seq<string>): string {
    Join(QuoteAll(cells), ",")
  }

  function QuoteAll(cells: seq<string>): (r: seq<string>)
    ensures |r| == |cells|
    ensures forall j :: 0 <= j < |cells| ==> r[j] == Quote(cells[j])
  {
    seq(|cells|, j requires 0 <= j < |cells| => Quote(cells[j]))
  }

  /** The reference table: record `i`, column `j` holds the text of the
      record's value under key `j`. */
  function CellTable(records: seq<Json>, keys: seq<string>): (r: seq<seq<string>>)
    requires |keys| > 0 ==> forall i :: 0 <= i < |records| ==> !records[i].JNull?
    ensures |r| == |records|
    ensures forall i :: 0 <= i < |records| ==> |r[i]| == |keys|
    ensures forall i, j :: 0 <= i < |records| && 0 <= j < |keys| ==>
      r[i][j] == FieldText(Get(records[i], keys[j]).value)
  {
    seq(|records|, i requires 0 <= i < |records| =>
      seq(|keys|, j requires 0 <= j < |keys| => FieldText(Get(records[i], keys[j]).value)))
  }

  function RowLines(table: seq<seq<string>>): (r: seq<string>)
    ensures |r| == |table|
    ensures forall i :: 0 <= i < |table| ==> r[i] == RowLine(table[i])
  {
    seq(|table|, i requires 0 <= i < |table| => RowLine(table[i]))
  }

  /** The converter: trim, parse, insist on a non-empty array, take the
      columns from the first record's keys, then write the header line and
      one line per record, joined by line feeds. */
  function ConvertJsonToCsv(input: string, parse: string -> Result<Json, string>): (r: Result<string, ConvertError>)
    ensures r == Err(EmptyInput) <==> AllSpace(input)
    ensures r == Err(NotRecordArray) <==>
      !AllSpace(input) && parse(Trim(input)).Ok? &&
      !(parse(Trim(input)).value.JArray? && |parse(Trim(input)).value.items| > 0)
    ensures r.Err? && r.error.ParseFailed? <==> !AllSpace(input) && parse(Trim(input)).Err?
    ensures !AllSpace(input) && parse(Trim(input)).Err? ==> r == Err(ParseFailed(parse(Trim(input)).error))
    ensures r == Err(NullRecord) <==>
      !AllSpace(input) && parse(Trim(input)).Ok? &&
      (var d := parse(Trim(input)).value;
       d.JArray? && |d.items| > 0 &&
       (d.items[0].JNull? || (|Keys(d.items[0]).value| > 0 && exists i :: 0 <= i < |d.items| && d.items[i].JNull?)))
    ensures r.Ok? <==>
      !AllSpace(input) && parse(Trim(input)).Ok? &&
      (var d := parse(Trim(input)).value;
       d.JArray? && |d.items| > 0 && !d.items[0].JNull? &&
       (|Keys(d.items[0]).value| == 0 || forall i :: 0 <= i < |d.items| ==> !d.items[i].JNull?))
  {
    var text := Trim(input);
    if text == "" then Err(EmptyInput)
    else
      match parse(text)
      case Err(m) => Err(ParseFailed(m))
      case Ok(data) =>
        if !data.JArray? || |data.items| == 0 then Err(NotRecordArray)
        else
          var records := data.items;
          match Keys(records[0])
          case Err(e) => Err(e)
          case Ok(keys) =>
            if |keys| > 0 && exists i :: 0 <= i < |records| && records[i].JNull? then Err(NullRecord)
            else Ok(Join([Join(keys, ",")] + RowLines(CellTable(records, keys)), "\n"))
  }

  // ---------------------------------------------------------------------
  // Reading the output back

  /** Reads a quoted field whose opening quotation mark is already consumed:
      a doubled mark stands for one mark and a single mark closes the
      field. Gives the field and what follows it. */
  function ReadQuoted(s: string): (r: Option<(string, string)>)
    ensures r.Some? ==> |r.value.1| < |s|
  {
    if |s| == 0 then None
    else if s[0] == '"' then
      if |s| >= 2 && s[1] == '"' then
        match ReadQuoted(s[2..])
        case None => None
        case Some((c, rest)) => Some(("\"" + c, rest))
      else Some(("", s[1..]))
    else
      match ReadQuoted(s[1..])
      case None => None
      case Some((c, rest)) => Some(([s[0]] + c, rest))
  }

  /** Reads quoted fields separated by commas, up to the first character
      that is not a comma after a field. */
  function ReadRow(s: string): (r: Option<(seq<string>, string)>)
    ensures r.Some? ==> |r.value.1| < |s|
    decreases |s|
  {
    if |s| == 0 || s[0] != '"' then None
    else
      var field := ReadQuoted(s[1..]);
      if field.None? then None
      else
        var rest := field.value.1;
        if |rest| > 0 && rest[0] == ',' then
          var more := ReadRow(rest[1..]);
          if more.None? then None else Some(([field.value.0] + more.value.0, more.value.1))
        else Some(([field.value.0], rest))
  }

  /** Reads rows separated by line feeds up to the end of the text. */
  function ReadLines(s: string): Option<seq<seq<string>>>
    decreases |s|
  {
    var row := ReadRow(s);
    if row.None? then None
    else
      var rest := row.value.1;
      if rest == "" then Some([row.value.0])
      else if rest[0] == '\n' then
        var more := ReadLines(rest[1..]);
        if more.None? then None else Some([row.value.0] + more.value)
      else None
  }

  /** A quoted field reads back as the field, whatever it holds. */
  lemma {:induction false} ReadQuotedEscape(c: string, rest: string)
    requires rest == "" || rest[0] != '"'
    ensures ReadQuoted(Escape(c) + "\"" + rest) == Some((c, rest))
    decreases |c|
  {
    if |c| == 0 {
      assert Escape(c) + "\"" + rest == "\"" + rest;
    } else {
      ReadQuotedEscape(c[1..], rest);
      ReadQuotedEscapeStep(c, rest);
    }
  }

  /** The inductive step: a field read back after its first character is
      read back with it. */
  lemma ReadQuotedEscapeStep(c: string, rest: string)
    requires |c| > 0
    requires ReadQuoted(Escape(c[1..]) + "\"" + rest) == Some((c[1..], rest))
    ensures ReadQuoted(Escape(c) + "\"" + rest) == Some((c, rest))
  {
    EscapeCons(c, rest);
    ReadQuotedFirst(c, Escape(c[1..]) + "\"" + rest, rest);
  }

  /** Escaping writes the first character, doubled when it is a quotation
      mark, before the escaped remainder. */
  lemma EscapeCons(c: string, rest: string)
    requires |c| > 0
    ensures Escape(c) + "\"" + rest ==
      (if c[0] == '"' then "\"\"" else [c[0]]) + (Escape(c[1..]) + "\"" + rest)
  {
    var head := if c[0] == '"' then "\"\"" else [c[0]];
    assert Escape(c) == head + Escape(c[1..]);
    ConcatAssoc(head, Escape(c[1..]), "\"", rest);
  }

  /** Reading the escaped first character ahead of the rest of a field. */
  lemma ReadQuotedFirst(c: string, tail: string, rest: string)
    requires |c| > 0
    requires ReadQuoted(tail) == Some((c[1..], rest))
    ensures ReadQuoted((if c[0] == '"' then "\"\"" else [c[0]]) + tail) == Some((c, rest))
  {
    if c[0] == '"' {
      ReadQuotedDoubled(tail, c[1..], rest);
      assert "\"" + c[1..] == c;
    } else {
      ReadQuotedPlain(c[0], tail, c[1..], rest);
      assert [c[0]] + c[1..] == c;
    }
  }

  /** A doubled quotation mark reads as one mark in the field. */
  lemma ReadQuotedDoubled(tail: string, field: string, rest: string)
    requires ReadQuoted(tail) == Some((field, rest))
    ensures ReadQuoted("\"\"" + tail) == Some(("\"" + field, rest))
  {
    assert ("\"\"" + tail)[2..] == tail;
  }

  /** Any other character is kept in the field. */
  lemma ReadQuotedPlain(x: char, tail: string, field: string, rest: string)
    requires x != '"'
    requires ReadQuoted(tail) == Some((field, rest))
    ensures ReadQuoted([x] + tail) == Some(([x] + field, rest))
  {
    assert ([x] + tail)[1..] == tail;
  }

  /** Reading a last quoted field. */
  lemma ReadRowLast(c: string, rest: string)
    requires rest == "" || rest[0] == '\n'
    ensures ReadRow(Quote(c) + rest) == Some(([c], rest))
  {
    var s := Quote(c) + rest;
    var after := Escape(c) + "\"" + rest;
    assert s == "\"" + after;
    assert s[1..] == after;
    ReadQuotedEscape(c, rest);
  }

  /** Reading a quoted field followed by a comma and more fields. */
  lemma ReadRowMore(c: string, more: string)
    requires ReadRow(more).Some?
    ensures ReadRow(Quote(c) + "," + more) == Some(([c] + ReadRow(more).value.0, ReadRow(more).value.1))
  {
    var s := Quote(c) + "," + more;
    var after := Escape(c) + "\"" + ("," + more);
    assert s == "\"" + after;
    assert s[1..] == after;
    ReadQuotedEscape(c, "," + more);
    assert ("," + more)[1..] == more;
  }

  /** A data line reads back as its fields. */
  lemma {:induction false} ReadRowLine(cells: seq<string>, rest: string)
    requires |cells| >= 1
    requires rest == "" || rest[0] == '\n'
    ensures ReadRow(RowLine(cells) + rest) == Some((cells, rest))
    decreases |cells|
  {
    var qs := QuoteAll(cells);
    if |cells| == 1 {
      assert RowLine(cells) == Quote(cells[0]);
      ReadRowLast(cells[0], rest);
      assert [cells[0]] == cells;
    } else {
      assert QuoteAll(cells[1..]) == qs[1..];
      var more := RowLine(cells[1..]) + rest;
      assert RowLine(cells) + rest == Quote(cells[0]) + "," + more;
      ReadRowLine(cells[1..], rest);
      ReadRowMore(cells[0], more);
      assert [cells[0]] + cells[1..] == cells;
    }
  }

  /** Reading a last row. */
  lemma ReadLinesLast(s: string, row: seq<string>)
    requires ReadRow(s) == Some((row, ""))
    ensures ReadLines(s) == Some([row])
  {
  }

  /** Reading a row followed by a line feed and more rows. */
  lemma ReadLinesMore(s: string, row: seq<string>, more: string)
    requires ReadRow(s) == Some((row, "\n" + more))
    requires ReadLines(more).Some?
    ensures ReadLines(s) == Some([row] + ReadLines(more).value)
  {
    assert ("\n" + more)[1..] == more;
  }

  /** The data lines read back as the table, provided every row has a
      field. */
  lemma {:induction false} ReadLinesBody(table: seq<seq<string>>)
    requires |table| >= 1
    requires forall i :: 0 <= i < |table| ==> |table[i]| >= 1
    ensures ReadLines(Join(RowLines(table), "\n")) == Some(table)
    decreases |table|
  {
    var lines := RowLines(table);
    if |table| == 1 {
      assert Join(lines, "\n") == RowLine(table[0]) + "";
      ReadRowLine(table[0], "");
      ReadLinesLast(Join(lines, "\n"), table[0]);
      assert [table[0]] == table;
    } else {
      var more := Join(RowLines(table[1..]), "\n");
      assert RowLines(table[1..]) == lines[1..];
      assert Join(lines, "\n") == RowLine(table[0]) + ("\n" + more);
      ReadRowLine(table[0], "\n" + more);
      ReadLinesBody(table[1..]);
      ReadLinesMore(Join(lines, "\n"), table[0], more);
      assert [table[0]] + table[1..] == table;
    }
  }

  /** What a successful conversion writes: the header line, a line feed,
      then data lines that read back as the reference table, one row per
      record; and a header of plain keys splits back into the keys. */
  lemma ConvertJsonToCsvReadsBack(input: string, parse: string -> Result<Json, string>)
    requires ConvertJsonToCsv(input, parse).Ok?
    ensures var out := ConvertJsonToCsv(input, parse).value;
      var records := parse(Trim(input)).value.items;
      var keys := Keys(records[0]).value;
      var header := Join(keys, ",");
      |out| > |header| && out[..|header|] == header && out[|header|] == '\n' &&
      (|keys| > 0 ==> ReadLines(out[|header| + 1..]) == Some(CellTable(records, keys))) &&
      (|keys| == 0 ==> out == seq(|records|, _ => '\n')) &&
      (|keys| > 0 && (forall k :: 0 <= k < |keys| ==> ',' !in keys[k]) ==> Split(header, ",") == keys)
  {
    var out := ConvertJsonToCsv(input, parse).value;
    var records := parse(Trim(input)).value.items;
    var keys := Keys(records[0]).value;
    assert out == Join([Join(keys, ",")] + RowLines(CellTable(records, keys)), "\n");
    CsvTextReadsBack(records, keys);
    if |keys| > 0 && forall k :: 0 <= k < |keys| ==> ',' !in keys[k] {
      SplitJoin(keys, ',');
    }
  }

  /** The text written for the records under the given columns: the header
      line, a line feed, then data lines that read back as the reference
      table; with no columns, one line feed per record. */
  lemma CsvTextReadsBack(records: seq<Json>, keys: seq<string>)
    requires |records| > 0
    requires |keys| > 0 ==> forall i :: 0 <= i < |records| ==> !records[i].JNull?
    ensures var header := Join(keys, ",");
      var out := Join([header] + RowLines(CellTable(records, keys)), "\n");
      |out| > |header| && out[..|header|] == header && out[|header|] == '\n' &&
      (|keys| > 0 ==> ReadLines(out[|header| + 1..]) == Some(CellTable(records, keys))) &&
      (|keys| == 0 ==> out == seq(|records|, _ => '\n'))
  {
    var header := Join(keys, ",");
    var table := CellTable(records, keys);
    HeaderThenRows(header, RowLines(table));
    if |keys| > 0 {
      ReadLinesBody(table);
    } else {
      var m := |records| - 1;
      assert RowLines(table) == seq(m + 1, _ => "") by {
        forall i | 0 <= i < |table|
          ensures RowLines(table)[i] == ""
        {
          assert QuoteAll(table[i]) == [];
        }
      }
      JoinEmptyLines(m);
    }
  }

  /** A header line joined ahead of the data lines: the header, a line
      feed, then the data lines joined. */
  lemma HeaderThenRows(header: string, rows: seq<string>)
    requires |rows| > 0
    ensures var out := Join([header] + rows, "\n");
      |out| > |header| && out[..|header|] == header && out[|header|] == '\n' &&
      out[|header| + 1..] == Join(rows, "\n") &&
      out == header + "\n" + Join(rows, "\n")
  {
    assert ([header] + rows)[1..] == rows;
  }

  /** Empty lines joined by line feeds are the line feeds alone: one fewer
      than there are lines. */
  lemma {:induction false} JoinEmptyLines(m: nat)
    ensures Join(seq(m + 1, _ => ""), "\n") == seq(m, _ => '\n')
    decreases m
  {
    if m > 0 {
      var parts: seq<string> := seq(m + 1, _ => "");
      assert parts[1..] == seq(m, _ => "");
      JoinEmptyLines(m - 1);
      assert "" + "\n" + seq(m - 1, _ => '\n') == seq(m, _ => '\n');
    }
  }
}
