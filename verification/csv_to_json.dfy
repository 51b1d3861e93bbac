/** The CSV to JSON converter: the trimmed text is cut into lines, blank
    lines are dropped, and each line is split on the delimiter; with a
    header line the rows become records keyed by the trimmed header
    names, without one they stay lists of raw cells. Writing the result as
    JSON text is outside the model: the result is the value written. */
module CsvToJson {
  import opened Wrappers
  import opened JsText
  import opened JsSet
  import opened JsObject

  /** A record as the script builds it: its members in the order first
      assigned, each holding the value last assigned. */
  type Record = seq<(string, string)>

  /** The value written as JSON: records when the first line is a header,
      otherwise the cells of every line. */
  datatype Decoded = Keyed(records: seq<Record>) | Positional(rows: seq<seq<string>>)

  datatype CsvError = EmptyCsv | NoValidLines {
    function Message(): string {
      match this
      case EmptyCsv => "A entrada CSV está vazia."
      case NoValidLines => "CSV não contém linhas válidas."
    }
  }

  /** The one name an assignment of a string cannot create: setting
      `__proto__` to a string changes nothing. */
  const ProtoKey: string := "__proto__"

  // ---------------------------------------------------------------------
  // Lines and cells

  /** The lines that are not blank, in order. */
  function NonBlank(lines: seq<string>): (r: seq<string>)
    ensures |r| <= |lines|
    ensures forall i :: 0 <= i < |r| ==> !AllSpace(r[i])
  {
    if |lines| == 0 then []
    else
      var init := NonBlank(lines[..|lines| - 1]);
      var last := lines[|lines| - 1];
      if Trim(last) != "" then init + [last] else init
  }

  lemma NonBlankSnoc(lines: seq<string>, last: string)
    ensures NonBlank(lines + [last]) == if Trim(last) != "" then NonBlank(lines) + [last] else NonBlank(lines)
  {
    assert (lines + [last])[..|lines|] == lines;
  }

  /** Filtering two runs of lines one after the other is filtering them
      together, so the kept lines stay in their order. */
  lemma {:induction false} NonBlankAppend(a: seq<string>, b: seq<string>)
    ensures NonBlank(a + b) == NonBlank(a) + NonBlank(b)
    decreases |b|
  {
    if |b| == 0 {
      assert a + b == a;
    } else {
      var init := b[..|b| - 1];
      var last := b[|b| - 1];
      assert a + b == (a + init) + [last];
      assert b == init + [last];
      NonBlankAppend(a, init);
      NonBlankSnoc(a + init, last);
      NonBlankSnoc(init, last);
      if Trim(last) != "" {
        SeqAssoc(NonBlank(a), NonBlank(init), [last]);
      }
    }
  }

  /** The delimiter typed in the form, or a comma when none was typed. */
  function Delimiter(field: string): (d: string)
    ensures |d| > 0
  {
    if field == "" then "," else field
  }

  /** The header names: the first line's pieces, trimmed. */
  function Headers(line: string, delim: string): (r: seq<string>)
    requires |delim| > 0
    ensures |r| == |Split(line, delim)|
    ensures forall k :: 0 <= k < |r| ==> r[k] == Trim(Split(line, delim)[k])
  {
    var parts := Split(line, delim);
    seq(|parts|, k requires 0 <= k < |parts| => Trim(parts[k]))
  }

  /** The value stored under header `k`: the trimmed cell when there is a
      non-empty one, otherwise the empty string. */
  function Cell(values: seq<string>, k: nat): string {
    if k < |values| && values[k] != "" then Trim(values[k]) else ""
  }

  // ---------------------------------------------------------------------
  // Records

  /** The value of a member, if the record has it. */
  function Find(rec: Record, key: string): Option<string> {
    if |rec| == 0 then None
    else if rec[0].0 == key then Some(rec[0].1)
    else Find(rec[1..], key)
  }

  /** `obj[key] = value` for a string value: the member keeps its place if
      it exists and is appended otherwise; `__proto__` is not touched. */
  function Put(rec: Record, key: string, value: string): Record {
    if key == ProtoKey then rec
    else if |rec| == 0 then [(key, value)]
    else if rec[0].0 == key then [(key, value)] + rec[1..]
    else [rec[0]] + Put(rec[1..], key, value)
  }

  /** The record for one line: each header in turn is assigned its cell. */
  function BuildRecord(headers: seq<string>, values: seq<string>): Record {
    if |headers| == 0 then []
    else Put(BuildRecord(headers[..|headers| - 1], values), headers[|headers| - 1], Cell(values, |headers| - 1))
  }

  /** The headers other than `__proto__`, in order. */
  function Assignable(headers: seq<string>): (r: seq<string>)
    ensures forall x :: x in r <==> x in headers && x != ProtoKey
  {
    if |headers| == 0 then []
    else
      var init := Assignable(headers[..|headers| - 1]);
      var last := headers[|headers| - 1];
      assert forall y :: y in headers <==> y in headers[..|headers| - 1] || y == last by {
        assert headers == headers[..|headers| - 1] + [last];
      }
      if last == ProtoKey then init else init + [last]
  }

  /** The position of the last occurrence of `x`. */
  function LastIndex(xs: seq<string>, x: string): (k: nat)
    requires x in xs
    ensures k < |xs| && xs[k] == x
    ensures forall j :: k < j < |xs| ==> xs[j] != x
  {
    if xs[|xs| - 1] == x then |xs| - 1
    else
      assert x in xs[..|xs| - 1] by {
        var i :| 0 <= i < |xs| && xs[i] == x;
        assert xs[..|xs| - 1][i] == x;
      }
      var k := LastIndex(xs[..|xs| - 1], x);
      assert xs[k] == xs[..|xs| - 1][k];
      k
  }

  // ---------------------------------------------------------------------
  // The converter

  /** The converter: trim the text, refuse it when empty, keep the
      non-blank lines and read each with the delimiter. */
  function ConvertCsvToJson(input: string, delimiterField: string, hasHeader: bool): (r: Result<Decoded, CsvError>)
    ensures r == Err(EmptyCsv) <==> AllSpace(input)
    ensures r != Err(NoValidLines)
  {
    var text := Trim(input);
    if text == "" then Err(EmptyCsv)
    else
      var delim := Delimiter(delimiterField);
      var lines := NonBlank(Split(text, "\n"));
      SomeLineIsNotBlank(text);
      if |lines| == 0 then Err(NoValidLines)
      else Ok(Decode(lines, delim, hasHeader))
  }

  /** Reads the non-blank lines: records keyed by the first line's names,
      or every line's raw pieces. */
  function Decode(lines: seq<string>, delim: string, hasHeader: bool): Decoded
    requires |lines| > 0 && |delim| > 0
  {
    if hasHeader then Keyed(LineRecords(Headers(lines[0], delim), lines[1..], delim))
    else
      Positional(seq(|lines|, i requires 0 <= i < |lines| => Split(lines[i], delim)))
  }

  /** The record for a line under the given header names. */
  function LineRecord(headers: seq<string>, line: string, delim: string): Record
    requires |delim| > 0
  {
    BuildRecord(headers, Split(line, delim))
  }

  /** The records for the lines after the header line, one per line. */
  function LineRecords(headers: seq<string>, rows: seq<string>, delim: string): (r: seq<Record>)
    requires |delim| > 0
    ensures |r| == |rows|
    ensures forall i :: 0 <= i < |rows| ==> r[i] == LineRecord(headers, rows[i], delim)
  {
    if |rows| == 0 then []
    else [LineRecord(headers, rows[0], delim)] + LineRecords(headers, rows[1..], delim)
  }

  /** The non-blank lines of the converter's input. */
  function InputLines(input: string): seq<string> {
    NonBlank(Split(Trim(input), "\n"))
  }

  // ---------------------------------------------------------------------
  // Lemmas

  /** A line is kept exactly when it is one of the lines and is not
      blank. */
  lemma {:induction false} NonBlankMembers(lines: seq<string>, x: string)
    ensures x in NonBlank(lines) <==> x in lines && !AllSpace(x)
    decreases |lines|
  {
    if |lines| > 0 {
      var init := lines[..|lines| - 1];
      NonBlankMembers(init, x);
      assert lines == init + [lines[|lines| - 1]];
    }
  }

  /** A line that is not blank is kept as many times as it occurs; a blank
      one not at all. */
  lemma {:induction false} NonBlankCount(lines: seq<string>, x: string)
    ensures multiset(NonBlank(lines))[x] == if AllSpace(x) then 0 else multiset(lines)[x]
    decreases |lines|
  {
    if |lines| > 0 {
      var init := lines[..|lines| - 1];
      var last := lines[|lines| - 1];
      assert lines == init + [last];
      NonBlankCount(init, x);
      NonBlankCountSnoc(init, last, x);
    }
  }

  lemma NonBlankCountSnoc(init: seq<string>, last: string, x: string)
    requires multiset(NonBlank(init))[x] == if AllSpace(x) then 0 else multiset(init)[x]
    ensures multiset(NonBlank(init + [last]))[x] == if AllSpace(x) then 0 else multiset(init + [last])[x]
  {
    NonBlankSnoc(init, last);
    assert multiset(init + [last]) == multiset(init) + multiset{last};
    if Trim(last) != "" {
      assert multiset(NonBlank(init) + [last]) == multiset(NonBlank(init)) + multiset{last};
    }
  }


  /** Text that is not blank after trimming has a non-blank line, so the
      "no valid lines" error cannot be raised. */
  lemma SomeLineIsNotBlank(text: string)
    requires text == Trim(text) && text != ""
    ensures |NonBlank(Split(text, "\n"))| > 0
  {
    FirstCharLine(text);
  }

  lemma FirstCharLine(text: string)
    requires |text| > 0 && !IsSpace(text[0])
    ensures |NonBlank(Split(text, "\n"))| > 0
  {
    var pieces := Split(text, "\n");
    SplitKeepsChar(text, "\n", 0);
    var k :| 0 <= k < |pieces| && text[0] in pieces[k];
    assert !AllSpace(pieces[k]);
    NonBlankMembers(pieces, pieces[k]);
  }

  /** One record per non-blank line after the header line, one row per
      non-blank line without it. */
  lemma ConvertCount(input: string, delimiterField: string, hasHeader: bool)
    requires !AllSpace(input)
    ensures var r := ConvertCsvToJson(input, delimiterField, hasHeader);
      r.Ok? && r.value.Keyed? == hasHeader &&
      (hasHeader ==> |r.value.records| == |InputLines(input)| - 1) &&
      (!hasHeader ==> |r.value.rows| == |InputLines(input)|)
  {
  }

  /** Without a header, each row is the raw, untrimmed pieces of its line,
      split at the delimiter: putting the delimiter back between them gives
      the line. */
  lemma PositionalRowsRejoin(input: string, delimiterField: string, i: int)
    requires !AllSpace(input)
    requires 0 <= i < |InputLines(input)|
    ensures var r := ConvertCsvToJson(input, delimiterField, false).value;
      r.rows[i] == Split(InputLines(input)[i], Delimiter(delimiterField))
    ensures var r := ConvertCsvToJson(input, delimiterField, false).value;
      Join(r.rows[i], Delimiter(delimiterField)) == InputLines(input)[i]
  {
    var lines := InputLines(input);
    assert ConvertCsvToJson(input, delimiterField, false).value == Decode(lines, Delimiter(delimiterField), false);
    JoinSplit(lines[i], Delimiter(delimiterField));
  }

  /** The members assigned by `Put`: an existing name keeps its place, a new
      one goes last, and only the assigned value changes. */
  lemma PutMeaning(rec: Record, key: string, value: string, other: string)
    ensures key == ProtoKey ==> Put(rec, key, value) == rec
    ensures key != ProtoKey && key in MemberNames(rec) ==> MemberNames(Put(rec, key, value)) == MemberNames(rec)
    ensures key != ProtoKey && key !in MemberNames(rec) ==> MemberNames(Put(rec, key, value)) == MemberNames(rec) + [key]
    ensures Find(Put(rec, key, value), other) == if other == key && key != ProtoKey then Some(value) else Find(rec, other)
  {
    if key != ProtoKey {
      PutNames(rec, key, value);
      PutFind(rec, key, value, other);
    }
  }

  /** The names after an assignment: unchanged for an existing name, one
      more at the end for a new one. */
  lemma PutNames(rec: Record, key: string, value: string)
    requires key != ProtoKey
    ensures key in MemberNames(rec) ==> MemberNames(Put(rec, key, value)) == MemberNames(rec)
    ensures key !in MemberNames(rec) ==> MemberNames(Put(rec, key, value)) == MemberNames(rec) + [key]
  {
    if key in MemberNames(rec) {
      PutExistingName(rec, key, value);
    } else {
      PutNewName(rec, key, value);
    }
  }

  lemma {:induction false} PutExistingName(rec: Record, key: string, value: string)
    requires key != ProtoKey && key in MemberNames(rec)
    ensures MemberNames(Put(rec, key, value)) == MemberNames(rec)
    decreases |rec|
  {
    var tail := rec[1..];
    assert rec == [rec[0]] + tail;
    MemberNamesCons(rec[0], tail);
    if rec[0].0 == key {
      MemberNamesCons((key, value), tail);
    } else {
      assert key in MemberNames(tail);
      PutExistingName(tail, key, value);
      MemberNamesCons(rec[0], Put(tail, key, value));
    }
  }

  lemma {:induction false} PutNewName(rec: Record, key: string, value: string)
    requires key != ProtoKey && key !in MemberNames(rec)
    ensures MemberNames(Put(rec, key, value)) == MemberNames(rec) + [key]
    decreases |rec|
  {
    if |rec| > 0 {
      var tail := rec[1..];
      assert rec == [rec[0]] + tail;
      MemberNamesCons(rec[0], tail);
      assert rec[0].0 != key;
      PutNewName(tail, key, value);
      MemberNamesCons(rec[0], Put(tail, key, value));
    } else {
      assert MemberNames([(key, value)]) == [key];
    }
  }

  /** A name reads as the value just assigned to it, any other name as
      before. */
  lemma {:induction false} PutFind(rec: Record, key: string, value: string, other: string)
    requires key != ProtoKey
    ensures Find(Put(rec, key, value), other) == if other == key then Some(value) else Find(rec, other)
    decreases |rec|
  {
    if |rec| > 0 {
      var tail := rec[1..];
      if rec[0].0 == key {
        assert ([(key, value)] + tail)[1..] == tail;
      } else {
        PutFind(tail, key, value, other);
        var put := Put(tail, key, value);
        assert ([rec[0]] + put)[1..] == put;
      }
    }
  }

  /** A record's members are the assignable headers once each, in the order
      of first appearance. */
  lemma {:induction false} RecordNames(headers: seq<string>, values: seq<string>)
    ensures MemberNames(BuildRecord(headers, values)) == InsertionOrder(Assignable(headers))
    decreases |headers|
  {
    if |headers| > 0 {
      var init := headers[..|headers| - 1];
      var last := headers[|headers| - 1];
      var rec := BuildRecord(init, values);
      RecordNames(init, values);
      PutMeaning(rec, last, Cell(values, |headers| - 1), last);
      if last != ProtoKey {
        var a := Assignable(headers);
        assert a[..|a| - 1] == Assignable(init);
      }
    }
  }

  /** The value a record holds under a header is the cell of the header's
      last column; `__proto__` and names not among the headers are
      absent. */
  lemma {:induction false} RecordValue(headers: seq<string>, values: seq<string>, key: string)
    ensures Find(BuildRecord(headers, values), key) ==
      if key == ProtoKey || key !in headers then None else Some(Cell(values, LastIndex(headers, key)))
    decreases |headers|
  {
    if |headers| > 0 {
      var init := headers[..|headers| - 1];
      var last := headers[|headers| - 1];
      var rec := BuildRecord(init, values);
      RecordValue(init, values, key);
      PutMeaning(rec, last, Cell(values, |headers| - 1), key);
      assert key in headers <==> key in init || key == last by {
        assert headers == init + [last];
      }
      if key != last && key in init {
        assert LastIndex(headers, key) == LastIndex(init, key);
      }
    } else {
      assert key !in headers;
    }
  }

  /** With a header, record `i` is built from the header names and the
      pieces of non-blank line `i + 1`. */
  lemma KeyedRecordIsBuilt(input: string, delimiterField: string, i: int)
    requires !AllSpace(input)
    requires 0 <= i < |InputLines(input)| - 1
    ensures var r := ConvertCsvToJson(input, delimiterField, true).value;
      var lines := InputLines(input);
      var delim := Delimiter(delimiterField);
      r.Keyed? && |r.records| == |lines| - 1 &&
      r.records[i] == BuildRecord(Headers(lines[0], delim), Split(lines[i + 1], delim))
  {
    ConvertIsDecode(input, delimiterField, true);
    DecodeKeyed(InputLines(input), Delimiter(delimiterField), i);
    var lines := InputLines(input);
    var delim := Delimiter(delimiterField);
    assert LineRecord(Headers(lines[0], delim), lines[i + 1], delim) ==
      BuildRecord(Headers(lines[0], delim), Split(lines[i + 1], delim));
  }

  lemma ConvertIsDecode(input: string, delimiterField: string, hasHeader: bool)
    requires !AllSpace(input)
    ensures |InputLines(input)| > 0
    ensures ConvertCsvToJson(input, delimiterField, hasHeader) == Ok(Decode(InputLines(input), Delimiter(delimiterField), hasHeader))
  {
    SomeLineIsNotBlank(Trim(input));
  }

  lemma DecodeKeyed(lines: seq<string>, delim: string, i: int)
    requires |delim| > 0 && 0 <= i < |lines| - 1
    ensures var d := Decode(lines, delim, true);
      d.Keyed? && |d.records| == |lines| - 1 &&
      d.records[i] == LineRecord(Headers(lines[0], delim), lines[i + 1], delim)
  {
  }

  /** With a header, record `i` has the assignable header names once each
      in order of first appearance, and under each the cell of that name's
      last column in non-blank line `i + 1`. */
  lemma KeyedRecordValue(input: string, delimiterField: string, i: int, key: string)
    requires !AllSpace(input)
    requires 0 <= i < |InputLines(input)| - 1
    ensures var r := ConvertCsvToJson(input, delimiterField, true).value;
      var lines := InputLines(input);
      var headers := Headers(lines[0], Delimiter(delimiterField));
      var values := Split(lines[i + 1], Delimiter(delimiterField));
      MemberNames(r.records[i]) == InsertionOrder(Assignable(headers)) &&
      Find(r.records[i], key) ==
        if key == ProtoKey || key !in headers then None else Some(Cell(values, LastIndex(headers, key)))
  {
    KeyedRecordIsBuilt(input, delimiterField, i);
    var lines := InputLines(input);
    var delim := Delimiter(delimiterField);
    var headers := Headers(lines[0], delim);
    var values := Split(lines[i + 1], delim);
    RecordNames(headers, values);
    RecordValue(headers, values, key);
  }
}
