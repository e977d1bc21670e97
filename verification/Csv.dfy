/** adapters/influxdb/ops.go, runnerScript: the awk program that turns annotated CSV into
    bare rows. */
module Csv {
  import opened Wrappers
  import opened Bytes
  import opened Paths

  const QUOTE: Byte := 34
  const COMMA: Byte := 44
  const TAB: Byte := 9
  const HASH: Byte := 35

  /** The fields from here on, the field begun and whether it is inside quotes. */
  function SplitCsv(line: Text, field: Text, quoted: bool): seq<Text>
    decreases |line|
  {
    if line == [] then [field]
    else if quoted then
      if line[0] != QUOTE then SplitCsv(line[1..], field + [line[0]], true)
      else if |line| > 1 && line[1] == QUOTE then SplitCsv(line[2..], field + [QUOTE], true)
      else SplitCsv(line[1..], field, false)
    else if line[0] == QUOTE then SplitCsv(line[1..], field, true)
    else if line[0] == COMMA then [field] + SplitCsv(line[1..], [], false)
    else SplitCsv(line[1..], field + [line[0]], false)
  }

  /** split_csv, whose index steps past the second of two quotes inside the loop. */
  method SplitCsvLine(line: Text) returns (fields: seq<Text>)
    ensures fields == SplitCsv(line, [], false)
  {
    var i, field, quoted := 0, [], false;
    fields := [];
    while i < |line|
      invariant 0 <= i <= |line|
      invariant fields + SplitCsv(line[i..], field, quoted) == SplitCsv(line, [], false)
      decreases |line| - i
    {
      var c := line[i];
      assert line[i..][1..] == line[i + 1..];
      if quoted {
        if c != QUOTE {
          field := field + [c];
        } else if i + 1 < |line| && line[i + 1] == QUOTE {
          assert line[i..][2..] == line[i + 2..];
          field := field + [QUOTE];
          i := i + 1;
        } else {
          quoted := false;
        }
      } else if c == QUOTE {
        quoted := true;
      } else if c == COMMA {
        fields := fields + [field];
        field := [];
      } else {
        field := field + [c];
      }
      i := i + 1;
    }
    fields := fields + [field];
  }

  // Section 2 of RFC 4180, the other way.

  /** A field and whether its writer quoted it. */
  datatype Cell = Cell(value: Text, quoted: bool)

  /** A field may go unquoted only without quotes and commas. */
  predicate Writable(c: Cell) {
    c.quoted || (QUOTE !in c.value && COMMA !in c.value)
  }

  /** Every quote doubled. */
  function Doubled(value: Text): Text {
    if value == [] then []
    else (if value[0] == QUOTE then [QUOTE, QUOTE] else [value[0]]) + Doubled(value[1..])
  }

  function Written(c: Cell): Text {
    if c.quoted then [QUOTE] + Doubled(c.value) + [QUOTE] else c.value
  }

  function Row(cells: seq<Cell>): Text
    requires cells != []
  {
    if |cells| == 1 then Written(cells[0]) else Written(cells[0]) + ([COMMA] + Row(cells[1..]))
  }

  function Values(cells: seq<Cell>): (values: seq<Text>)
    ensures |values| == |cells| && forall i :: 0 <= i < |cells| ==> values[i] == cells[i].value
  {
    seq(|cells|, i requires 0 <= i < |cells| => cells[i].value)
  }

  lemma {:induction false} PlainIsTaken(value: Text, rest: Text, field: Text)
    requires QUOTE !in value && COMMA !in value
    ensures SplitCsv(value + rest, field, false) == SplitCsv(rest, field + value, false)
  {
    if value == [] {
      assert value + rest == rest && field + value == field;
    } else {
      assert (value + rest)[1..] == value[1..] + rest;
      assert field + [value[0]] + value[1..] == field + value;
      PlainIsTaken(value[1..], rest, field + [value[0]]);
    }
  }

  /** Inside quotes everything is taken up to the quote that ends them. */
  lemma {:induction false} QuotedIsTaken(value: Text, rest: Text, field: Text)
    requires rest == [] || rest[0] != QUOTE
    ensures SplitCsv(Doubled(value) + ([QUOTE] + rest), field, true) == SplitCsv(rest, field + value, false)
    decreases |value|
  {
    var line := Doubled(value) + ([QUOTE] + rest);
    if value == [] {
      assert line[0] == QUOTE && line[1..] == rest && field + value == field;
    } else {
      assert field + [value[0]] + value[1..] == field + value;
      QuotedIsTaken(value[1..], rest, field + [value[0]]);
      if value[0] == QUOTE {
        assert line[0] == QUOTE && line[1] == QUOTE && line[2..] == Doubled(value[1..]) + ([QUOTE] + rest);
      } else {
        assert line[0] == value[0] && line[1..] == Doubled(value[1..]) + ([QUOTE] + rest);
      }
    }
  }

  lemma CellIsTaken(c: Cell, rest: Text)
    requires Writable(c) && (rest == [] || rest[0] == COMMA)
    ensures SplitCsv(Written(c) + rest, [], false) == SplitCsv(rest, c.value, false)
  {
    assert [] + c.value == c.value;
    if c.quoted {
      var line := Written(c) + rest;
      assert line[0] == QUOTE && line[1..] == Doubled(c.value) + ([QUOTE] + rest);
      QuotedIsTaken(c.value, rest, []);
    } else {
      PlainIsTaken(c.value, rest, []);
    }
  }

  /** Splitting undoes the writing of any list of fields, however many of them were
      quoted. */
  lemma {:induction false} SplitUndoesRow(cells: seq<Cell>)
    requires cells != [] && forall i :: 0 <= i < |cells| ==> Writable(cells[i])
    ensures SplitCsv(Row(cells), [], false) == Values(cells)
  {
    if |cells| == 1 {
      assert Written(cells[0]) + [] == Written(cells[0]);
      CellIsTaken(cells[0], []);
    } else {
      var rest := [COMMA] + Row(cells[1..]);
      CellIsTaken(cells[0], rest);
      assert rest[1..] == Row(cells[1..]);
      SplitUndoesRow(cells[1..]);
      assert [cells[0].value] + Values(cells[1..]) == Values(cells);
    }
  }

  // The rows printed.

  const RESULT := Ascii("result")
  const TABLE := Ascii("table")

  /** The awk program's two patterns: what one line of the engine's answer prints. */
  method PrintRow(line: Text) returns (row: Option<Text>)
    ensures row == Printed(line)
  {
    if line != [] && line[0] == HASH {
      return None;
    }
    var f := SplitCsvLine(line);
    var n := |f|;
    if n < 4 {
      return None;
    }
    if f[1] == RESULT && f[2] == TABLE {
      return None;
    }
    var out := f[3];
    for i := 4 to n
      invariant out == Join(TAB, f[3..i])
    {
      JoinSnoc(TAB, f[3..i], f[i]);
      assert f[3..i] + [f[i]] == f[3..i + 1];
      out := out + [TAB] + f[i];
    }
    assert f[3..n] == f[3..];
    return Some(out);
  }

  function Printed(line: Text): Option<Text> {
    var f := SplitCsv(line, [], false);
    if line != [] && line[0] == HASH then None
    else if |f| < 4 || (f[1] == RESULT && f[2] == TABLE) then None
    else Some(Join(TAB, f[3..]))
  }

  lemma {:induction false} JoinSnoc(sep: Byte, segments: seq<Text>, last: Text)
    requires segments != []
    ensures Join(sep, segments + [last]) == Join(sep, segments) + [sep] + last
  {
    if |segments| > 1 {
      assert (segments + [last])[1..] == segments[1..] + [last];
      JoinSnoc(sep, segments[1..], last);
    } else {
      assert (segments + [last])[1..] == [last];
    }
  }

  lemma RowBegins(cells: seq<Cell>)
    requires cells != []
    ensures Written(cells[0]) <= Row(cells)
    ensures Written(cells[0]) == [] ==> Row(cells) == [] || Row(cells)[0] == COMMA
  {
  }

  /** What any row prints: an annotation, whose first field is bare and begins with a
      number sign, nothing; a header, naming result and table, nothing; nor one of fewer
      than four fields; every other its fields from the fourth on. */
  lemma RowPrints(cells: seq<Cell>)
    requires cells != [] && forall i :: 0 <= i < |cells| ==> Writable(cells[i])
    ensures Printed(Row(cells)) ==
            if !cells[0].quoted && cells[0].value != [] && cells[0].value[0] == 35 then None
            else if |cells| < 4 then None
            else if cells[1].value == Ascii("result") && cells[2].value == Ascii("table") then None
            else Some(Join(9, Values(cells)[3..]))
  {
    RowBegins(cells);
    SplitUndoesRow(cells);
    assert Written(cells[0]) != [] ==> Row(cells)[0] == Written(cells[0])[0];
  }
}
