/**
 * The pair manifest: one row per (edited, original) pair, written as a
 * header line followed by one comma-joined line per row, without quoting.
 */
module Manifest {
  import opened Wrappers
  import opened Strings

  datatype Row = Row(editedLocal: string, originalLocal: string, dataset: string, diffusionModel: string)

  const Header: string := "edited_local,original_local,dataset,diffusion_model"

  function RowLine(r: Row): string
  {
    r.editedLocal + "," + (r.originalLocal + "," + (r.dataset + "," + r.diffusionModel))
  }

  function Lines(rows: seq<Row>): string
  {
    if rows == [] then "" else RowLine(rows[0]) + "\n" + Lines(rows[1..])
  }

  /** The file contents: the header line, then each row on its own line. */
  function Text(rows: seq<Row>): string
  {
    Header + "\n" + Lines(rows)
  }

  /** The comma-separated fields of one line. */
  function Fields(line: string): (r: seq<string>)
    ensures |r| >= 1
    ensures forall k :: 0 <= k < |r| ==> ',' !in r[k]
  {
    var i := Find(line, ',');
    if i < 0 then [line] else [line[..i]] + Fields(line[i + 1..])
  }

  /** Every field of a line is made of characters of that line. */
  lemma {:induction false} FieldsChars(line: string, c: char)
    requires c !in line
    ensures forall k :: 0 <= k < |Fields(line)| ==> c !in Fields(line)[k]
  {
    var i := Find(line, ',');
    if i >= 0 {
      var rest := line[i + 1..];
      assert c !in rest by {
        forall j | 0 <= j < |rest| ensures rest[j] != c {
          assert rest[j] == line[i + 1 + j];
        }
      }
      assert c !in line[..i] by {
        forall j | 0 <= j < i ensures line[..i][j] != c {
          assert line[..i][j] == line[j];
        }
      }
      FieldsChars(rest, c);
    }
  }

  /**
   * One data line as a row: exactly four fields, and no quote or carriage
   * return, since quoted fields are outside the unquoted format.
   */
  function ParseRow(line: string): (r: Option<Row>)
    ensures r.Some? ==> '"' !in line && '\r' !in line
    ensures r.Some? && '\n' !in line ==> PlainRow(r.value)
  {
    var f := Fields(line);
    if |f| == 4 && '"' !in line && '\r' !in line then
      FieldsChars(line, '"');
      FieldsChars(line, '\r');
      if '\n' !in line then FieldsChars(line, '\n'); Some(Row(f[0], f[1], f[2], f[3]))
      else Some(Row(f[0], f[1], f[2], f[3]))
    else None
  }

  function ParseLines(s: string): (r: Option<seq<Row>>)
    ensures r.Some? ==> forall k :: 0 <= k < |r.value| ==> PlainRow(r.value[k])
  {
    if s == [] then Some([])
    else
      var i := Find(s, '\n');
      if i < 0 then None
      else match (ParseRow(s[..i]), ParseLines(s[i + 1..]))
        case (Some(r), Some(rest)) => Some([r] + rest)
        case _ => None
  }

  /** Reads a manifest back: the header line, then one row per line. */
  function Parse(text: string): (r: Option<seq<Row>>)
    ensures r.Some? ==> forall k :: 0 <= k < |r.value| ==> PlainRow(r.value[k])
  {
    if |text| <= |Header| || text[..|Header| + 1] != Header + "\n" then None
    else ParseLines(text[|Header| + 1..])
  }

  /** A field that the unquoted format can carry. */
  predicate PlainField(s: string)
  {
    ',' !in s && '\n' !in s && '"' !in s && '\r' !in s
  }

  /** The texts that pandas reads as a missing value by default. */
  const MissingTokens: set<string> := {"", "#N/A", "#N/A N/A", "#NA", "-1.#IND", "-1.#QNAN", "-NaN", "-nan",
    "1.#IND", "1.#QNAN", "<NA>", "N/A", "NA", "NULL", "NaN", "None", "n/a", "nan", "null"}

  /**
   * Text that pandas' type inference may turn into a number or a boolean:
   * digits, signs, points, exponents and spaces only, or an infinity or
   * truth-value spelling. It errs on the side of saying yes.
   */
  predicate NumberLike(s: string)
  {
    (s != [] && forall i :: 0 <= i < |s| ==> s[i] in "0123456789+-.eE ") ||
    Lower(s) in {"true", "false", "inf", "+inf", "-inf", "infinity", "+infinity", "-infinity"}
  }

  /** Whether a column holding only `s` reads back from pandas as the text `s`. */
  predicate PandasKeeps(s: string)
  {
    s !in MissingTokens && !NumberLike(s)
  }

  /** No missing-value token ends in `g`, so no image path ending in `.jpg` or `.png` reads as missing. */
  lemma EndsInGNotMissing(s: string)
    requires s != [] && s[|s| - 1] == 'g'
    ensures s !in MissingTokens
  {
  }

  predicate PlainRow(r: Row)
  {
    PlainField(r.editedLocal) && PlainField(r.originalLocal) && PlainField(r.dataset) && PlainField(r.diffusionModel)
  }

  lemma FindAfter(x: string, c: char, y: string)
    requires c !in x
    ensures Find(x + [c] + y, c) == |x|
    ensures (x + [c] + y)[..|x|] == x && (x + [c] + y)[|x| + 1..] == y
  {
    var s := x + [c] + y;
    assert s[|x|] == c;
    assert forall j :: 0 <= j < |x| ==> s[j] == x[j];
  }

  lemma FieldsCons(x: string, y: string)
    requires ',' !in x
    ensures Fields(x + "," + y) == [x] + Fields(y)
  {
    FindAfter(x, ',', y);
    assert x + "," + y == x + [','] + y;
  }

  lemma FieldsOfRow(r: Row)
    requires PlainRow(r)
    ensures var f := Fields(RowLine(r));
      |f| == 4 && f[0] == r.editedLocal && f[1] == r.originalLocal && f[2] == r.dataset && f[3] == r.diffusionModel
  {
    var a, b, c, d := r.editedLocal, r.originalLocal, r.dataset, r.diffusionModel;
    var t3 := c + "," + d;
    var t2 := b + "," + t3;
    assert Fields(d) == [d];
    FieldsCons(c, d);
    FieldsCons(b, t3);
    FieldsCons(a, t2);
    assert RowLine(r) == a + "," + t2;
  }

  /** The line written for a row of plain fields reads back as that row. */
  lemma ParseRowOfRow(r: Row)
    requires PlainRow(r)
    ensures ParseRow(RowLine(r)) == Some(r)
  {
    var line := RowLine(r);
    assert '"' !in line && '\r' !in line;
    FieldsOfRow(r);
  }

  lemma {:induction false} ParseLinesRoundTrip(rows: seq<Row>)
    requires forall k :: 0 <= k < |rows| ==> PlainRow(rows[k])
    ensures ParseLines(Lines(rows)) == Some(rows)
  {
    if rows != [] {
      var line := RowLine(rows[0]);
      assert '\n' !in line;
      FindAfter(line, '\n', Lines(rows[1..]));
      assert Lines(rows) == line + ['\n'] + Lines(rows[1..]);
      ParseRowOfRow(rows[0]);
      ParseLinesRoundTrip(rows[1..]);
      assert [rows[0]] + rows[1..] == rows;
    }
  }

  /** Reading back a written manifest gives its rows, as long as no field holds a comma or a line break. */
  lemma ParseText(rows: seq<Row>)
    requires forall k :: 0 <= k < |rows| ==> PlainRow(rows[k])
    ensures Parse(Text(rows)) == Some(rows)
  {
    var t := Text(rows);
    assert t[..|Header| + 1] == Header + "\n";
    assert t[|Header| + 1..] == Lines(rows);
    ParseLinesRoundTrip(rows);
  }

  /** The fields of a line joined back with commas. */
  function JoinFields(f: seq<string>): string
    requires |f| >= 1
  {
    if |f| == 1 then f[0] else f[0] + "," + JoinFields(f[1..])
  }

  /** Splitting a line on commas loses nothing. */
  lemma {:induction false} FieldsJoin(line: string)
    ensures JoinFields(Fields(line)) == line
  {
    var i := Find(line, ',');
    if i >= 0 {
      var rest := line[i + 1..];
      var fr := Fields(rest);
      FieldsJoin(rest);
      var f := Fields(line);
      assert f == [line[..i]] + fr;
      assert f[1..] == fr;
      assert JoinFields(f) == line[..i] + "," + rest;
      SplitAround(line, i);
    }
  }

  /** A text is the part before index `i`, the character at `i`, and the part after it. */
  lemma SplitAround(s: string, i: int)
    requires 0 <= i < |s|
    ensures s[..i] + [s[i]] + s[i + 1..] == s
  {
  }

  lemma ParseRowLine(line: string)
    requires ParseRow(line).Some?
    ensures RowLine(ParseRow(line).value) == line
  {
    var f := Fields(line);
    FieldsJoin(line);
    assert JoinFields(f[3..]) == f[3];
    assert JoinFields(f[2..]) == f[2] + "," + JoinFields(f[3..]);
    assert JoinFields(f[1..]) == f[1] + "," + JoinFields(f[2..]);
    assert JoinFields(f) == f[0] + "," + JoinFields(f[1..]);
  }

  lemma {:induction false} ParseLinesText(s: string)
    requires ParseLines(s).Some?
    ensures Lines(ParseLines(s).value) == s
  {
    if s != [] {
      var i := Find(s, '\n');
      var line, rest := s[..i], s[i + 1..];
      var rows := ParseLines(s).value;
      ParseRowLine(line);
      ParseLinesText(rest);
      assert rows == [ParseRow(line).value] + ParseLines(rest).value;
      assert Lines(rows) == RowLine(rows[0]) + "\n" + Lines(rows[1..]);
      assert rows[1..] == ParseLines(rest).value;
      assert Lines(rows) == line + "\n" + rest;
      SplitAround(s, i);
    }
  }

  /** A manifest that reads back is exactly the text written for the rows read. */
  lemma TextParse(text: string)
    requires Parse(text).Some?
    ensures Text(Parse(text).value) == text
  {
    ParseLinesText(text[|Header| + 1..]);
    assert text == text[..|Header| + 1] + text[|Header| + 1..];
  }
}
