// The CSV routines of src/App.jsx: the quote-aware cell splitter
// `splitCSVLine`, the importer `parseCSV` built on it, and the cell
// escaping of the CSV export, whose output the splitter reads back.

module Csv {
  import opened Wrappers
  import opened Text

  // ------------------------------------------------------------ splitting

  /**
   * The splitter's two-state machine on the rest `s` of a line: `inQ`
   * says whether a quoted section is open, `cur` is the cell read so far
   * and `out` the cells already closed. Inside quotes a doubled quote
   * stands for one quote and a single quote closes the section; outside,
   * a quote opens a section and a comma closes the cell.
   */
  function Scan(s: string, inQ: bool, cur: string, out: seq<string>): seq<string>
    decreases |s|
  {
    if s == [] then out + [cur]
    else if inQ then
      if s[0] == '"' && |s| > 1 && s[1] == '"' then Scan(s[2..], true, cur + ['"'], out)
      else if s[0] == '"' then Scan(s[1..], false, cur, out)
      else Scan(s[1..], true, cur + [s[0]], out)
    else if s[0] == '"' then Scan(s[1..], true, cur, out)
    else if s[0] == ',' then Scan(s[1..], false, [], out + [cur])
    else Scan(s[1..], false, cur + [s[0]], out)
  }

  /** The machine never drops a cell it has closed, and always closes one more. */
  lemma {:induction false} ScanExtends(s: string, inQ: bool, cur: string, out: seq<string>)
    ensures |Scan(s, inQ, cur, out)| > |out| && Scan(s, inQ, cur, out)[..|out|] == out
    decreases |s|
  {
    if s == [] {
    } else if inQ {
      if s[0] == '"' && |s| > 1 && s[1] == '"' {
        ScanExtends(s[2..], true, cur + ['"'], out);
      } else if s[0] == '"' {
        ScanExtends(s[1..], false, cur, out);
      } else {
        ScanExtends(s[1..], true, cur + [s[0]], out);
      }
    } else if s[0] == '"' {
      ScanExtends(s[1..], true, cur, out);
    } else if s[0] == ',' {
      var r := Scan(s[1..], false, [], out + [cur]);
      ScanExtends(s[1..], false, [], out + [cur]);
      assert r[..|out|] == r[..|out| + 1][..|out|];
    } else {
      ScanExtends(s[1..], false, cur + [s[0]], out);
    }
  }

  /** The untrimmed cells of a line: one more than its commas outside quotes. */
  function Fields(line: string): (r: seq<string>)
    ensures |r| == UnquotedCommas(line, false) + 1
  {
    ScanCount(line, false, [], []);
    Scan(line, false, [], [])
  }

  /** Every cell trimmed, as `out.map(s => s.trim())` does. */
  function TrimAll(cells: seq<string>): (r: seq<string>)
    ensures |r| == |cells|
    ensures forall k :: 0 <= k < |r| ==> r[k] == Trim(cells[k])
  {
    seq(|cells|, k requires 0 <= k < |cells| => Trim(cells[k]))
  }

  /** Trimming the cells a second time changes none of them. */
  lemma TrimAllIdempotent(cells: seq<string>)
    ensures TrimAll(TrimAll(cells)) == TrimAll(cells)
  {
    forall k | 0 <= k < |cells|
      ensures Trim(Trim(cells[k])) == Trim(cells[k])
    {
      TrimIdempotent(cells[k]);
    }
  }

  /** Every cell keeps what lies between its leading and trailing white space, and only that. */
  lemma TrimAllInfix(cells: seq<string>, k: int)
    requires 0 <= k < |cells|
    ensures exists i, j ::
      && 0 <= i <= j <= |cells[k]| && TrimAll(cells)[k] == cells[k][i..j]
      && (forall m :: 0 <= m < i ==> IsSpace(cells[k][m]))
      && (forall m :: j <= m < |cells[k]| ==> IsSpace(cells[k][m]))
  {
    var c := cells[k];
    TrimInfix(c);
    var i, j := TrimStartIndex(c), TrimEndIndex(c);
    assert TrimAll(cells)[k] == c[i..j];
    assert 0 <= i <= j <= |c| && TrimAll(cells)[k] == c[i..j] &&
      (forall m :: 0 <= m < i ==> IsSpace(c[m])) && (forall m :: j <= m < |c| ==> IsSpace(c[m]));
  }

  /** `splitCSVLine`: the trimmed cells of one line. */
  method SplitCsvLine(line: string) returns (cells: seq<string>)
    ensures cells == TrimAll(Fields(line))
  {
    var out: seq<string> := [];
    var cur := "";
    var inQ := false;
    var i := 0;
    while i < |line|
      invariant 0 <= i <= |line|
      invariant Scan(line[i..], inQ, cur, out) == Fields(line)
    {
      var c := line[i];
      assert line[i..][0] == c && line[i..][1..] == line[i + 1..];
      if inQ {
        if c == '"' && i + 1 < |line| && line[i + 1] == '"' {
          assert line[i..][2..] == line[i + 2..];
          cur := cur + ['"'];
          i := i + 1;
        } else if c == '"' {
          inQ := false;
        } else {
          cur := cur + [c];
        }
      } else {
        if c == '"' {
          inQ := true;
        } else if c == ',' {
          out := out + [cur];
          cur := "";
        } else {
          cur := cur + [c];
        }
      }
      i := i + 1;
    }
    out := out + [cur];
    cells := TrimAll(out);
  }

  /**
   * An independent count: the commas of `s` outside quotes, where every
   * quote character flips between inside and outside.
   */
  function UnquotedCommas(s: string, inQ: bool): nat
    decreases |s|
  {
    if s == [] then 0
    else if s[0] == '"' then UnquotedCommas(s[1..], !inQ)
    else (if s[0] == ',' && !inQ then 1 else 0) + UnquotedCommas(s[1..], inQ)
  }

  lemma {:induction false} ScanCount(s: string, inQ: bool, cur: string, out: seq<string>)
    ensures |Scan(s, inQ, cur, out)| == |out| + UnquotedCommas(s, inQ) + 1
    decreases |s|
  {
    if s == [] {
    } else if inQ {
      if s[0] == '"' && |s| > 1 && s[1] == '"' {
        ScanCount(s[2..], true, cur + ['"'], out);
        assert s[1..][1..] == s[2..];
      } else if s[0] == '"' {
        ScanCount(s[1..], false, cur, out);
      } else {
        ScanCount(s[1..], true, cur + [s[0]], out);
      }
    } else if s[0] == '"' {
      ScanCount(s[1..], true, cur, out);
    } else if s[0] == ',' {
      ScanCount(s[1..], false, [], out + [cur]);
    } else {
      ScanCount(s[1..], false, cur + [s[0]], out);
    }
  }

  /** The pieces of `s` between the occurrences of `sep`, as `String.prototype.split` gives them. */
  function SplitOn(s: string, sep: char): (r: seq<string>)
    ensures |r| >= 1
    ensures forall k :: 0 <= k < |r| ==> sep !in r[k]
    decreases |s|
  {
    if s == [] then [[]]
    else
      var rest := SplitOn(s[1..], sep);
      if s[0] == sep then [[]] + rest
      else [[s[0]] + rest[0]] + rest[1..]
  }

  /** The pieces glued back together with `sep` between them. */
  function JoinWith(pieces: seq<string>, sep: char): string
    requires |pieces| >= 1
    decreases |pieces|
  {
    if |pieces| == 1 then pieces[0] else pieces[0] + [sep] + JoinWith(pieces[1..], sep)
  }

  /** Splitting loses nothing: joining the pieces restores the text. */
  lemma {:induction false} SplitOnJoin(s: string, sep: char)
    ensures JoinWith(SplitOn(s, sep), sep) == s
    decreases |s|
  {
    if s != [] {
      var rest := SplitOn(s[1..], sep);
      SplitOnJoin(s[1..], sep);
      if s[0] == sep {
        assert SplitOn(s, sep) == [[]] + rest;
        assert ([[]] + rest)[1..] == rest;
      } else {
        var r := [[s[0]] + rest[0]] + rest[1..];
        assert SplitOn(s, sep) == r;
        if |rest| == 1 {
          assert JoinWith(r, sep) == [s[0]] + rest[0];
        } else {
          assert r[1..] == rest[1..];
          assert JoinWith(rest, sep) == rest[0] + [sep] + JoinWith(rest[1..], sep);
          assert JoinWith(r, sep) == [s[0]] + (rest[0] + [sep] + JoinWith(rest[1..], sep));
        }
      }
    }
  }

  /** On a line without quote characters the splitter is a plain split at every comma. */
  lemma UnquotedLine(line: string)
    requires '"' !in line
    ensures Fields(line) == SplitOn(line, ',')
  {
    ScanUnquoted(line, [], []);
    var p := SplitOn(line, ',');
    assert [] + p[0] == p[0];
    assert [] + [p[0]] + p[1..] == p;
  }

  lemma {:induction false} ScanUnquoted(s: string, cur: string, out: seq<string>)
    requires '"' !in s
    ensures var p := SplitOn(s, ',');
      Scan(s, false, cur, out) == out + [cur + p[0]] + p[1..]
    decreases |s|
  {
    if s != [] {
      assert '"' !in s[1..] by { assert forall x :: x in s[1..] ==> x in s; }
      var rest := SplitOn(s[1..], ',');
      if s[0] == ',' {
        ScanUnquoted(s[1..], [], out + [cur]);
        assert Scan(s, false, cur, out) == Scan(s[1..], false, [], out + [cur]);
        assert SplitOn(s, ',') == [[]] + rest;
        CommaStep(out, cur, rest);
      } else {
        ScanUnquoted(s[1..], cur + [s[0]], out);
        assert Scan(s, false, cur, out) == Scan(s[1..], false, cur + [s[0]], out);
        assert SplitOn(s, ',') == [[s[0]] + rest[0]] + rest[1..];
        CharStep(out, cur, s[0], rest);
      }
    } else {
      assert cur + [] == cur;
    }
  }

  /** A comma closes the current cell and opens an empty one. */
  lemma CommaStep(out: seq<string>, cur: string, rest: seq<string>)
    requires |rest| >= 1
    ensures var p := [[]] + rest;
      out + [cur] + [[] + rest[0]] + rest[1..] == out + [cur + p[0]] + p[1..]
  {
    var p := [[]] + rest;
    assert p[0] == [] && p[1..] == rest;
    assert [] + rest[0] == rest[0] && cur + [] == cur;
    assert [rest[0]] + rest[1..] == rest;
  }

  /** Any other character is appended to the current cell. */
  lemma CharStep(out: seq<string>, cur: string, c: char, rest: seq<string>)
    requires |rest| >= 1
    ensures var p := [[c] + rest[0]] + rest[1..];
      out + [cur + [c] + rest[0]] + rest[1..] == out + [cur + p[0]] + p[1..]
  {
    assert cur + [c] + rest[0] == cur + ([c] + rest[0]);
  }

  /** No two quote characters stand next to each other. */
  predicate NoDoubledQuote(s: string) {
    forall k :: 0 <= k < |s| - 1 ==> !(s[k] == '"' && s[k + 1] == '"')
  }

  /** Quote characters only delimit: a line with no doubled quote puts no quote into any cell. */
  lemma QuotesNotCopied(line: string)
    requires NoDoubledQuote(line)
    ensures forall k :: 0 <= k < |Fields(line)| ==> '"' !in Fields(line)[k]
  {
    ScanQuoteFree(line, false, [], []);
  }

  lemma {:induction false} ScanQuoteFree(s: string, inQ: bool, cur: string, out: seq<string>)
    requires NoDoubledQuote(s) && '"' !in cur
    requires forall k :: 0 <= k < |out| ==> '"' !in out[k]
    ensures forall k :: 0 <= k < |Scan(s, inQ, cur, out)| ==> '"' !in Scan(s, inQ, cur, out)[k]
    decreases |s|
  {
    if s != [] {
      assert NoDoubledQuote(s[1..]) by {
        forall k | 0 <= k < |s[1..]| - 1
          ensures !(s[1..][k] == '"' && s[1..][k + 1] == '"')
        {
          assert s[1..][k] == s[k + 1] && s[1..][k + 1] == s[k + 2];
        }
      }
      assert |s| > 1 ==> !(s[0] == '"' && s[1] == '"');
      if inQ {
        if s[0] == '"' {
          ScanQuoteFree(s[1..], false, cur, out);
        } else {
          ScanQuoteFree(s[1..], true, cur + [s[0]], out);
        }
      } else if s[0] == '"' {
        ScanQuoteFree(s[1..], true, cur, out);
      } else if s[0] == ',' {
        ScanQuoteFree(s[1..], false, [], out + [cur]);
      } else {
        ScanQuoteFree(s[1..], false, cur + [s[0]], out);
      }
    }
  }

  // ------------------------------------------------------------- escaping

  /** Every quote character doubled. */
  function DoubleQuotes(v: string): string
    decreases |v|
  {
    if v == [] then []
    else if v[0] == '"' then ['"', '"'] + DoubleQuotes(v[1..])
    else [v[0]] + DoubleQuotes(v[1..])
  }

  /** A value without quote characters is left as it is. */
  lemma {:induction false} DoubleQuotesQuoteFree(v: string)
    requires '"' !in v
    ensures DoubleQuotes(v) == v
    decreases |v|
  {
    if v != [] {
      assert '"' !in v[1..] by { assert forall x :: x in v[1..] ==> x in v; }
      DoubleQuotesQuoteFree(v[1..]);
      assert v == [v[0]] + v[1..];
    }
  }

  /** Escaping adds exactly one character per quote character of the value. */
  lemma {:induction false} DoubleQuotesLength(v: string)
    ensures |DoubleQuotes(v)| == |v| + multiset(v)['"']
    decreases |v|
  {
    if v != [] {
      DoubleQuotesLength(v[1..]);
      assert v == [v[0]] + v[1..];
    }
  }

  /** `csvEscape`: the value in quotes, with its own quotes doubled. */
  function CsvEscape(v: string): (r: string)
    ensures |r| >= 2 && r[0] == '"' && r[|r| - 1] == '"'
  {
    ['"'] + DoubleQuotes(v) + ['"']
  }

  /** A row of the export: the escaped cells joined with commas. */
  function EncodeRow(cells: seq<string>): string
    requires |cells| >= 1
    decreases |cells|
  {
    if |cells| == 1 then CsvEscape(cells[0])
    else CsvEscape(cells[0]) + [','] + EncodeRow(cells[1..])
  }

  /** The quote state machine reads back every row the export writes, commas and quotes included. */
  lemma EncodeRowRoundTrip(cells: seq<string>)
    requires |cells| >= 1
    ensures Fields(EncodeRow(cells)) == cells
  {
    ScanEncodedRow(cells, []);
  }

  /**
   * What `splitCSVLine` makes of an exported row: the exported values,
   * trimmed; values without white space at either end come back unchanged.
   */
  lemma ExportThenImport(cells: seq<string>)
    requires |cells| >= 1
    ensures TrimAll(Fields(EncodeRow(cells))) == TrimAll(cells)
    ensures (forall k :: 0 <= k < |cells| ==> Trim(cells[k]) == cells[k]) ==>
      TrimAll(Fields(EncodeRow(cells))) == cells
  {
    EncodeRowRoundTrip(cells);
  }

  lemma {:induction false} ScanEncodedRow(cells: seq<string>, out: seq<string>)
    requires |cells| >= 1
    ensures Scan(EncodeRow(cells), false, [], out) == out + cells
    decreases |cells|
  {
    var c := cells[0];
    if |cells| == 1 {
      ScanEscapedCell(c, [], out);
      assert EncodeRow(cells) == CsvEscape(c) + [];
      assert cells == [c];
    } else {
      var rest := EncodeRow(cells[1..]);
      var t := [','] + rest;
      assert EncodeRow(cells) == CsvEscape(c) + t;
      ScanEscapedCell(c, t, out);
      ScanComma(rest, c, out);
      ScanEncodedRow(cells[1..], out + [c]);
      assert out + [c] + cells[1..] == out + cells;
    }
  }

  /** A comma outside quotes closes the current cell. */
  lemma ScanComma(rest: string, cur: string, out: seq<string>)
    ensures Scan([','] + rest, false, cur, out) == Scan(rest, false, [], out + [cur])
  {
    assert ([','] + rest)[1..] == rest;
  }

  /** An escaped cell followed by anything but a quote is read back whole. */
  lemma ScanEscapedCell(v: string, t: string, out: seq<string>)
    requires t == [] || t[0] != '"'
    ensures Scan(CsvEscape(v) + t, false, [], out) == Scan(t, false, v, out)
  {
    ScanQuoted(v, t, [], out);
    assert CsvEscape(v) + t == ['"'] + (DoubleQuotes(v) + ['"'] + t);
    assert [] + v == v;
  }

  /** A quoted cell is read up to its closing quote, as long as no quote follows it. */
  lemma {:induction false} ScanQuoted(v: string, t: string, cur: string, out: seq<string>)
    requires t == [] || t[0] != '"'
    ensures Scan(DoubleQuotes(v) + ['"'] + t, true, cur, out) == Scan(t, false, cur + v, out)
    decreases |v|
  {
    var s := DoubleQuotes(v) + ['"'] + t;
    if v == [] {
      assert s == ['"'] + t && s[1..] == t;
      assert cur + v == cur;
    } else if v[0] == '"' {
      ScanQuoted(v[1..], t, cur + ['"'], out);
      assert s == ['"', '"'] + (DoubleQuotes(v[1..]) + ['"'] + t);
      assert s[2..] == DoubleQuotes(v[1..]) + ['"'] + t;
      assert cur + ['"'] + v[1..] == cur + v;
    } else {
      ScanQuoted(v[1..], t, cur + [v[0]], out);
      assert s == [v[0]] + (DoubleQuotes(v[1..]) + ['"'] + t);
      assert s[1..] == DoubleQuotes(v[1..]) + ['"'] + t;
      assert cur + [v[0]] + v[1..] == cur + v;
    }
  }

  // -------------------------------------------------------------- parsing

  /** The text with every carriage return removed. */
  function RemoveCR(text: string): (r: string)
    ensures '\r' !in r
    ensures forall c :: c in r <==> c in text && c != '\r'
    ensures '\r' !in text ==> r == text
    decreases |text|
  {
    if text == [] then []
    else if text[0] == '\r' then RemoveCR(text[1..])
    else [text[0]] + RemoveCR(text[1..])
  }

  /** The non-empty strings of `pieces`, in order (`filter(Boolean)`). */
  function NonEmpty(pieces: seq<string>): (r: seq<string>)
    ensures |r| <= |pieces|
    ensures forall k :: 0 <= k < |r| ==> r[k] != [] && r[k] in pieces
    ensures forall p :: p in pieces && p != [] ==> p in r
    ensures (forall k :: 0 <= k < |pieces| ==> pieces[k] != []) ==> r == pieces
    ensures pieces == [[]] ==> r == []
    decreases |pieces|
  {
    if pieces == [] then []
    else if pieces[0] == [] then NonEmpty(pieces[1..])
    else [pieces[0]] + NonEmpty(pieces[1..])
  }

  /**
   * Both filters work on each part of their input on its own, so what they
   * keep stays in its order and keeps its multiplicity.
   */
  lemma {:induction false} RemoveCRAppend(a: string, b: string)
    ensures RemoveCR(a + b) == RemoveCR(a) + RemoveCR(b)
    decreases |a|
  {
    if a == [] {
      assert a + b == b;
    } else {
      assert (a + b)[0] == a[0];
      assert (a + b)[1..] == a[1..] + b;
      RemoveCRAppend(a[1..], b);
    }
  }

  lemma {:induction false} NonEmptyAppend(a: seq<string>, b: seq<string>)
    ensures NonEmpty(a + b) == NonEmpty(a) + NonEmpty(b)
    decreases |a|
  {
    if a == [] {
      assert a + b == b;
    } else {
      assert (a + b)[0] == a[0];
      assert (a + b)[1..] == a[1..] + b;
      NonEmptyAppend(a[1..], b);
    }
  }

  /** The lines `parseCSV` reads: carriage returns dropped, split at line feeds, empty lines skipped. */
  function Lines(text: string): (r: seq<string>)
    ensures forall k :: 0 <= k < |r| ==> r[k] != []
    ensures text == [] ==> r == []
  {
    NonEmpty(SplitOn(RemoveCR(text), '\n'))
  }

  /** Every line read is non-empty and holds no line break. */
  lemma LinesAreClean(text: string)
    ensures forall k :: 0 <= k < |Lines(text)| ==>
      Lines(text)[k] != [] && '\n' !in Lines(text)[k] && '\r' !in Lines(text)[k]
  {
    var pieces := SplitOn(RemoveCR(text), '\n');
    forall k | 0 <= k < |Lines(text)|
      ensures '\r' !in Lines(text)[k]
    {
      var p := Lines(text)[k];
      assert p in pieces;
      var j :| 0 <= j < |pieces| && pieces[j] == p;
      PieceWithin(RemoveCR(text), '\n', j);
    }
  }

  /** Every character of a piece comes from the split text. */
  lemma {:induction false} PieceWithin(s: string, sep: char, j: int)
    requires 0 <= j < |SplitOn(s, sep)|
    ensures forall c :: c in SplitOn(s, sep)[j] ==> c in s
    decreases |s|
  {
    if s != [] {
      var rest := SplitOn(s[1..], sep);
      if s[0] == sep {
        if j > 0 {
          PieceWithin(s[1..], sep, j - 1);
        }
      } else if j == 0 {
        PieceWithin(s[1..], sep, 0);
      } else {
        PieceWithin(s[1..], sep, j);
      }
    }
  }

  /** The cell under column `idx`, or `""` when the row is shorter (`cells[idx] ?? ""`). */
  function CellAt(cells: seq<string>, idx: int): (r: string)
    ensures 0 <= idx < |cells| ==> r == cells[idx]
    ensures !(0 <= idx < |cells|) ==> r == ""
  {
    if 0 <= idx < |cells| then cells[idx] else ""
  }

  /** The object a data row becomes: each header names its column's cell, the last of equal headers winning. */
  function RowOf(header: seq<string>, cells: seq<string>): (row: map<string, string>)
    ensures row.Keys == set h | h in header
    decreases |header|
  {
    if header == [] then map[]
    else RowOf(header[..|header| - 1], cells)[header[|header| - 1] := CellAt(cells, |header| - 1)]
  }

  /** A header's value is the cell of the last column carrying that header. */
  lemma {:induction false} RowOfLookup(header: seq<string>, cells: seq<string>, idx: int)
    requires 0 <= idx < |header|
    requires forall j :: idx < j < |header| ==> header[j] != header[idx]
    ensures RowOf(header, cells)[header[idx]] == CellAt(cells, idx)
    decreases |header|
  {
    if idx < |header| - 1 {
      var init := header[..|header| - 1];
      RowOfLookup(init, cells, idx);
      assert init[idx] == header[idx];
    }
  }

  /** `forEach` over the header, writing one key per column into a fresh object. */
  method RowObject(header: seq<string>, cells: seq<string>) returns (row: map<string, string>)
    ensures row == RowOf(header, cells)
  {
    row := map[];
    var idx := 0;
    while idx < |header|
      invariant 0 <= idx <= |header|
      invariant row == RowOf(header[..idx], cells)
    {
      assert header[..idx + 1][..idx] == header[..idx];
      row := row[header[idx] := CellAt(cells, idx)];
      idx := idx + 1;
    }
    assert header[..|header|] == header;
  }

  /** What `parseCSV` returns: the trimmed header cells and one object per data line. */
  datatype Table = Table(header: seq<string>, rows: seq<map<string, string>>)

  /**
   * `parseCSV`. Text with no non-empty line (a line of spaces counts) makes the source fail on the
   * missing first line; that is `None` here.
   */
  method ParseCsv(text: string) returns (r: Option<Table>)
    ensures r.None? <==> Lines(text) == []
    ensures r.Some? ==>
      var lines := Lines(text);
      r.value.header == TrimAll(Fields(lines[0])) &&
      |r.value.rows| == |lines| - 1 &&
      forall k :: 0 <= k < |r.value.rows| ==>
        r.value.rows[k] == RowOf(r.value.header, TrimAll(Fields(lines[k + 1])))
  {
    var lines := Lines(text);
    if lines == [] {
      return None;
    }
    var header := SplitCsvLine(lines[0]);
    var rows: seq<map<string, string>> := [];
    var i := 1;
    while i < |lines|
      invariant 1 <= i <= |lines|
      invariant |rows| == i - 1
      invariant forall k :: 0 <= k < |rows| ==> rows[k] == RowOf(header, TrimAll(Fields(lines[k + 1])))
    {
      var cells := SplitCsvLine(lines[i]);
      var obj := RowObject(header, cells);
      rows := rows + [obj];
      i := i + 1;
    }
    return Some(Table(header, rows));
  }
}
