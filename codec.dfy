/** The level file: one line per grid row, each line the row's integers in
    decimal, joined by commas (what `csv.writer` writes for a list of ints).
    A file is modelled as its sequence of lines; reading a line back yields
    its comma-separated fields, and each field goes through `int(...)`. */
module LevelCodec {
  import opened World

  // ---------------------------------------------------------------------
  // Decimal integers (`str(n)` when writing, `int(s)` when reading)

  predicate IsDigit(c: char) { '0' <= c <= '9' }

  predicate AllDigits(s: string) { forall i :: 0 <= i < |s| ==> IsDigit(s[i]) }

  function DigitChar(d: int): (c: char)
    requires 0 <= d < 10
    ensures IsDigit(c) && c as int - '0' as int == d
  {
    (d + '0' as int) as char
  }

  /** Decimal digits of a natural number, most significant first, no leading zero. */
  function ShowNat(n: nat): (s: string)
    ensures |s| > 0 && AllDigits(s)
    ensures |s| > 1 ==> s[0] != '0'
    decreases n
  {
    if n < 10 then [DigitChar(n)] else ShowNat(n / 10) + [DigitChar(n % 10)]
  }

  /** `str(n)` for a Python int. */
  function Show(n: int): (s: string)
    ensures |s| > 0 && ',' !in s
    ensures s[0] == '-' <==> n < 0
  {
    if n < 0 then "-" + ShowNat(-n) else ShowNat(n)
  }

  /** Value of a string of decimal digits. */
  function DigitsValue(s: string): nat
    requires AllDigits(s)
  {
    if s == [] then 0
    else DigitsValue(s[..|s| - 1]) * 10 + (s[|s| - 1] as int - '0' as int)
  }

  /** `int(s)`: an optional minus sign followed by one or more decimal
      digits; anything else raises ValueError (here: None). */
  function ParseInt(s: string): (r: Option<int>)
    ensures r.Some? <==> (|s| > 0 && AllDigits(s)) || (|s| > 1 && s[0] == '-' && AllDigits(s[1..]))
  {
    if |s| > 1 && s[0] == '-' && AllDigits(s[1..]) then Some(0 - DigitsValue(s[1..]))
    else if |s| > 0 && AllDigits(s) then Some(DigitsValue(s))
    else None
  }

  lemma {:induction false} DigitsValueShowNat(n: nat)
    ensures DigitsValue(ShowNat(n)) == n
    decreases n
  {
    if n >= 10 {
      var s := ShowNat(n);
      DigitsValueShowNat(n / 10);
      assert s[..|s| - 1] == ShowNat(n / 10);
    }
  }

  /** Reading back what was written gives the same integer. */
  lemma ParseShow(n: int)
    ensures ParseInt(Show(n)) == Some(n)
  {
    if n < 0 {
      assert Show(n)[1..] == ShowNat(-n);
      DigitsValueShowNat(-n);
    } else {
      DigitsValueShowNat(n);
      assert Show(n)[0] != '-';
    }
  }

  // ---------------------------------------------------------------------
  // Comma-separated fields of one line

  /** Fields joined by commas. */
  function Join(fields: seq<string>): string {
    if |fields| == 0 then ""
    else if |fields| == 1 then fields[0]
    else fields[0] + "," + Join(fields[1..])
  }

  /** The pieces of `s` between commas; always at least one piece. */
  function Split(s: string): (r: seq<string>)
    ensures |r| >= 1
  {
    if s == [] then [""]
    else
      var rest := Split(s[1..]);
      if s[0] == ',' then [""] + rest else [[s[0]] + rest[0]] + rest[1..]
  }

  /** The row the CSV reader yields for one line: an empty line is an empty
      row, any other line is split at every comma. */
  function Fields(line: string): seq<string> {
    if line == "" then [] else Split(line)
  }

  lemma {:induction false} SplitPrefix(a: string, t: string)
    requires ',' !in a
    ensures Split(a + t) == [a + Split(t)[0]] + Split(t)[1..]
  {
    if a != [] {
      assert (a + t)[1..] == a[1..] + t;
      assert a[0] in a;
      SplitPrefix(a[1..], t);
      assert [a[0]] + (a[1..] + Split(t)[0]) == a + Split(t)[0];
    } else {
      assert a + t == t;
      assert Split(t) == [Split(t)[0]] + Split(t)[1..];
      assert a + Split(t)[0] == Split(t)[0];
    }
  }

  lemma {:induction false} SplitJoin(fields: seq<string>)
    requires |fields| > 0
    requires forall i :: 0 <= i < |fields| ==> ',' !in fields[i]
    ensures Split(Join(fields)) == fields
  {
    if |fields| == 1 {
      SplitPrefix(fields[0], "");
      assert fields[0] + "" == fields[0];
      assert Split("") == [""];
      assert [fields[0] + ""] + [""][1..] == fields;
    } else {
      var rest := Join(fields[1..]);
      SplitJoin(fields[1..]);
      assert Join(fields) == fields[0] + ("," + rest);
      SplitPrefix(fields[0], "," + rest);
      assert ("," + rest)[1..] == rest;
      assert Split("," + rest) == [""] + fields[1..];
      assert fields[0] + "" == fields[0];
      assert [fields[0]] + fields[1..] == fields;
    }
  }

  // ---------------------------------------------------------------------
  // Rows and whole levels

  /** Decimal text of each cell of a row, in order. */
  function ShowRow(row: seq<int>): (fs: seq<string>)
    ensures |fs| == |row|
    ensures forall i :: 0 <= i < |row| ==> fs[i] == Show(row[i])
  {
    if row == [] then [] else [Show(row[0])] + ShowRow(row[1..])
  }

  /** The line `writer.writerow(row)` writes. */
  function EncodeRow(row: seq<int>): string {
    Join(ShowRow(row))
  }

  /** The lines of a saved level: one per grid row, in order. */
  function EncodeGrid(g: Grid): (lines: seq<string>)
    ensures |lines| == |g|
    ensures forall r :: 0 <= r < |g| ==> Fields(lines[r]) == ShowRow(g[r])
  {
    var lines := seq(|g|, r requires 0 <= r < |g| => EncodeRow(g[r]));
    assert forall r :: 0 <= r < |g| ==> Fields(lines[r]) == ShowRow(g[r]) by {
      forall r | 0 <= r < |g| ensures Fields(lines[r]) == ShowRow(g[r]) {
        FieldsEncodeRow(g[r]);
      }
    }
    lines
  }

  /** `[int(tile) for tile in row]`: None as soon as one field is not an integer. */
  function ParseRow(fields: seq<string>): (r: Option<seq<int>>)
    ensures r.Some? <==> forall i :: 0 <= i < |fields| ==> ParseInt(fields[i]).Some?
    ensures r.Some? ==> |r.value| == |fields|
    ensures r.Some? ==> forall i :: 0 <= i < |fields| ==> Some(r.value[i]) == ParseInt(fields[i])
  {
    if fields == [] then Some([])
    else
      var head, rest := ParseInt(fields[0]), ParseRow(fields[1..]);
      if head.Some? && rest.Some? then Some([head.value] + rest.value)
      else
        assert head.None? || exists i :: 0 <= i < |fields| - 1 && ParseInt(fields[1..][i]).None?;
        None
  }

  /** The fields of each line of a file, line by line. */
  function FieldsOf(lines: seq<string>): seq<seq<string>> {
    seq(|lines|, i requires 0 <= i < |lines| => Fields(lines[i]))
  }

  /** Rows of fields as integer rows, in order; None when some field is not
      an integer. */
  function DecodeRows(rows: seq<seq<string>>): Option<Grid> {
    if rows == [] then Some([])
    else
      var init, last := DecodeRows(rows[..|rows| - 1]), ParseRow(rows[|rows| - 1]);
      if init.Some? && last.Some? then Some(init.value + [last.value]) else None
  }

  /** All lines of a level file as integer rows, in file order; None when
      some field of some line is not an integer. */
  function DecodeLines(lines: seq<string>): Option<Grid> {
    DecodeRows(FieldsOf(lines))
  }

  /** The fields read back from a saved row are the decimal texts of its cells. */
  lemma FieldsEncodeRow(row: seq<int>)
    ensures Fields(EncodeRow(row)) == ShowRow(row)
  {
    var fs := ShowRow(row);
    if row != [] {
      assert |Join(fs)| > 0 by {
        if |fs| > 1 { assert Join(fs) == fs[0] + "," + Join(fs[1..]); }
      }
      SplitJoin(fs);
    }
  }

  /** Reading a saved row back yields the row. */
  lemma RowRoundTrip(row: seq<int>)
    ensures ParseRow(Fields(EncodeRow(row))) == Some(row)
  {
    FieldsEncodeRow(row);
    var r := ParseRow(ShowRow(row));
    forall i | 0 <= i < |row| ensures ParseInt(ShowRow(row)[i]) == Some(row[i]) {
      ParseShow(row[i]);
    }
    assert r.value == row;
  }

  /** Rows that each parse to the matching row of `g` decode to `g`. */
  lemma {:induction false} DecodeRowsOf(rows: seq<seq<string>>, g: Grid)
    requires |rows| == |g|
    requires forall i :: 0 <= i < |rows| ==> ParseRow(rows[i]) == Some(g[i])
    ensures DecodeRows(rows) == Some(g)
  {
    if rows != [] {
      var n := |rows| - 1;
      DecodeRowsOf(rows[..n], g[..n]);
      assert g[..n] + [g[n]] == g;
    }
  }

  /** Decoding a saved level yields the grid that was saved, row for row:
      load(save(g)) == g, whatever the row lengths. */
  lemma DecodeEncode(g: Grid)
    ensures DecodeLines(EncodeGrid(g)) == Some(g)
  {
    var rows := FieldsOf(EncodeGrid(g));
    forall i | 0 <= i < |rows| ensures ParseRow(rows[i]) == Some(g[i]) {
      RowRoundTrip(g[i]);
    }
    DecodeRowsOf(rows, g);
  }

  /** Rows decode exactly when each of them parses. */
  lemma {:induction false} DecodeRowsSome(rows: seq<seq<string>>)
    ensures DecodeRows(rows).Some? <==> forall i :: 0 <= i < |rows| ==> ParseRow(rows[i]).Some?
  {
    if rows != [] {
      var n := |rows| - 1;
      var init := rows[..n];
      DecodeRowsSome(init);
      if DecodeRows(init).Some? {
        forall i | 0 <= i < n ensures ParseRow(rows[i]).Some? {
          assert init[i] == rows[i];
        }
      } else {
        var i :| 0 <= i < n && ParseRow(init[i]).None?;
        assert init[i] == rows[i];
      }
    }
  }

  /** Row `i` of decoded rows is row `i` of fields as integers. */
  lemma {:induction false} DecodeRowsRow(rows: seq<seq<string>>, i: nat)
    requires DecodeRows(rows).Some? && i < |rows|
    ensures |DecodeRows(rows).value| == |rows|
    ensures Some(DecodeRows(rows).value[i]) == ParseRow(rows[i])
  {
    var n := |rows| - 1;
    var init := rows[..n];
    if n > 0 {
      DecodeRowsRow(init, if i < n then i else 0);
    }
    if i < n {
      assert init[i] == rows[i];
    }
  }

  /** A file decodes exactly when each of its lines parses. */
  lemma DecodeLinesSome(lines: seq<string>)
    ensures DecodeLines(lines).Some? <==> forall i :: 0 <= i < |lines| ==> ParseRow(Fields(lines[i])).Some?
  {
    var rows := FieldsOf(lines);
    DecodeRowsSome(rows);
    assert forall i :: 0 <= i < |lines| ==> rows[i] == Fields(lines[i]);
  }

  /** A decoded file has one row per line, each that line's fields as integers. */
  lemma DecodeLinesRows(lines: seq<string>)
    requires DecodeLines(lines).Some?
    ensures |DecodeLines(lines).value| == |lines|
    ensures forall i :: 0 <= i < |lines| ==> Some(DecodeLines(lines).value[i]) == ParseRow(Fields(lines[i]))
  {
    var rows := FieldsOf(lines);
    if lines != [] {
      DecodeRowsRow(rows, 0);
    }
    forall i | 0 <= i < |lines| ensures Some(DecodeRows(rows).value[i]) == ParseRow(rows[i]) {
      DecodeRowsRow(rows, i);
    }
  }
}
