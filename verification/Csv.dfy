/** The CSV export of commands/export-data.ts, and a reader for it after section 2 of RFC 4180 with LF line breaks. */
module Csv {
  import opened Text

  // ---- Writing ----

  /** `str.replace(/"/g, '""')` */
  function Doubled(s: string): string {
    if s == "" then "" else (if s[0] == '"' then "\"\"" else [s[0]]) + Doubled(s[1..])
  }

  function EscapeCsvField(s: string): string {
    if ',' in s || '"' in s || '\n' in s then "\"" + Doubled(s) + "\"" else s
  }

  function EscapedFields(row: seq<string>): seq<string> {
    seq(|row|, i requires 0 <= i < |row| => EscapeCsvField(row[i]))
  }

  function RowText(row: seq<string>): string {
    Join(EscapedFields(row), ',')
  }

  function RowTexts(rows: seq<seq<string>>): seq<string> {
    seq(|rows|, i requires 0 <= i < |rows| => RowText(rows[i]))
  }

  /** `recordsToCsv`: the header row, then one row per record, each ended by a line break. */
  function ToCsv(rows: seq<seq<string>>): string {
    Join(RowTexts(rows), '\n') + "\n"
  }

  // ---- Reading ----

  datatype Read<T> = Read(value: T, rest: string)

  /** The inside of a quoted field: a doubled quote stands for one, a single one ends the field. */
  function ReadQuoted(s: string): Option<Read<string>> {
    if s == "" then None
    else if s[0] != '"' then
      var r := ReadQuoted(s[1..]);
      if r.None? then None else Some(Read([s[0]] + r.value.value, r.value.rest))
    else if |s| > 1 && s[1] == '"' then
      var r := ReadQuoted(s[2..]);
      if r.None? then None else Some(Read("\"" + r.value.value, r.value.rest))
    else Some(Read("", s[1..]))
  }

  /** An unquoted field runs to a comma or line break and holds no quote. */
  function ReadPlain(s: string): Option<Read<string>> {
    if s == "" || s[0] in {',', '\n'} then Some(Read("", s))
    else if s[0] == '"' then None
    else
      var r := ReadPlain(s[1..]);
      if r.None? then None else Some(Read([s[0]] + r.value.value, r.value.rest))
  }

  function ReadField(s: string): (r: Option<Read<string>>)
    ensures r.Some? ==> |r.value.rest| <= |s|
  {
    if s != "" && s[0] == '"' then QuotedShrinks(s[1..]); ReadQuoted(s[1..]) else PlainShrinks(s); ReadPlain(s)
  }

  lemma {:induction false} QuotedShrinks(s: string)
    ensures ReadQuoted(s).Some? ==> |ReadQuoted(s).value.rest| < |s|
  {
    if s != "" {
      if s[0] != '"' { QuotedShrinks(s[1..]); } else if |s| > 1 && s[1] == '"' { QuotedShrinks(s[2..]); }
    }
  }

  lemma {:induction false} PlainShrinks(s: string)
    ensures ReadPlain(s).Some? ==> |ReadPlain(s).value.rest| <= |s|
  {
    if s != "" && s[0] !in {',', '\n'} { PlainShrinks(s[1..]); }
  }

  function ReadRow(s: string): (r: Option<Read<seq<string>>>)
    ensures r.Some? ==> |r.value.rest| <= |s|
    decreases |s|
  {
    var f := ReadField(s);
    if f.None? then None
    else if f.value.rest != "" && f.value.rest[0] == ',' then
      var more := ReadRow(f.value.rest[1..]);
      if more.None? then None else Some(Read([f.value.value] + more.value.value, more.value.rest))
    else if f.value.rest == "" || f.value.rest[0] == '\n' then Some(Read([f.value.value], f.value.rest))
    else None
  }

  /** The last row may or may not have a line break. */
  function ReadCsv(s: string): Option<seq<seq<string>>>
    decreases |s|
  {
    var row := ReadRow(s);
    if row.None? then None
    else if |row.value.rest| <= 1 then Some([row.value.value])
    else
      var more := ReadCsv(row.value.rest[1..]);
      if more.None? then None else Some([row.value.value] + more.value)
  }

  // ---- Round trip ----

  /** What may follow a field: nothing, the next field, or the next row. */
  predicate EndsField(t: string) {
    t == "" || t[0] in {',', '\n'}
  }

  lemma {:induction false} QuotedRead(s: string, t: string)
    requires EndsField(t)
    ensures ReadQuoted(Doubled(s) + "\"" + t) == Some(Read(s, t))
  {
    var text := Doubled(s) + "\"" + t;
    if s == "" {
      assert text == "\"" + t && text[1..] == t;
    } else {
      QuotedRead(s[1..], t);
      var tail := Doubled(s[1..]) + "\"" + t;
      if s[0] == '"' {
        assert text == "\"\"" + tail && text[2..] == tail;
        assert "\"" + s[1..] == s;
      } else {
        assert text == [s[0]] + tail && text[1..] == tail;
        assert [s[0]] + s[1..] == s;
      }
    }
  }

  lemma {:induction false} PlainRead(s: string, t: string)
    requires EndsField(t) && ',' !in s && '"' !in s && '\n' !in s
    ensures ReadPlain(s + t) == Some(Read(s, t))
  {
    if s == "" {
      assert s + t == t;
    } else {
      PlainRead(s[1..], t);
      assert (s + t)[1..] == s[1..] + t && (s + t)[0] == s[0];
      assert s[0] in s && [s[0]] + s[1..] == s;
    }
  }

  lemma FieldRead(s: string, t: string)
    requires EndsField(t)
    ensures ReadField(EscapeCsvField(s) + t) == Some(Read(s, t))
  {
    hide ReadQuoted, ReadPlain, Doubled;
    if ',' in s || '"' in s || '\n' in s {
      QuotedRead(s, t);
      assert (EscapeCsvField(s) + t)[1..] == Doubled(s) + "\"" + t;
    } else {
      PlainRead(s, t);
      if s == "" {
        assert s + t == t;
      } else {
        assert (s + t)[0] == s[0] && s[0] in s;
      }
    }
  }

  lemma {:induction false} RowRead(row: seq<string>, t: string)
    requires row != [] && (t == "" || t[0] == '\n')
    ensures ReadRow(RowText(row) + t) == Some(Read(row, t))
  {
    hide ReadField, EscapeCsvField;
    if |row| == 1 {
      FieldRead(row[0], t);
      assert row == [row[0]];
    } else {
      var rest := RowText(row[1..]) + t;
      assert EscapedFields(row)[1..] == EscapedFields(row[1..]);
      assert RowText(row) + t == EscapeCsvField(row[0]) + ([','] + rest);
      FieldRead(row[0], [','] + rest);
      assert ([','] + rest)[1..] == rest;
      RowRead(row[1..], t);
      assert [row[0]] + row[1..] == row;
    }
  }

  /** Reading the exported text gives back every field of every row, whatever commas, quotes and newlines they hold. */
  lemma {:induction false} CsvRoundTrip(rows: seq<seq<string>>)
    requires rows != [] && forall i :: 0 <= i < |rows| ==> rows[i] != []
    ensures ReadCsv(ToCsv(rows)) == Some(rows)
  {
    hide ReadRow, RowText;
    if |rows| == 1 {
      RowRead(rows[0], "\n");
      assert rows == [rows[0]];
    } else {
      var rest := ToCsv(rows[1..]);
      assert RowTexts(rows)[1..] == RowTexts(rows[1..]);
      assert ToCsv(rows) == RowText(rows[0]) + (['\n'] + rest);
      RowRead(rows[0], ['\n'] + rest);
      assert (['\n'] + rest)[1..] == rest && |rest| > 0;
      CsvRoundTrip(rows[1..]);
      assert [rows[0]] + rows[1..] == rows;
    }
  }

  /** Two different tables never export to the same text. */
  lemma CsvInjective(a: seq<seq<string>>, b: seq<seq<string>>)
    requires a != [] && b != [] && ToCsv(a) == ToCsv(b)
    requires (forall i :: 0 <= i < |a| ==> a[i] != []) && (forall i :: 0 <= i < |b| ==> b[i] != [])
    ensures a == b
  {
    hide ToCsv, ReadCsv;
    CsvRoundTrip(a);
    CsvRoundTrip(b);
  }
}
