/** Which lines collector/git.ts takes for headers, raw lines and counts, and what they can put into a commit. */
module GitLogLines {
  import opened Text
  import opened GitLog
  import opened GitLogRoundTrip

  lemma {:induction false} TakeThenDrop(s: string, p: char -> bool)
    ensures s == TakeWhile(s, p) + DropWhile(s, p)
  {
    if s != "" && p(s[0]) {
      TakeThenDrop(s[1..], p);
      assert s == [s[0]] + s[1..];
    }
  }

  lemma FieldOnly(s: string, p: char -> bool, end: char)
    requires DropField(s, p, end).Some?
    ensures TakeWhile(s, p) != "" && s == Field(TakeWhile(s, p), end, DropField(s, p, end).value)
  {
    TakeThenDrop(s, p);
    var rest := DropWhile(s, p);
    assert rest == [end] + rest[1..];
  }

  function Regular(m: RawMeta, letter: char, rest: string): string {
    [':'] + Field(m.oldMode, ' ', Field(m.newMode, ' ', Field(m.oldObject, ' ', Field(m.newObject, ' ',
      [letter] + Field(m.score, '\t', rest)))))
  }

  /** A line taken for a raw line is one: colon, two modes, two object names, one of five letters, a score, a tab, a text. */
  lemma RawOnly(s: string) returns (m: RawMeta, letter: char)
    requires MatchRaw(s).Some?
    ensures m.Valid() && IsText(MatchRaw(s).value.rest) && s == Regular(m, letter, MatchRaw(s).value.rest)
    ensures match MatchRaw(s).value.status
            case Added => letter == 'A'
            case Modified => letter == 'M'
            case Deleted => letter == 'D'
            case RenamedFile => letter == 'R'
            case Copied => letter == 'C'
            case _ => false
  {
    hide DropField, DropWhile, TakeWhile, IsText;
    var s1 := s[1..];
    FieldOnly(s1, IsDigit, ' ');
    var s2 := DropField(s1, IsDigit, ' ').value;
    FieldOnly(s2, IsDigit, ' ');
    var s3 := DropField(s2, IsDigit, ' ').value;
    FieldOnly(s3, IsHex, ' ');
    var s4 := DropField(s3, IsHex, ' ').value;
    FieldOnly(s4, IsHex, ' ');
    var s5 := DropField(s4, IsHex, ' ').value;
    TakeThenDrop(s5[1..], IsDigit);
    var rest := DropWhile(s5[1..], IsDigit);
    letter := s5[0];
    m := RawMeta(TakeWhile(s1, IsDigit), TakeWhile(s2, IsDigit), TakeWhile(s3, IsHex), TakeWhile(s4, IsHex),
                 TakeWhile(s5[1..], IsDigit), "", "", false);
    assert rest == ['\t'] + rest[1..];
    assert s5[1..] == Field(m.score, '\t', rest[1..]);
    assert s5 == [letter] + s5[1..];
    assert s == [':'] + s1;
  }

  /** A count is a dash, worth nothing, or a decimal numeral, and a tab follows. */
  lemma CountOnly(s: string) returns (text: string)
    requires MatchCount(s).Some?
    ensures s == Field(text, '\t', MatchCount(s).value.rest)
    ensures text == "-" || (text != "" && AllDigits(text))
    ensures MatchCount(s).value.value == if AllDigits(text) then ParseDecimal(text) else 0
  {
    if |s| >= 2 && s[0] == '-' && s[1] == '\t' {
      text := "-";
      assert s == "-" + ['\t'] + s[2..];
    } else {
      text := TakeWhile(s, IsDigit);
      FieldOnly(s, IsDigit, '\t');
    }
  }

  /** A line taken for counts is two of them and a path. */
  lemma NumStatOnly(s: string) returns (insertions: string, deletions: string)
    requires MatchNumStat(s).Some?
    ensures IsText(MatchNumStat(s).value.path)
    ensures s == Field(insertions, '\t', Field(deletions, '\t', MatchNumStat(s).value.path))
    ensures AllDigits(insertions) || insertions == "-"
    ensures AllDigits(deletions) || deletions == "-"
    ensures MatchNumStat(s).value.insertions == if AllDigits(insertions) then ParseDecimal(insertions) else 0
    ensures MatchNumStat(s).value.deletions == if AllDigits(deletions) then ParseDecimal(deletions) else 0
  {
    hide MatchCount, IsText;
    insertions := CountOnly(s);
    deletions := CountOnly(MatchCount(s).value.rest);
  }

  // ---- What a header can put into a commit ----

  lemma {:induction false} TrimmedPart(s: string, c: char)
    requires c in TrimStart(s) || c in TrimEnd(s)
    ensures c in s
    decreases |s|
  {
    if s != "" {
      if IsSpace(s[0]) && c in TrimStart(s) { TrimmedPart(s[1..], c); }
      else if IsSpace(s[|s| - 1]) && c in TrimEnd(s) { TrimmedPart(s[..|s| - 1], c); }
    }
  }

  predicate Clean(s: string) {
    forall c :: c in s ==> '\U{0020}' <= c && c != '\U{007F}'
  }

  ghost predicate SixToFortyHex(s: string) {
    6 <= |s| <= 40 && forall i :: 0 <= i < |s| ==> s[i] in "0123456789abcdef"
  }

  /** The field as it stands when it has no control characters and no white space around it. */
  ghost predicate FromField(value: string, parts: seq<string>, i: nat) {
    Plain(PartOr(parts, i)) ==> value == PartOr(parts, i)
  }

  lemma KeptWhenPlain(s: string)
    ensures Plain(s) ==> SanitizeField(s) == s
  {
    if Plain(s) { PlainSurvives(s); }
  }

  /** No control character survives. */
  lemma SanitizedIsClean(value: string)
    ensures Clean(SanitizeField(value))
  {
    var spaced := seq(|value|, i requires 0 <= i < |value| => if IsControl(value[i]) then ' ' else value[i]);
    forall c | c in SanitizeField(value) ensures c in spaced {
      TrimmedPart(TrimStart(spaced), c);
      TrimmedPart(spaced, c);
    }
  }

  /**
   * A header line is taken exactly when its second field is a hash of 6 to 40 hex digits and its fifth a date that
   * parses; whatever it holds, no control character gets into the email, the name or the subject.
   */
  lemma HeaderExactly(line: string, dateParses: string -> bool)
    ensures var parts := Split(line, '\0');
            ParseHeaderLine(line, dateParses).Some? <==> |parts| > 1 && SixToFortyHex(parts[1]) && dateParses(Trim(PartOr(parts, 4)))
    ensures var header := ParseHeaderLine(line, dateParses);
            header.Some? ==>
              && header.value.hash == Split(line, '\0')[1] && header.value.files == []
              && Clean(header.value.email) && Clean(header.value.name) && Clean(header.value.subject)
              && FromField(header.value.email, Split(line, '\0'), 2) && FromField(header.value.name, Split(line, '\0'), 3)
  {
    hide Split, SanitizeField, Trim, Clean, Plain;
    KeptWhenPlain(PartOr(Split(line, '\0'), 2));
    KeptWhenPlain(PartOr(Split(line, '\0'), 3));
    var parts := Split(line, '\0');
    HexExactly(PartOr(parts, 1));
    SanitizedIsClean(PartOr(parts, 2));
    SanitizedIsClean(PartOr(parts, 3));
    SanitizedIsClean(Join(if |parts| > 5 then parts[5..] else [], '\0'));
  }
}
