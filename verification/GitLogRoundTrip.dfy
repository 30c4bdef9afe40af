/** Printing commits in the layout collector/git.ts asks of `git log`, and parsing them back. */
module GitLogRoundTrip {
  import opened Text
  import opened Commits
  import opened GitLog

  /**
   * What the lines of one file show besides the change itself: modes and object names, any digits and any
   * hex; the similarity score and the two names of a rename or copy; and whether the file is binary.
   */
  datatype RawMeta = RawMeta(oldMode: string, newMode: string, oldObject: string, newObject: string,
                             score: string, from: string, to: string, binary: bool) {
    predicate Valid() {
      && oldMode != "" && AllOf(oldMode, IsDigit) && newMode != "" && AllOf(newMode, IsDigit)
      && oldObject != "" && AllOf(oldObject, IsHex) && newObject != "" && AllOf(newObject, IsHex)
      && AllOf(score, IsDigit)
    }
  }

  function Field(word: string, end: char, rest: string): string {
    word + [end] + rest
  }

  /** `%x00%H%x00%ae%x00%an%x00%aI%x00%s` */
  function HeaderLine(c: Commit): string {
    ['\0'] + Field(c.hash, '\0', Field(c.email, '\0', Field(c.name, '\0', Field(c.date, '\0', c.subject))))
  }

  function StatusLetter(s: FileStatus): char {
    match s
    case Added => 'A'
    case Deleted => 'D'
    case RenamedFile => 'R'
    case Copied => 'C'
    case _ => 'M'
  }

  predicate Moved(f: FileChange) {
    f.status in {RenamedFile, Copied}
  }

  /** The end of a raw line: the path, or both names of a rename or copy. */
  function Shown(f: FileChange, m: RawMeta): string {
    if Moved(f) then Field(m.from, '\t', m.to) else f.path
  }

  function RawLine(f: FileChange, m: RawMeta): string {
    [':'] + Field(m.oldMode, ' ', Field(m.newMode, ' ', Field(m.oldObject, ' ', Field(m.newObject, ' ',
      [StatusLetter(f.status)] + Field(m.score, '\t', Shown(f, m))))))
  }

  /** Binary files have no counts. */
  function CountText(n: nat, binary: bool): string {
    if binary then "-" else Decimal(n)
  }

  function NumStatLine(f: FileChange, m: RawMeta): string {
    Field(CountText(f.insertions, m.binary), '\t', Field(CountText(f.deletions, m.binary), '\t', f.path))
  }

  function RawLines(files: seq<FileChange>, meta: string -> RawMeta): seq<string> {
    seq(|files|, i requires 0 <= i < |files| => RawLine(files[i], meta(files[i].path)))
  }

  function NumStatLines(files: seq<FileChange>, meta: string -> RawMeta): seq<string> {
    seq(|files|, i requires 0 <= i < |files| => NumStatLine(files[i], meta(files[i].path)))
  }

  /** A commit without changed files is its header alone. */
  function CommitLines(c: Commit, meta: string -> RawMeta): seq<string> {
    [HeaderLine(c)] + if c.files == [] then [] else [""] + RawLines(c.files, meta) + NumStatLines(c.files, meta)
  }

  function AllLines(commits: seq<Commit>, meta: string -> RawMeta): seq<string> {
    if commits == [] then []
    else AllLines(commits[..|commits| - 1], meta) + CommitLines(commits[|commits| - 1], meta)
  }

  function Unlines(lines: seq<string>): string {
    if lines == [] then "" else Field(lines[0], '\n', Unlines(lines[1..]))
  }

  function PrintLog(commits: seq<Commit>, meta: string -> RawMeta): string {
    Unlines(AllLines(commits, meta))
  }

  // ---- What can be printed ----

  predicate Plain(s: string) {
    Trimmed(s) && forall i :: 0 <= i < |s| ==> !IsControl(s[i])
  }

  /** A non-empty path on one line that does not end in white space; tabs, spaces and arrows are allowed. */
  predicate PrintablePath(path: string) {
    IsText(path) && !IsSpace(path[|path| - 1])
  }

  /** The counted path is free: a rename shows there as git likes, with an arrow or with braces. */
  predicate PrintableFile(f: FileChange, m: RawMeta) {
    && PrintablePath(f.path)
    && f.status in {Added, Modified, Deleted, RenamedFile, Copied}
    && (Moved(f) ==> m.from != "" && IsText(m.from) && '\t' !in m.from && PrintablePath(m.to) && '\t' !in m.to)
    && (m.binary ==> f.insertions == 0 && f.deletions == 0)
  }

  predicate PlainHeader(c: Commit, dateParses: string -> bool) {
    && IsHash(c.hash)
    && Plain(c.email) && Plain(c.name) && Plain(c.date) && Plain(c.subject)
    && dateParses(c.date)
  }

  ghost predicate Printable(c: Commit, meta: string -> RawMeta, dateParses: string -> bool) {
    PlainHeader(c, dateParses) && FilesPrintable(c.files, meta)
  }

  ghost predicate FilesPrintable(files: seq<FileChange>, meta: string -> RawMeta) {
    forall i :: 0 <= i < |files| ==> PrintableFile(files[i], meta(files[i].path))
  }

  // ---- Lines back from the text ----

  lemma {:induction false} SplitUnlines(lines: seq<string>)
    requires forall i :: 0 <= i < |lines| ==> '\n' !in lines[i]
    ensures Split(Unlines(lines), '\n') == lines + [""]
  {
    if lines != [] {
      SplitUnlines(lines[1..]);
      SplitWord(lines[0], Unlines(lines[1..]), '\n');
      assert [lines[0]] + (lines[1..] + [""]) == lines + [""];
    }
  }

  lemma PlainHasNoNewline(s: string)
    requires Plain(s) || AllOf(s, IsHex)
    ensures '\n' !in s && '\0' !in s
  {
  }

  lemma HeaderIsOneLine(c: Commit, dateParses: string -> bool)
    requires PlainHeader(c, dateParses)
    ensures '\n' !in HeaderLine(c)
  {
    PlainHasNoNewline(c.hash);
    PlainHasNoNewline(c.email);
    PlainHasNoNewline(c.name);
    PlainHasNoNewline(c.date);
    PlainHasNoNewline(c.subject);
  }

  lemma RawIsOneLine(f: FileChange, m: RawMeta)
    requires PrintableFile(f, m) && m.Valid()
    ensures '\n' !in RawLine(f, m)
  {
    assert '\n' !in Shown(f, m);
    assert '\n' !in m.oldMode && '\n' !in m.newMode && '\n' !in m.score;
    assert '\n' !in m.oldObject && '\n' !in m.newObject;
  }

  lemma NumStatIsOneLine(f: FileChange, m: RawMeta)
    requires PrintablePath(f.path)
    ensures '\n' !in NumStatLine(f, m)
  {
    assert '\n' !in f.path;
    assert '\n' !in Decimal(f.insertions) && '\n' !in Decimal(f.deletions);
  }

  lemma CommitIsLines(c: Commit, meta: string -> RawMeta, dateParses: string -> bool)
    requires Printable(c, meta, dateParses) && forall p :: meta(p).Valid()
    ensures forall i :: 0 <= i < |CommitLines(c, meta)| ==> '\n' !in CommitLines(c, meta)[i]
  {
    hide RawLine, NumStatLine, HeaderLine, PrintablePath, RawMeta.Valid, PlainHeader;
    HeaderIsOneLine(c, dateParses);
    forall i | 0 <= i < |c.files|
      ensures '\n' !in RawLines(c.files, meta)[i] && '\n' !in NumStatLines(c.files, meta)[i]
    {
      RawIsOneLine(c.files[i], meta(c.files[i].path));
      assert PrintableFile(c.files[i], meta(c.files[i].path));
      NumStatIsOneLine(c.files[i], meta(c.files[i].path));
    }
  }

  lemma {:induction false} LogIsLines(commits: seq<Commit>, meta: string -> RawMeta, dateParses: string -> bool)
    requires forall i :: 0 <= i < |commits| ==> Printable(commits[i], meta, dateParses)
    requires forall p :: meta(p).Valid()
    ensures forall i :: 0 <= i < |AllLines(commits, meta)| ==> '\n' !in AllLines(commits, meta)[i]
  {
    hide Printable, CommitLines, RawMeta.Valid;
    if commits != [] {
      LogIsLines(commits[..|commits| - 1], meta, dateParses);
      CommitIsLines(commits[|commits| - 1], meta, dateParses);
    }
  }

  // ---- One line at a time ----

  lemma {:induction false} FieldTaken(word: string, end: char, rest: string, p: char -> bool)
    requires AllOf(word, p) && !p(end)
    ensures TakeWhile(Field(word, end, rest), p) == word
    ensures DropWhile(Field(word, end, rest), p) == [end] + rest
  {
    if word == "" {
      assert Field(word, end, rest) == [end] + rest;
    } else {
      FieldTaken(word[1..], end, rest, p);
      assert Field(word, end, rest)[1..] == Field(word[1..], end, rest);
    }
  }

  lemma FieldDropped(word: string, end: char, rest: string, p: char -> bool)
    requires word != "" && AllOf(word, p) && !p(end)
    ensures DropField(Field(word, end, rest), p, end) == Some(rest)
  {
    FieldTaken(word, end, rest, p);
    assert ([end] + rest)[1..] == rest;
  }

  lemma RawMatches(f: FileChange, m: RawMeta)
    requires PrintableFile(f, m) && m.Valid()
    ensures MatchRaw(RawLine(f, m)) == Some(RawDiff(f.status, Shown(f, m)))
  {
    ShownIsText(f, m);
    hide DropField, DropWhile, TakeWhile, Field, IsText, Shown;
    var tail := Field(m.score, '\t', Shown(f, m));
    var end := [StatusLetter(f.status)] + tail;
    var d := Field(m.newObject, ' ', end);
    var c := Field(m.oldObject, ' ', d);
    var b := Field(m.newMode, ' ', c);
    var a := Field(m.oldMode, ' ', b);
    assert RawLine(f, m)[1..] == a;
    FieldDropped(m.oldMode, ' ', b, IsDigit);
    FieldDropped(m.newMode, ' ', c, IsDigit);
    FieldDropped(m.oldObject, ' ', d, IsHex);
    FieldDropped(m.newObject, ' ', end, IsHex);
    assert end[1..] == tail;
    FieldTaken(m.score, '\t', Shown(f, m), IsDigit);
    assert (['\t'] + Shown(f, m))[1..] == Shown(f, m);
  }

  lemma ShownIsText(f: FileChange, m: RawMeta)
    requires PrintableFile(f, m)
    ensures IsText(Shown(f, m)) && !IsSpace(Shown(f, m)[|Shown(f, m)| - 1])
  {
  }

  lemma CountMatches(n: nat, binary: bool, rest: string)
    requires binary ==> n == 0
    ensures MatchCount(Field(CountText(n, binary), '\t', rest)) == Some(Count(n, rest))
    ensures Field(CountText(n, binary), '\t', rest)[0] == '-' || IsDigit(Field(CountText(n, binary), '\t', rest)[0])
  {
    var s := Field(CountText(n, binary), '\t', rest);
    if binary {
      assert s[2..] == rest;
    } else {
      FieldTaken(Decimal(n), '\t', rest, IsDigit);
      FieldDropped(Decimal(n), '\t', rest, IsDigit);
      ParseDecimalInverts(n);
      assert s[0] == Decimal(n)[0] && IsDigit(s[0]);
    }
  }

  lemma NumStatMatches(f: FileChange, m: RawMeta)
    requires PrintablePath(f.path) && (m.binary ==> f.insertions == 0 && f.deletions == 0)
    ensures MatchNumStat(NumStatLine(f, m)) == Some(NumStat(f.insertions, f.deletions, f.path))
    ensures NumStatLine(f, m)[0] == '-' || IsDigit(NumStatLine(f, m)[0])
  {
    hide MatchCount, CountText;
    CountMatches(f.insertions, m.binary, Field(CountText(f.deletions, m.binary), '\t', f.path));
    CountMatches(f.deletions, m.binary, f.path);
  }

  /** A line that starts and ends with something visible, and not with NUL, is absorbed as it stands. */
  lemma VisibleLine(st: State, line: string, dateParses: string -> bool)
    requires st.current.Some? && line != "" && !IsSpace(line[0]) && line[0] != '\0' && !IsSpace(line[|line| - 1])
    ensures NextState(st, line, dateParses) == Absorb(st, line) && Emitted(st, line) == None
  {
    hide Absorb, ParseHeaderLine, Finished;
    TrimmedStays(line);
  }

  /** What a raw line notes: the status of its path, or of both names of a rename or copy. */
  function Noted(status: map<string, FileStatus>, f: FileChange, m: RawMeta): map<string, FileStatus> {
    if Moved(f) then status[m.from := f.status][m.to := f.status] else status[f.path := f.status]
  }

  lemma RawAbsorbed(st: State, f: FileChange, m: RawMeta, dateParses: string -> bool)
    requires st.current.Some? && m.Valid() && PrintableFile(f, m)
    ensures NextState(st, RawLine(f, m), dateParses) == st.(status := Noted(st.status, f, m))
    ensures Emitted(st, RawLine(f, m)) == None
  {
    var line := RawLine(f, m);
    ShownIsText(f, m);
    assert line[0] == ':' && line[|line| - 1] == Shown(f, m)[|Shown(f, m)| - 1];
    RawMatches(f, m);
    NamesNoted(st.status, f, m);
    hide MatchRaw, RawMeta.Valid, NextState, Emitted, RawLine, NoteRaw, Noted;
    VisibleLine(st, line, dateParses);
  }

  lemma NamesNoted(status: map<string, FileStatus>, f: FileChange, m: RawMeta)
    requires PrintableFile(f, m)
    ensures NoteRaw(status, RawDiff(f.status, Shown(f, m))) == Noted(status, f, m)
  {
    if Moved(f) {
      SplitWord(m.from, m.to, '\t');
      SplitNone(m.to, '\t');
      assert Shown(f, m)[|m.from|] == '\t';
    }
  }

  /** A file with the status the parser finds for its path, or for what follows an arrow in it. */
  function Told(f: FileChange, status: map<string, FileStatus>): FileChange {
    f.(status := LookUp(status, f.path, AfterArrow(f.path)))
  }

  lemma NumStatAbsorbed(st: State, f: FileChange, m: RawMeta, dateParses: string -> bool)
    requires st.current.Some? && PrintableFile(f, m)
    ensures NextState(st, NumStatLine(f, m), dateParses)
         == st.(current := Some(st.current.value.(files := st.current.value.files + [Told(f, st.status)])))
    ensures Emitted(st, NumStatLine(f, m)) == None
  {
    hide MatchNumStat, NextState, Emitted, AfterArrow, CountText;
    var line := NumStatLine(f, m);
    NumStatMatches(f, m);
    assert line[|line| - 1] == f.path[|f.path| - 1];
    VisibleLine(st, line, dateParses);
  }

  lemma PlainSurvives(s: string)
    requires Plain(s)
    ensures SanitizeField(s) == s && Trim(s) == s
  {
    TrimmedStays(s);
    var spaced := seq(|s|, i requires 0 <= i < |s| => if IsControl(s[i]) then ' ' else s[i]);
    assert spaced == s;
  }

  lemma HeaderSplits(c: Commit, dateParses: string -> bool)
    requires PlainHeader(c, dateParses)
    ensures Split(HeaderLine(c), '\0') == ["", c.hash, c.email, c.name, c.date, c.subject]
  {
    hide Plain, IsHash;
    var d := Field(c.date, '\0', c.subject);
    var n := Field(c.name, '\0', d);
    var e := Field(c.email, '\0', n);
    var h := Field(c.hash, '\0', e);
    assert IsHash(c.hash) && AllOf(c.hash, IsHex) by { HashIsHex(c.hash); }
    PlainHasNoNewline(c.hash);
    PlainHasNoNewline(c.email);
    PlainHasNoNewline(c.name);
    PlainHasNoNewline(c.date);
    PlainHasNoNewline(c.subject);
    assert HeaderLine(c) == "" + ['\0'] + h;
    SplitWord("", h, '\0');
    SplitWord(c.hash, e, '\0');
    SplitWord(c.email, n, '\0');
    SplitWord(c.name, d, '\0');
    SplitWord(c.date, c.subject, '\0');
    SplitNone(c.subject, '\0');
  }

  lemma HashIsHex(s: string)
    requires IsHash(s)
    ensures AllOf(s, IsHex)
  {
  }

  lemma HeaderParses(c: Commit, dateParses: string -> bool)
    requires PlainHeader(c, dateParses)
    ensures ParseHeaderLine(HeaderLine(c), dateParses) == Some(c.(files := []))
  {
    hide Split, HeaderLine, SanitizeField, Trim, Plain;
    HeaderSplits(c, dateParses);
    PlainSurvives(c.email);
    PlainSurvives(c.name);
    PlainSurvives(c.date);
    PlainSurvives(c.subject);
    var parts := Split(HeaderLine(c), '\0');
    assert parts[5..] == [c.subject];
  }

  lemma HeaderStarts(st: State, c: Commit, dateParses: string -> bool)
    requires PlainHeader(c, dateParses)
    ensures NextState(st, HeaderLine(c), dateParses) == State(Some(c.(files := [])), map[])
    ensures Emitted(st, HeaderLine(c)) == Finished(st)
  {
    hide ParseHeaderLine, Split, PlainHeader, Trim;
    var line := HeaderLine(c);
    assert line[0] == '\0' && line[|line| - 1] == (if c.subject == "" then '\0' else c.subject[|c.subject| - 1]);
    SubjectTrimmed(c, dateParses);
    TrimmedStays(line);
    HeaderParses(c, dateParses);
  }

  lemma SubjectTrimmed(c: Commit, dateParses: string -> bool)
    requires PlainHeader(c, dateParses)
    ensures Trimmed(c.subject)
  {
  }

  // ---- One commit at a time ----

  /** What the raw lines of a commit note, the later ones last. */
  function StatusesOf(files: seq<FileChange>, meta: string -> RawMeta): map<string, FileStatus> {
    if files == [] then map[]
    else
      var last := files[|files| - 1];
      Noted(StatusesOf(files[..|files| - 1], meta), last, meta(last.path))
  }

  function ToldAll(files: seq<FileChange>, status: map<string, FileStatus>): seq<FileChange> {
    seq(|files|, i requires 0 <= i < |files| => Told(files[i], status))
  }

  /** A commit as its lines tell it. */
  function AsTold(c: Commit, meta: string -> RawMeta): Commit {
    c.(files := ToldAll(c.files, StatusesOf(c.files, meta)))
  }

  function AllAsTold(commits: seq<Commit>, meta: string -> RawMeta): seq<Commit> {
    seq(|commits|, i requires 0 <= i < |commits| => AsTold(commits[i], meta))
  }

  /** Reading on from where a first batch of lines stopped. */
  lemma {:induction false} ReadOn(st: State, a: seq<string>, b: seq<string>, dateParses: string -> bool)
    ensures After(st, a + b, dateParses) == After(After(st, a, dateParses), b, dateParses)
    ensures Completed(st, a + b, dateParses)
         == Completed(st, a, dateParses) + Completed(After(st, a, dateParses), b, dateParses)
  {
    hide NextState, Emitted, Listed;
    if b == [] {
      assert a + b == a;
    } else {
      var front := b[..|b| - 1];
      ReadOn(st, a, front, dateParses);
      assert (a + b)[..|a + b| - 1] == a + front;
    }
  }

  lemma ReadOne(st: State, line: string, dateParses: string -> bool)
    ensures After(st, [line], dateParses) == NextState(st, line, dateParses)
    ensures Completed(st, [line], dateParses) == Listed(Emitted(st, line))
  {
    hide NextState, Emitted;
    assert [line][..0] == [];
    assert After(st, [], dateParses) == st;
  }

  lemma ReadNone(st: State, dateParses: string -> bool)
    ensures After(st, [], dateParses) == st && Completed(st, [], dateParses) == []
  {
  }

  lemma {:induction false} ReadRaws(st: State, files: seq<FileChange>, meta: string -> RawMeta, dateParses: string -> bool)
    requires st.current.Some? && st.status == map[] && FilesPrintable(files, meta) && forall p :: meta(p).Valid()
    ensures After(st, RawLines(files, meta), dateParses) == st.(status := StatusesOf(files, meta))
    ensures Completed(st, RawLines(files, meta), dateParses) == []
  {
    hide NextState, Emitted, RawLine, RawMeta.Valid, PrintableFile, After, Completed, Noted;
    if files == [] {
      ReadNone(st, dateParses);
    } else {
      var front, last := files[..|files| - 1], files[|files| - 1];
      ReadRaws(st, front, meta, dateParses);
      var line := RawLine(last, meta(last.path));
      assert RawLines(files, meta) == RawLines(front, meta) + [line];
      assert PrintableFile(files[|files| - 1], meta(files[|files| - 1].path));
      RawAbsorbed(st.(status := StatusesOf(front, meta)), last, meta(last.path), dateParses);
      ReadOn(st, RawLines(front, meta), [line], dateParses);
      ReadOne(After(st, RawLines(front, meta), dateParses), line, dateParses);
    }
  }

  lemma {:induction false} ReadNumStats(st: State, files: seq<FileChange>, meta: string -> RawMeta, dateParses: string -> bool)
    requires st.current.Some? && st.current.value.files == [] && FilesPrintable(files, meta)
    ensures After(st, NumStatLines(files, meta), dateParses)
         == st.(current := Some(st.current.value.(files := ToldAll(files, st.status))))
    ensures Completed(st, NumStatLines(files, meta), dateParses) == []
  {
    hide NextState, Emitted, NumStatLine, PrintableFile, After, Completed, Told;
    if files == [] {
      ReadNone(st, dateParses);
    } else {
      var front, last := files[..|files| - 1], files[|files| - 1];
      ReadNumStats(st, front, meta, dateParses);
      var line := NumStatLine(last, meta(last.path));
      assert NumStatLines(files, meta) == NumStatLines(front, meta) + [line];
      assert ToldAll(files, st.status) == ToldAll(front, st.status) + [Told(last, st.status)];
      assert PrintableFile(files[|files| - 1], meta(files[|files| - 1].path));
      var before := st.(current := Some(st.current.value.(files := ToldAll(front, st.status))));
      NumStatAbsorbed(before, last, meta(last.path), dateParses);
      ReadOn(st, NumStatLines(front, meta), [line], dateParses);
      ReadOne(After(st, NumStatLines(front, meta), dateParses), line, dateParses);
    }
  }

  lemma ReadBlank(st: State, dateParses: string -> bool)
    ensures After(st, [""], dateParses) == st && Completed(st, [""], dateParses) == []
  {
    hide After, Completed;
    ReadOne(st, "", dateParses);
  }

  lemma ReadFiles(st: State, files: seq<FileChange>, meta: string -> RawMeta, dateParses: string -> bool)
    requires st.current.Some? && st.current.value.files == [] && st.status == map[] && FilesPrintable(files, meta)
    requires forall p :: meta(p).Valid()
    ensures var lines, status := [""] + RawLines(files, meta) + NumStatLines(files, meta), StatusesOf(files, meta);
            && After(st, lines, dateParses) == State(Some(st.current.value.(files := ToldAll(files, status))), status)
            && Completed(st, lines, dateParses) == []
  {
    hide After, Completed, RawLines, NumStatLines, StatusesOf, ToldAll, FilesPrintable, RawMeta.Valid;
    ReadBlank(st, dateParses);
    ReadOn(st, [""], RawLines(files, meta), dateParses);
    ReadRaws(st, files, meta, dateParses);
    ReadOn(st, [""] + RawLines(files, meta), NumStatLines(files, meta), dateParses);
    ReadNumStats(st.(status := StatusesOf(files, meta)), files, meta, dateParses);
  }

  /** After a commit's lines the parser holds that commit as they tell it, and has completed what it held before. */
  lemma ReadCommit(st: State, c: Commit, meta: string -> RawMeta, dateParses: string -> bool)
    requires Printable(c, meta, dateParses) && forall p :: meta(p).Valid()
    ensures After(st, CommitLines(c, meta), dateParses) == State(Some(AsTold(c, meta)), StatusesOf(c.files, meta))
    ensures Completed(st, CommitLines(c, meta), dateParses) == Listed(Finished(st))
  {
    hide After, Completed, RawLines, NumStatLines, HeaderLine, NextState, Emitted, Finished, RawMeta.Valid, PlainHeader,
      FilesPrintable;
    HeaderStarts(st, c, dateParses);
    ReadOne(st, HeaderLine(c), dateParses);
    var started := State(Some(c.(files := [])), map[]);
    if c.files == [] {
      assert [HeaderLine(c)] + [] == [HeaderLine(c)];
      assert AsTold(c, meta) == c.(files := []);
    } else {
      var rest := [""] + RawLines(c.files, meta) + NumStatLines(c.files, meta);
      ReadOn(st, [HeaderLine(c)], rest, dateParses);
      ReadFiles(started, c.files, meta, dateParses);
    }
  }

  /** The closing pass fills in nothing more: an unknown status was not noted under the path either. */
  lemma NothingToFill(c: Commit, meta: string -> RawMeta)
    ensures Finished(State(Some(AsTold(c, meta)), StatusesOf(c.files, meta))) == Some(AsTold(c, meta))
  {
    hide StatusesOf, AfterArrow;
    assert FillAll(AsTold(c, meta).files, StatusesOf(c.files, meta)) == AsTold(c, meta).files;
  }

  lemma {:induction false} ReadAll(commits: seq<Commit>, meta: string -> RawMeta, dateParses: string -> bool)
    requires forall i :: 0 <= i < |commits| ==> Printable(commits[i], meta, dateParses)
    requires forall p :: meta(p).Valid()
    ensures CommitsIn(AllLines(commits, meta), dateParses) == AllAsTold(commits, meta)
  {
    hide After, Completed, CommitLines, Printable, RawMeta.Valid, AsTold;
    if commits == [] {
      NothingFed(dateParses);
    } else {
      var front, last := commits[..|commits| - 1], commits[|commits| - 1];
      var lines := AllLines(front, meta);
      ReadAll(front, meta, dateParses);
      ReadOn(START, lines, CommitLines(last, meta), dateParses);
      ReadCommit(After(START, lines, dateParses), last, meta, dateParses);
      NothingToFill(last, meta);
      assert AllAsTold(commits, meta) == AllAsTold(front, meta) + [AsTold(last, meta)];
    }
  }

  /**
   * Printing any list of commits and parsing the text returns the commits with all their files and counts,
   * each file with the status the raw lines tell of it.
   */
  lemma LogReadsBack(commits: seq<Commit>, meta: string -> RawMeta, dateParses: string -> bool)
    requires forall i :: 0 <= i < |commits| ==> Printable(commits[i], meta, dateParses)
    requires forall p :: meta(p).Valid()
    ensures ParseLog(PrintLog(commits, meta), dateParses) == AllAsTold(commits, meta)
  {
    hide CommitsIn, AllLines, Unlines, Split, Printable, RawMeta.Valid;
    var lines := AllLines(commits, meta);
    LogIsLines(commits, meta, dateParses);
    SplitUnlines(lines);
    BlankLine(lines, "", dateParses);
    ReadAll(commits, meta, dateParses);
  }

  // ---- Statuses told right ----

  /** The last raw line that names the file, by its path or by what follows an arrow in it, has its status. */
  ghost predicate ToldRight(c: Commit, meta: string -> RawMeta) {
    forall i :: 0 <= i < |c.files| ==> Told(c.files[i], StatusesOf(c.files, meta)) == c.files[i]
  }

  /** The text gives back exactly the commits printed when every status is told right, and only then. */
  lemma LogRoundTripExactly(commits: seq<Commit>, meta: string -> RawMeta, dateParses: string -> bool)
    requires forall i :: 0 <= i < |commits| ==> Printable(commits[i], meta, dateParses)
    requires forall p :: meta(p).Valid()
    ensures ParseLog(PrintLog(commits, meta), dateParses) == commits
       <==> forall i :: 0 <= i < |commits| ==> ToldRight(commits[i], meta)
  {
    hide ParseLog, PrintLog, Printable, RawMeta.Valid, Told, StatusesOf;
    LogReadsBack(commits, meta, dateParses);
    var told := AllAsTold(commits, meta);
    if told == commits {
      forall i | 0 <= i < |commits| ensures ToldRight(commits[i], meta) {
        assert told[i] == commits[i];
        var files := ToldAll(commits[i].files, StatusesOf(commits[i].files, meta));
        assert forall j :: 0 <= j < |files| ==> files[j] == commits[i].files[j];
      }
    }
    if forall i :: 0 <= i < |commits| ==> ToldRight(commits[i], meta) {
      forall i | 0 <= i < |commits| ensures told[i] == commits[i] {
        assert ToldRight(commits[i], meta);
        assert ToldAll(commits[i].files, StatusesOf(commits[i].files, meta)) == commits[i].files;
      }
    }
  }

  /** The names under which a file's raw line or its counts may be noted. */
  function Names(f: FileChange, m: RawMeta): set<string> {
    if Moved(f) then {f.path, m.from, m.to} else {f.path}
  }

  /** Renames and copies show as `from => to`, and no name is used for two files. */
  ghost predicate Plainly(files: seq<FileChange>, meta: string -> RawMeta) {
    && (forall i :: 0 <= i < |files| && Moved(files[i]) ==> Arrowed(files[i], meta(files[i].path)))
    && (forall i, j :: 0 <= i < j < |files| ==> Names(files[i], meta(files[i].path)) !! Names(files[j], meta(files[j].path)))
  }

  const ARROW := " => "

  ghost predicate Arrowed(f: FileChange, m: RawMeta) {
    f.path == m.from + ARROW + m.to && forall k :: 0 <= k < |m.from| ==> !(ARROW <= f.path[k..])
  }

  lemma {:induction false} ArrowFound(from: string, to: string)
    requires forall k :: 0 <= k < |from| ==> !(ARROW <= (from + ARROW + to)[k..])
    ensures AfterArrow(from + ARROW + to) == to
  {
    var path := from + ARROW + to;
    if from == "" {
      assert path[..4] == ARROW && path[4..] == to;
    } else {
      assert path[1..] == from[1..] + ARROW + to;
      forall k | 0 <= k < |from[1..]| ensures !(ARROW <= (from[1..] + ARROW + to)[k..]) {
        assert path[1..][k..] == path[k + 1..];
        assert !(ARROW <= path[k + 1..]);
      }
      ArrowFound(from[1..], to);
      assert path[0..] == path && !(ARROW <= path[0..]);
    }
  }

  /** A name noted by one file's line only carries that file's status. */
  lemma {:induction false} StatusFound(files: seq<FileChange>, meta: string -> RawMeta, i: nat, name: string)
    requires i < |files| && name in (if Moved(files[i]) then {meta(files[i].path).from, meta(files[i].path).to} else {files[i].path})
    requires forall j :: 0 <= j < |files| && j != i ==> name !in Names(files[j], meta(files[j].path))
    ensures name in StatusesOf(files, meta) && StatusesOf(files, meta)[name] == files[i].status
  {
    var front := files[..|files| - 1];
    assert forall j :: 0 <= j < |front| ==> front[j] == files[j];
    if i < |front| {
      StatusFound(front, meta, i, name);
      assert name !in Names(files[|front|], meta(files[|front|].path));
    }
  }

  lemma {:induction false} StatusMissing(files: seq<FileChange>, meta: string -> RawMeta, name: string)
    requires forall j :: 0 <= j < |files| ==>
      name !in (if Moved(files[j]) then {meta(files[j].path).from, meta(files[j].path).to} else {files[j].path})
    ensures name !in StatusesOf(files, meta)
  {
    if files != [] {
      var front := files[..|files| - 1];
      assert forall j :: 0 <= j < |front| ==> front[j] == files[j];
      StatusMissing(front, meta, name);
    }
  }

  lemma PlainlyTold(c: Commit, meta: string -> RawMeta)
    requires Plainly(c.files, meta)
    ensures ToldRight(c, meta)
  {
    hide StatusesOf, AfterArrow;
    forall i | 0 <= i < |c.files| ensures Told(c.files[i], StatusesOf(c.files, meta)) == c.files[i] {
      PlainlyToldOne(c.files, meta, i);
    }
  }

  lemma PlainlyToldOne(files: seq<FileChange>, meta: string -> RawMeta, i: nat)
    requires Plainly(files, meta) && i < |files|
    ensures Told(files[i], StatusesOf(files, meta)) == files[i]
  {
    hide StatusesOf, AfterArrow;
    var f, m := files[i], meta(files[i].path);
    forall j | 0 <= j < |files| && j != i ensures Names(f, m) !! Names(files[j], meta(files[j].path)) {
    }
    if Moved(f) {
      assert Arrowed(f, m);
      ArrowFound(m.from, m.to);
      StatusFound(files, meta, i, m.to);
      assert |f.path| > |m.from| && |f.path| > |m.to|;
      StatusMissing(files, meta, f.path);
    } else {
      StatusFound(files, meta, i, f.path);
    }
  }

  /** Commits whose renames show plainly, and whose names are not shared, come back exactly; binary files included. */
  lemma LogRoundTrip(commits: seq<Commit>, meta: string -> RawMeta, dateParses: string -> bool)
    requires forall i :: 0 <= i < |commits| ==> Printable(commits[i], meta, dateParses) && Plainly(commits[i].files, meta)
    requires forall p :: meta(p).Valid()
    ensures ParseLog(PrintLog(commits, meta), dateParses) == commits
  {
    hide ParseLog, PrintLog, Printable, RawMeta.Valid, Plainly, ToldRight;
    LogRoundTripExactly(commits, meta, dateParses);
    forall i | 0 <= i < |commits| ensures ToldRight(commits[i], meta) { PlainlyTold(commits[i], meta); }
  }

  /** A rename or copy whose counted path, and what follows an arrow in it, are neither of its names comes out unknown. */
  lemma UnnamedIsUnknown(f: FileChange, meta: string -> RawMeta)
    requires Moved(f)
    requires f.path != meta(f.path).from && f.path != meta(f.path).to
    requires AfterArrow(f.path) != meta(f.path).from && AfterArrow(f.path) != meta(f.path).to
    ensures Told(f, StatusesOf([f], meta)).status == Unknown
  {
    assert [f][..0] == [];
    hide AfterArrow;
  }

  /** So does a rename within a directory, which git shows with braces. */
  lemma BracedRenameIsUnknown(f: FileChange, meta: string -> RawMeta)
    requires f.path == "src/{a => b}.ts" && f.status == RenamedFile
    requires meta(f.path).from == "src/a.ts" && meta(f.path).to == "src/b.ts"
    ensures Told(f, StatusesOf([f], meta)).status == Unknown
  {
    hide StatusesOf, AfterArrow, Told;
    BracedArrow();
    Lengths();
    assert |f.path| == 15 && |meta(f.path).from| == |meta(f.path).to| == 8;
    UnnamedIsUnknown(f, meta);
  }

  lemma Lengths()
    ensures |"src/{a => b}.ts"| == 15 && |"src/a.ts"| == |"src/b.ts"| == 8 && |"b}.ts"| == 5
  {
  }

  lemma BracedArrow()
    ensures AfterArrow("src/{a => b}.ts") == "b}.ts"
  {
    var path := "src/{a => b}.ts";
    assert path == "src/{a" + ARROW + "b}.ts";
    hide AfterArrow;
    forall k | 0 <= k < |"src/{a"| ensures !(ARROW <= path[k..]) {
      assert path[k] == "src/{a"[k] && path[k] != ARROW[0];
    }
    ArrowFound("src/{a", "b}.ts");
  }

  /** A file that a later copy names as its source takes the copy's status. */
  lemma CopySourceIsCopied(f: FileChange, copy: FileChange, meta: string -> RawMeta)
    requires f.status == Modified && copy.status == Copied && meta(copy.path).from == f.path
    ensures Told(f, StatusesOf([f, copy], meta)).status == Copied
  {
    assert [f, copy][..1] == [f] && [f][..0] == [];
    hide AfterArrow;
  }
}
