/** Parsing `git log --raw --numstat`, collector/git.ts: one line at a time, in a batch, or from a stream of chunks. */
module GitLog {
  import opened Text
  import opened Commits

  // ---- Characters and lines ----

  /** What `String.prototype.trim` removes. */
  predicate IsSpace(c: char) {
    || '\t' <= c <= '\r' || c == ' ' || c == '\U{00A0}' || c == '\U{1680}' || '\U{2000}' <= c <= '\U{200A}'
    || c == '\U{2028}' || c == '\U{2029}' || c == '\U{202F}' || c == '\U{205F}' || c == '\U{3000}' || c == '\U{FEFF}'
  }

  function TrimStart(s: string): string {
    if s != "" && IsSpace(s[0]) then TrimStart(s[1..]) else s
  }

  function TrimEnd(s: string): string {
    if s != "" && IsSpace(s[|s| - 1]) then TrimEnd(s[..|s| - 1]) else s
  }

  function Trim(s: string): string {
    TrimEnd(TrimStart(s))
  }

  predicate Trimmed(s: string) {
    s != "" ==> !IsSpace(s[0]) && !IsSpace(s[|s| - 1])
  }

  lemma TrimmedStays(s: string)
    requires Trimmed(s)
    ensures Trim(s) == s
  {
  }

  /** `s.split(sep)`. */
  function Split(s: string, sep: char): (parts: seq<string>)
    ensures |parts| > 0
  {
    if s == "" then [""]
    else
      Prepend(s[0], Split(s[1..], sep), sep)
  }

  /** A word without separators, then a separator: the word is the first part. */
  lemma {:induction false} SplitWord(word: string, rest: string, sep: char)
    requires sep !in word
    ensures Split(word + [sep] + rest, sep) == [word] + Split(rest, sep)
  {
    if word == "" {
      assert "" + [sep] + rest == [sep] + rest;
      assert ([sep] + rest)[1..] == rest;
    } else {
      var tail := word[1..];
      SplitWord(tail, rest, sep);
      assert word + [sep] + rest == [word[0]] + (tail + [sep] + rest);
      assert (word + [sep] + rest)[1..] == tail + [sep] + rest;
      assert [word[0]] + tail == word;
    }
  }

  lemma {:induction false} SplitNone(word: string, sep: char)
    requires sep !in word
    ensures Split(word, sep) == [word]
  {
    if word != "" {
      SplitNone(word[1..], sep);
      assert [word[0]] + word[1..] == word;
    }
  }

  /** Appending text only changes the last part. */
  lemma {:induction false} SplitAppend(a: string, b: string, sep: char)
    ensures var left := Split(a, sep);
            Split(a + b, sep) == left[..|left| - 1] + Split(left[|left| - 1] + b, sep)
  {
    if a == "" {
      assert Split(a, sep)[..0] == [] && "" + b == b;
    } else {
      SplitAppend(a[1..], b, sep);
      assert (a + b)[1..] == a[1..] + b;
      SplitAppendStep(a[0], Split(a[1..], sep), Split(a[1..] + b, sep), b, sep);
    }
  }

  /** What one more character does to a split. */
  function Prepend(c: char, parts: seq<string>, sep: char): seq<string>
    requires |parts| > 0
  {
    if c == sep then [""] + parts else [[c] + parts[0]] + parts[1..]
  }

  lemma SplitAppendStep(c: char, tail: seq<string>, whole: seq<string>, b: string, sep: char)
    requires |tail| > 0 && |whole| > 0 && whole == tail[..|tail| - 1] + Split(tail[|tail| - 1] + b, sep)
    ensures var left := Prepend(c, tail, sep);
            Prepend(c, whole, sep) == left[..|left| - 1] + Split(left[|left| - 1] + b, sep)
  {
    hide Split;
    var left := Prepend(c, tail, sep);
    var end := Split(tail[|tail| - 1] + b, sep);
    if c == sep {
      assert left[..|left| - 1] == [""] + tail[..|tail| - 1];
    } else if |tail| > 1 {
      assert whole[0] == tail[0] && whole[1..] == tail[1..|tail| - 1] + end;
      assert left[..|left| - 1] == [[c] + tail[0]] + tail[1..|tail| - 1];
    } else {
      SplitHead(c, tail[0] + b, sep);
      assert left[0] + b == [c] + (tail[0] + b);
      assert whole == end && left[..|left| - 1] == [];
    }
  }

  lemma SplitHead(c: char, rest: string, sep: char)
    ensures Split([c] + rest, sep) == Prepend(c, Split(rest, sep), sep)
  {
    assert ([c] + rest)[1..] == rest;
  }

  lemma {:induction false} LastPartHasNoSeparator(s: string, sep: char)
    ensures var parts := Split(s, sep); sep !in parts[|parts| - 1]
  {
    if s != "" { LastPartHasNoSeparator(s[1..], sep); }
  }

  // ---- Header lines ----

  predicate IsHeaderLine(line: string) {
    line != "" && line[0] == '\0'
  }

  predicate IsControl(c: char) {
    c <= '\U{001F}' || c == '\U{007F}'
  }

  function SanitizeField(value: string): string {
    Trim(seq(|value|, i requires 0 <= i < |value| => if IsControl(value[i]) then ' ' else value[i]))
  }

  /** `/^[0-9a-f]{6,40}$/`. */
  predicate IsHash(s: string) {
    6 <= |s| <= 40 && AllOf(s, IsHex)
  }

  function PartOr(parts: seq<string>, i: nat): string {
    if i < |parts| then parts[i] else ""
  }

  /** A header line, or None when its hash is not hex or its date does not parse. */
  function ParseHeaderLine(line: string, dateParses: string -> bool): Option<Commit> {
    var parts := Split(line, '\0');
    var hash := PartOr(parts, 1);
    var email := SanitizeField(PartOr(parts, 2));
    var name := SanitizeField(PartOr(parts, 3));
    var date := Trim(PartOr(parts, 4));
    var subject := SanitizeField(Join(if |parts| > 5 then parts[5..] else [], '\0'));
    if !IsHash(hash) || !dateParses(date) then None
    else Some(Commit(hash, email, name, date, subject, []))
  }

  // ---- Raw and numstat lines ----

  function TakeWhile(s: string, p: char -> bool): (w: string)
    ensures AllOf(w, p)
  {
    if s != "" && p(s[0]) then [s[0]] + TakeWhile(s[1..], p) else ""
  }

  function DropWhile(s: string, p: char -> bool): string {
    if s != "" && p(s[0]) then DropWhile(s[1..], p) else s
  }

  /** What follows a non-empty run of `p` and one `end`. */
  function DropField(s: string, p: char -> bool, end: char): Option<string> {
    var rest := DropWhile(s, p);
    if TakeWhile(s, p) != "" && rest != "" && rest[0] == end then Some(rest[1..]) else None
  }

  /** `.+` to the end of the line. */
  predicate IsText(s: string) {
    s != "" && forall i :: 0 <= i < |s| ==> s[i] !in {'\n', '\r', '\U{2028}', '\U{2029}'}
  }

  function StatusOf(c: char): Option<FileStatus> {
    match c
    case 'A' => Some(Added)
    case 'M' => Some(Modified)
    case 'D' => Some(Deleted)
    case 'R' => Some(RenamedFile)
    case 'C' => Some(Copied)
    case _ => None
  }

  datatype RawDiff = RawDiff(status: FileStatus, rest: string)

  /** `RAW_DIFF_RE`: colon, two modes, two object names, a status letter with an optional score, a tab, the path. */
  function MatchRaw(s: string): Option<RawDiff> {
    if s == "" || s[0] != ':' then None else
    var a := DropField(s[1..], IsDigit, ' ');
    if a.None? then None else
    var b := DropField(a.value, IsDigit, ' ');
    if b.None? then None else
    var c := DropField(b.value, IsHex, ' ');
    if c.None? then None else
    var d := DropField(c.value, IsHex, ' ');
    if d.None? || d.value == "" || StatusOf(d.value[0]).None? then None else
    var e := DropWhile(d.value[1..], IsDigit);
    if e != "" && e[0] == '\t' && IsText(e[1..]) then Some(RawDiff(StatusOf(d.value[0]).value, e[1..])) else None
  }

  datatype Count = Count(value: nat, rest: string)

  /** `(\d+|-)\t`; a dash counts as zero. */
  function MatchCount(s: string): Option<Count> {
    if |s| >= 2 && s[0] == '-' && s[1] == '\t' then Some(Count(0, s[2..]))
    else
      var digits := TakeWhile(s, IsDigit);
      var rest := DropField(s, IsDigit, '\t');
      if rest.Some? then Some(Count(ParseDecimal(digits), rest.value)) else None
  }

  datatype NumStat = NumStat(insertions: nat, deletions: nat, path: string)

  function MatchNumStat(s: string): Option<NumStat> {
    var a := MatchCount(s);
    if a.None? then None else
    var b := MatchCount(a.value.rest);
    if b.None? || !IsText(b.value.rest) then None
    else Some(NumStat(a.value.value, b.value.value, b.value.rest))
  }

  /** The text after the first ` => `, or all of it. */
  function AfterArrow(path: string): string {
    if |path| < 4 then path
    else if path[..4] == " => " then path[4..]
    else
      var later := AfterArrow(path[1..]);
      if later == path[1..] then path else later
  }

  // ---- The line parser ----

  datatype State = State(current: Option<Commit>, status: map<string, FileStatus>)

  const START := State(None, map[])

  function LookUp(status: map<string, FileStatus>, path: string, other: string): FileStatus {
    if path in status then status[path] else if other in status then status[other] else Unknown
  }

  function FillStatus(f: FileChange, status: map<string, FileStatus>): FileChange {
    if f.status == Unknown && f.path in status then f.(status := status[f.path]) else f
  }

  function FillAll(files: seq<FileChange>, status: map<string, FileStatus>): seq<FileChange> {
    seq(|files|, i requires 0 <= i < |files| => FillStatus(files[i], status))
  }

  function Finished(st: State): Option<Commit> {
    if st.current.None? then None
    else Some(st.current.value.(files := FillAll(st.current.value.files, st.status)))
  }

  function NoteRaw(status: map<string, FileStatus>, raw: RawDiff): map<string, FileStatus> {
    if raw.status in {RenamedFile, Copied} && '\t' in raw.rest then
      var paths := Split(raw.rest, '\t');
      status[paths[0] := raw.status][PartOr(paths, 1) := raw.status]
    else status[raw.rest := raw.status]
  }

  /** A non-blank line that is no header, inside a commit. */
  function Absorb(st: State, line: string): State
    requires st.current.Some?
  {
    var raw, num := MatchRaw(line), MatchNumStat(line);
    if raw.Some? then st.(status := NoteRaw(st.status, raw.value))
    else if num.Some? then
      var n := num.value;
      var file := FileChange(n.insertions, n.deletions, n.path, LookUp(st.status, n.path, AfterArrow(n.path)));
      st.(current := Some(st.current.value.(files := st.current.value.files + [file])))
    else st
  }

  function NextState(st: State, line: string, dateParses: string -> bool): State {
    var trimmed := Trim(line);
    if trimmed == "" then st
    else if IsHeaderLine(trimmed) then State(ParseHeaderLine(trimmed, dateParses), map[])
    else if st.current.None? then st
    else Absorb(st, trimmed)
  }

  /** The commit a line completes, if any. */
  function Emitted(st: State, line: string): Option<Commit> {
    if IsHeaderLine(Trim(line)) then Finished(st) else None
  }

  function Listed(c: Option<Commit>): seq<Commit> {
    if c.Some? then [c.value] else []
  }

  function After(st: State, lines: seq<string>, dateParses: string -> bool): State {
    if lines == [] then st else NextState(After(st, lines[..|lines| - 1], dateParses), lines[|lines| - 1], dateParses)
  }

  function Completed(st: State, lines: seq<string>, dateParses: string -> bool): seq<Commit> {
    if lines == [] then []
    else
      var front := lines[..|lines| - 1];
      Completed(st, front, dateParses) + Listed(Emitted(After(st, front, dateParses), lines[|lines| - 1]))
  }

  /** The commits in a list of lines. */
  function CommitsIn(lines: seq<string>, dateParses: string -> bool): seq<Commit> {
    Completed(START, lines, dateParses) + Listed(Finished(After(START, lines, dateParses)))
  }

  /** The commits in a text. */
  function ParseLog(output: string, dateParses: string -> bool): seq<Commit> {
    CommitsIn(Split(output, '\n'), dateParses)
  }

  /** A blank line changes nothing. */
  lemma BlankLine(lines: seq<string>, blank: string, dateParses: string -> bool)
    requires Trim(blank) == ""
    ensures CommitsIn(lines + [blank], dateParses) == CommitsIn(lines, dateParses)
  {
    assert (lines + [blank])[..|lines|] == lines;
  }

  lemma FeedLine(fed: seq<string>, line: string, dateParses: string -> bool)
    ensures After(START, fed + [line], dateParses) == NextState(After(START, fed, dateParses), line, dateParses)
    ensures Completed(START, fed + [line], dateParses)
         == Completed(START, fed, dateParses) + Listed(Emitted(After(START, fed, dateParses), line))
  {
    hide NextState, Emitted;
    assert (fed + [line])[..|fed|] == fed;
  }

  lemma NothingFed(dateParses: string -> bool)
    ensures After(START, [], dateParses) == START && Completed(START, [], dateParses) == []
  {
  }

  // ---- The batch parser ----

  lemma {:induction false} AllBlank(lines: seq<string>, dateParses: string -> bool)
    requires forall i :: 0 <= i < |lines| ==> Trim(lines[i]) == ""
    ensures CommitsIn(lines, dateParses) == []
  {
    if lines != [] {
      AllBlank(lines[..|lines| - 1], dateParses);
      assert lines == lines[..|lines| - 1] + [lines[|lines| - 1]];
      BlankLine(lines[..|lines| - 1], lines[|lines| - 1], dateParses);
    }
  }

  lemma {:induction false} SpacesTrim(s: string)
    ensures Trim(s) == "" <==> AllOf(s, IsSpace)
  {
    SpacesTrimStart(s);
    SpacesTrimEnd(TrimStart(s));
  }

  lemma {:induction false} SpacesTrimStart(s: string)
    ensures TrimStart(s) == "" <==> AllOf(s, IsSpace)
    ensures AllOf(TrimStart(s), IsSpace) <==> AllOf(s, IsSpace)
  {
    if s != "" && IsSpace(s[0]) {
      SpacesTrimStart(s[1..]);
      if AllOf(s[1..], IsSpace) {
        forall i | 0 <= i < |s| ensures IsSpace(s[i]) { assert i == 0 || s[i] == s[1..][i - 1]; }
      }
    }
  }

  lemma {:induction false} SpacesTrimEnd(s: string)
    ensures TrimEnd(s) == "" <==> AllOf(s, IsSpace)
  {
    if s != "" && IsSpace(s[|s| - 1]) {
      SpacesTrimEnd(s[..|s| - 1]);
      assert AllOf(s, IsSpace) <==> AllOf(s[..|s| - 1], IsSpace);
    }
  }

  lemma {:induction false} PartsOfSpaces(s: string)
    requires AllOf(s, IsSpace)
    ensures forall i :: 0 <= i < |Split(s, '\n')| ==> AllOf(Split(s, '\n')[i], IsSpace)
  {
    if s != "" { PartsOfSpaces(s[1..]); }
  }

  lemma BlankOutput(output: string, dateParses: string -> bool)
    requires Trim(output) == ""
    ensures ParseLog(output, dateParses) == []
  {
    hide CommitsIn;
    var lines := Split(output, '\n');
    SpacesTrim(output);
    PartsOfSpaces(output);
    forall i | 0 <= i < |lines| ensures Trim(lines[i]) == "" { SpacesTrim(lines[i]); }
    AllBlank(lines, dateParses);
  }

  /** `parseGitLogOutput`. */
  method ParseGitLogOutput(output: string, dateParses: string -> bool) returns (commits: seq<Commit>)
    ensures commits == ParseLog(output, dateParses)
  {
    hide After, Completed, Split, Trim, ParseHeaderLine, Absorb, Finished;
    commits := [];
    if Trim(output) == "" {
      BlankOutput(output, dateParses);
      return;
    }
    var lines := Split(output, '\n');
    var current: Option<Commit> := None;
    var statusMap: map<string, FileStatus> := map[];
    NothingFed(dateParses);
    for i := 0 to |lines|
      invariant State(current, statusMap) == After(START, lines[..i], dateParses)
      invariant commits == Completed(START, lines[..i], dateParses)
    {
      assert lines[..i + 1] == lines[..i] + [lines[i]];
      FeedLine(lines[..i], lines[i], dateParses);
      var trimmed := Trim(lines[i]);
      if trimmed == "" { continue; }
      if IsHeaderLine(trimmed) {
        commits := PushCurrent(commits, current, statusMap);
        current, statusMap := ParseHeaderLine(trimmed, dateParses), map[];
        continue;
      }
      if current.None? { continue; }
      current, statusMap := AbsorbLine(current.value, statusMap, trimmed);
    }
    assert lines[..|lines|] == lines;
    commits := PushCurrent(commits, current, statusMap);
  }

  /** `pushCurrent`: fill in statuses still unknown, then list the commit. */
  method PushCurrent(commits: seq<Commit>, current: Option<Commit>, statusMap: map<string, FileStatus>) returns (pushed: seq<Commit>)
    ensures pushed == commits + Listed(Finished(State(current, statusMap)))
  {
    pushed := commits;
    if current.Some? {
      var files := FillStatuses(current.value.files, statusMap);
      pushed := pushed + [current.value.(files := files)];
    }
  }

  method FillStatuses(files: seq<FileChange>, statusMap: map<string, FileStatus>) returns (filled: seq<FileChange>)
    ensures filled == FillAll(files, statusMap)
  {
    filled := files;
    for i := 0 to |files|
      invariant |filled| == |files|
      invariant forall j :: 0 <= j < |files| ==> filled[j] == if j < i then FillStatus(files[j], statusMap) else files[j]
    {
      if filled[i].status == Unknown && filled[i].path in statusMap {
        filled := filled[i := filled[i].(status := statusMap[filled[i].path])];
      }
    }
  }

  /** The raw and numstat branches shared by both parsers. */
  method AbsorbLine(current: Commit, statusMap: map<string, FileStatus>, trimmed: string)
    returns (current': Option<Commit>, statusMap': map<string, FileStatus>)
    ensures State(current', statusMap') == Absorb(State(Some(current), statusMap), trimmed)
  {
    current', statusMap' := Some(current), statusMap;
    var raw := MatchRaw(trimmed);
    if raw.Some? {
      var rest := raw.value.rest;
      if (raw.value.status == RenamedFile || raw.value.status == Copied) && '\t' in rest {
        var paths := Split(rest, '\t');
        statusMap' := statusMap'[paths[0] := raw.value.status];
        statusMap' := statusMap'[(if |paths| > 1 then paths[1] else "") := raw.value.status];
      } else {
        statusMap' := statusMap'[rest := raw.value.status];
      }
      return;
    }
    var num := MatchNumStat(trimmed);
    if num.Some? {
      var path := num.value.path;
      var lookupPath := AfterArrow(path);
      var status := if path in statusMap then statusMap[path] else if lookupPath in statusMap then statusMap[lookupPath] else Unknown;
      current' := Some(current.(files := current.files + [FileChange(num.value.insertions, num.value.deletions, path, status)]));
    }
  }

  // ---- The streaming parser ----

  class GitLogLineParser {
    var current: Option<Commit>
    var statusMap: map<string, FileStatus>

    constructor ()
      ensures Held() == START
    {
      current, statusMap := None, map[];
    }

    function Held(): State
      reads this
    {
      State(current, statusMap)
    }

    /** Feed one line; a header line completes the previous commit. */
    method ProcessLine(line: string, dateParses: string -> bool) returns (completed: Option<Commit>)
      modifies this
      ensures Held() == NextState(old(Held()), line, dateParses)
      ensures completed == Emitted(old(Held()), line)
    {
      var trimmed := Trim(line);
      if trimmed == "" { return None; }
      if IsHeaderLine(trimmed) {
        completed := FinalizeCurrent();
        statusMap := map[];
        current := ParseHeaderLine(trimmed, dateParses);
        return;
      }
      if current.None? { return None; }
      current, statusMap := AbsorbLine(current.value, statusMap, trimmed);
      return None;
    }

    method Flush() returns (completed: Option<Commit>)
      modifies this
      ensures completed == Finished(old(Held()))
    {
      completed := FinalizeCurrent();
    }

    method FinalizeCurrent() returns (completed: Option<Commit>)
      modifies this
      ensures completed == Finished(old(Held()))
      ensures current == None && statusMap == old(statusMap)
    {
      if current.None? { return None; }
      var files := FillStatuses(current.value.files, statusMap);
      completed := Some(current.value.(files := files));
      current := None;
    }
  }

  function Concat(chunks: seq<string>): string {
    if chunks == [] then "" else Concat(chunks[..|chunks| - 1]) + chunks[|chunks| - 1]
  }

  /** `indexOf(c)`. */
  function IndexOf(s: string, c: char): (i: int)
    ensures -1 <= i < |s|
    ensures i >= 0 ==> s[i] == c && c !in s[..i]
    ensures i == -1 ==> c !in s
  {
    if s == "" then -1
    else if s[0] == c then 0
    else
      var later := IndexOf(s[1..], c);
      assert s == [s[0]] + s[1..];
      assert later >= 0 ==> s[..later + 1] == [s[0]] + s[1..][..later];
      if later == -1 then -1 else later + 1
  }

  /** The lines fed so far and the rest of the buffer are the split of everything received. */
  ghost predicate Buffered(received: string, fed: seq<string>, pending: string) {
    Split(received, '\n') == fed + Split(pending, '\n')
  }

  lemma ReceiveChunk(received: string, fed: seq<string>, pending: string, chunk: string)
    requires Buffered(received, fed, pending) && '\n' !in pending
    ensures Buffered(received + chunk, fed, pending + chunk)
  {
    SplitNone(pending, '\n');
    var parts := Split(received, '\n');
    SplitAppend(received, chunk, '\n');
    assert parts[..|parts| - 1] == fed && parts[|parts| - 1] == pending;
  }

  /**
   * `streamGitLog`: chunks are cut anywhere, lines are fed as they complete, and the end of the stream
   * feeds what is left and flushes. The commits are those the batch parser finds in the whole text.
   */
  method StreamGitLog(chunks: seq<string>, dateParses: string -> bool) returns (commits: seq<Commit>)
    ensures commits == ParseLog(Concat(chunks), dateParses)
  {
    hide Buffered, After, Completed, NextState, Emitted, Finished, ParseLog, Split;
    var parser := new GitLogLineParser();
    commits := [];
    var pending := "";
    ghost var fed: seq<string> := [];
    NothingFed(dateParses);
    NothingReceived();
    assert chunks[..0] == [];
    for i := 0 to |chunks|
      invariant fresh(parser)
      invariant Buffered(Concat(chunks[..i]), fed, pending) && '\n' !in pending
      invariant parser.Held() == After(START, fed, dateParses) && commits == Completed(START, fed, dateParses)
    {
      assert chunks[..i + 1][..i] == chunks[..i];
      ReceiveChunk(Concat(chunks[..i]), fed, pending, chunks[i]);
      pending := pending + chunks[i];
      commits, pending, fed := Drain(parser, commits, pending, dateParses, Concat(chunks[..i + 1]), fed);
    }
    assert chunks[..|chunks|] == chunks;
    StreamEnds(Concat(chunks), fed, pending, dateParses);
    if pending != "" {
      FeedLine(fed, pending, dateParses);
      var c := parser.ProcessLine(pending, dateParses);
      if c.Some? { commits := commits + [c.value]; }
    } else {
      BlankLine(fed, "", dateParses);
    }
    var last := parser.Flush();
    if last.Some? { commits := commits + [last.value]; }
  }

  lemma NothingReceived()
    ensures Buffered("", [], "")
  {
  }

  /** At the end of the stream the rest of the buffer is the last line. */
  lemma StreamEnds(received: string, fed: seq<string>, pending: string, dateParses: string -> bool)
    requires Buffered(received, fed, pending) && '\n' !in pending
    ensures ParseLog(received, dateParses) == CommitsIn(fed + [pending], dateParses)
  {
    hide CommitsIn;
    SplitNone(pending, '\n');
  }

  lemma TakeLine(received: string, fed: seq<string>, pending: string, nl: nat)
    requires Buffered(received, fed, pending) && nl < |pending| && pending[nl] == '\n' && '\n' !in pending[..nl]
    ensures Buffered(received, fed + [pending[..nl]], pending[nl + 1..])
  {
    hide Split;
    var line, rest := pending[..nl], pending[nl + 1..];
    assert pending == line + ['\n'] + rest;
    SplitWord(line, rest, '\n');
    assert fed + ([line] + Split(rest, '\n')) == fed + [line] + Split(rest, '\n');
  }

  /** The inner loop: feed every complete line of the buffer. */
  method Drain(parser: GitLogLineParser, start: seq<Commit>, buffer: string, dateParses: string -> bool,
               ghost received: string, ghost before: seq<string>)
    returns (commits: seq<Commit>, pending: string, ghost fed: seq<string>)
    requires Buffered(received, before, buffer)
    requires parser.Held() == After(START, before, dateParses) && start == Completed(START, before, dateParses)
    modifies parser
    ensures Buffered(received, fed, pending) && '\n' !in pending
    ensures parser.Held() == After(START, fed, dateParses) && commits == Completed(START, fed, dateParses)
  {
    hide Buffered, After, Completed, NextState, Emitted, GitLogLineParser.Held;
    commits, pending, fed := start, buffer, before;
    var nl := IndexOf(pending, '\n');
    while nl != -1
      invariant nl == IndexOf(pending, '\n')
      invariant Buffered(received, fed, pending)
      invariant parser.Held() == After(START, fed, dateParses) && commits == Completed(START, fed, dateParses)
      decreases |pending|
    {
      TakeLine(received, fed, pending, nl);
      FeedLine(fed, pending[..nl], dateParses);
      var c := parser.ProcessLine(pending[..nl], dateParses);
      if c.Some? { commits := commits + [c.value]; }
      fed, pending := fed + [pending[..nl]], pending[nl + 1..];
      nl := IndexOf(pending, '\n');
    }
  }
}
