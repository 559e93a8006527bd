/**
  The report mirror: everything the process prints arrives through a pipe in arbitrary
  pieces and is recorded line by line, each line with a level.  A byte is a character here.

  The lines recorded are a function of the stream, not of how it was cut into reads, as long
  as no stretch without a newline outgrows the buffer; the level is decided by whole words.
 */
module DebugReport {
  import opened Wrappers

  const MAX_PARTIAL := 64 * 1024

  // ----- Levels -----

  datatype Level = Error | Warn | Log

  const FAILURES: seq<string> := ["error", "failed", "failure", "fatal", "exception", "assert", "cannot", "unable"]
  const CAUTIONS: seq<string> := ["warning", "warn"]

  predicate IsAlpha(c: char) { 'a' <= c <= 'z' || 'A' <= c <= 'Z' }

  function Lower(c: char): char { if 'A' <= c <= 'Z' then (c as int + 32) as char else c }

  function Lowered(s: string): (t: string)
    ensures |t| == |s|
  {
    seq(|s|, i requires 0 <= i < |s| => Lower(s[i]))
  }

  predicate OccursAt(s: string, word: string, at: nat) {
    at + |word| <= |s| && s[at..at + |word|] == word
  }

  /** The word is there, and no letter touches it on either side. */
  predicate StandsAloneAt(s: string, word: string, at: nat) {
    && OccursAt(s, word, at)
    && (at == 0 || !IsAlpha(s[at - 1]))
    && (at + |word| == |s| || !IsAlpha(s[at + |word|]))
  }

  ghost predicate StandsAlone(s: string, word: string) {
    exists at: nat :: StandsAloneAt(s, word, at)
  }

  ghost predicate NamesOneOf(line: string, words: seq<string>) {
    exists w :: w in words && StandsAlone(Lowered(line), w)
  }

  ghost function LevelOf(line: string): Level {
    if NamesOneOf(line, FAILURES) then Error else if NamesOneOf(line, CAUTIONS) then Warn else Log
  }

  /** The letters of `word`, each in either case, stand at `at`, and no letter touches them. */
  predicate WordIsAt(line: string, word: string, at: nat) {
    && at + |word| <= |line|
    && (forall k :: 0 <= k < |word| ==> line[at + k] == word[k] || ('A' <= line[at + k] <= 'Z' && line[at + k] as int + 32 == word[k] as int))
    && (at > 0 ==> !('a' <= line[at - 1] <= 'z') && !('A' <= line[at - 1] <= 'Z'))
    && (at + |word| < |line| ==> !('a' <= line[at + |word|] <= 'z') && !('A' <= line[at + |word|] <= 'Z'))
  }

  predicate SmallLetters(word: string) {
    word != [] && forall k :: 0 <= k < |word| ==> 'a' <= word[k] <= 'z'
  }

  lemma FailuresAreSmall()
    ensures forall w :: w in FAILURES ==> SmallLetters(w)
    ensures FAILURES == ["error", "failed", "failure", "fatal", "exception", "assert", "cannot", "unable"]
  {
  }

  lemma CautionsAreSmall()
    ensures forall w :: w in CAUTIONS ==> SmallLetters(w)
    ensures CAUTIONS == ["warning", "warn"]
  {
  }

  lemma LoweredIs(c: char, w: char)
    requires 'a' <= w <= 'z'
    ensures Lower(c) == w <==> c == w || ('A' <= c <= 'Z' && c as int + 32 == w as int)
    ensures IsAlpha(Lower(c)) <==> 'a' <= c <= 'z' || 'A' <= c <= 'Z'
  {
  }

  /** A word of small letters stands alone in the lowered line where it stands in the line in any case. */
  lemma WordInAnyCase(line: string, word: string, at: nat)
    requires SmallLetters(word)
    ensures StandsAloneAt(Lowered(line), word, at) <==> WordIsAt(line, word, at)
  {
    var lower := Lowered(line);
    if at + |word| <= |line| {
      forall k | 0 <= k < |word|
        ensures lower[at + k] == word[k] <==> line[at + k] == word[k] || ('A' <= line[at + k] <= 'Z' && line[at + k] as int + 32 == word[k] as int)
      {
        LoweredIs(line[at + k], word[k]);
      }
      var part := lower[at..at + |word|];
      assert part == word <==> forall k :: 0 <= k < |word| ==> part[k] == word[k];
      assert forall k :: 0 <= k < |word| ==> part[k] == lower[at + k];
      if at > 0 {
        LoweredIs(line[at - 1], 'a');
      }
      if at + |word| < |line| {
        LoweredIs(line[at + |word|], 'a');
      }
    }
  }

  lemma NamedInAnyCase(line: string, words: seq<string>)
    requires forall w :: w in words ==> SmallLetters(w)
    ensures NamesOneOf(line, words) <==> exists w, at: nat :: w in words && WordIsAt(line, w, at)
  {
    forall w, at: nat | w in words ensures StandsAloneAt(Lowered(line), w, at) <==> WordIsAt(line, w, at) {
      WordInAnyCase(line, w, at);
    }
    hide WordIsAt, StandsAloneAt, Lowered;
    if NamesOneOf(line, words) {
      var w :| w in words && StandsAlone(Lowered(line), w);
      var at: nat :| StandsAloneAt(Lowered(line), w, at);
      assert WordIsAt(line, w, at);
    }
    if w, at: nat :| w in words && WordIsAt(line, w, at) {
      assert StandsAloneAt(Lowered(line), w, at);
      assert StandsAlone(Lowered(line), w);
    }
  }

  /** The level of a line, by the words that stand in it in any case. */
  lemma LevelByWords(line: string)
    ensures LevelOf(line) == Error
       <==> exists w, at: nat :: w in ["error", "failed", "failure", "fatal", "exception", "assert", "cannot", "unable"] && WordIsAt(line, w, at)
    ensures LevelOf(line) == Warn
       <==> && LevelOf(line) != Error
            && exists w, at: nat :: w in ["warning", "warn"] && WordIsAt(line, w, at)
  {
    hide WordIsAt, NamesOneOf, SmallLetters, FAILURES, CAUTIONS;
    FailuresAreSmall();
    CautionsAreSmall();
    NamedInAnyCase(line, FAILURES);
    NamedInAnyCase(line, CAUTIONS);
  }

  /** The first occurrence of `word` at or after `from`. */
  method Find(s: string, word: string, from: nat) returns (found: Option<nat>)
    ensures found.Some? ==> from <= found.value && OccursAt(s, word, found.value)
    ensures found.Some? ==> forall k: nat :: from <= k < found.value ==> !OccursAt(s, word, k)
    ensures found.None? ==> forall k: nat :: from <= k ==> !OccursAt(s, word, k)
  {
    var at := from;
    while at + |word| <= |s|
      invariant from <= at
      invariant forall k: nat :: from <= k < at ==> !OccursAt(s, word, k)
    {
      if s[at..at + |word|] == word {
        return Some(at);
      }
      at := at + 1;
    }
    found := None;
  }

  method ContainsWord(lower: string, word: string) returns (contains: bool)
    ensures contains <==> StandsAlone(lower, word)
  {
    var at := Find(lower, word, 0);
    while at.Some?
      invariant at.Some? ==> OccursAt(lower, word, at.value)
      invariant forall k: nat :: (at.Some? ==> k < at.value) ==> !StandsAloneAt(lower, word, k)
      decreases if at.Some? then |lower| + 1 - at.value else 0
    {
      var left := at.value == 0 || !IsAlpha(lower[at.value - 1]);
      var end := at.value + |word|;
      var right := end >= |lower| || !IsAlpha(lower[end]);
      if left && right {
        assert StandsAloneAt(lower, word, at.value);
        return true;
      }
      at := Find(lower, word, at.value + 1);
    }
    contains := false;
  }

  method ContainsOneOf(lower: string, words: seq<string>) returns (contains: bool)
    ensures contains <==> exists w :: w in words && StandsAlone(lower, w)
  {
    for i := 0 to |words|
      invariant forall k :: 0 <= k < i ==> !StandsAlone(lower, words[k])
    {
      var found := ContainsWord(lower, words[i]);
      if found {
        return true;
      }
    }
    contains := false;
  }

  // ----- Lines of a stream -----

  /** What comes after the last newline. */
  function Tail(s: string): string {
    if s == [] then [] else
    var rest, c := s[..|s| - 1], s[|s| - 1];
    if c == '\n' then [] else Tail(rest) + [c]
  }

  /** The lines that have been ended by a newline, in order. */
  function Lines(s: string): seq<string> {
    if s == [] then [] else
    var rest, c := s[..|s| - 1], s[|s| - 1];
    if c == '\n' then Lines(rest) + [Tail(rest)] else Lines(rest)
  }

  function Joined(lines: seq<string>): string {
    if lines == [] then [] else Joined(lines[..|lines| - 1]) + lines[|lines| - 1] + ['\n']
  }

  lemma JoinedSnoc(lines: seq<string>, line: string)
    ensures Joined(lines + [line]) == Joined(lines) + line + ['\n']
  {
    assert (lines + [line])[..|lines|] == lines;
  }

  /** The stream is its lines, each with its newline, and the tail; no line or tail holds a newline. */
  lemma {:induction false} LinesSplitStream(s: string)
    ensures Joined(Lines(s)) + Tail(s) == s
    ensures '\n' !in Tail(s) && forall line :: line in Lines(s) ==> '\n' !in line
  {
    if s != [] {
      var rest, c := s[..|s| - 1], s[|s| - 1];
      LinesSplitStream(rest);
      var joined, tail := Joined(Lines(rest)), Tail(rest);
      JoinedSnoc(Lines(rest), tail);
      hide Joined;
      assert s == joined + tail + [c];
      if c == '\n' {
        assert Joined(Lines(s)) + [] == joined + tail + ['\n'];
      } else {
        assert joined + (tail + [c]) == joined + tail + [c];
      }
    }
  }

  lemma {:induction false} AppendPlain(s: string, plain: string)
    requires '\n' !in plain
    ensures Tail(s + plain) == Tail(s) + plain && Lines(s + plain) == Lines(s)
  {
    if plain == [] {
      assert s + plain == s && Tail(s) + plain == Tail(s);
    } else {
      var n := |plain| - 1;
      AppendPlain(s, plain[..n]);
      assert (s + plain)[..|s| + n] == s + plain[..n];
      assert Tail(s) + plain[..n] + [plain[n]] == Tail(s) + plain;
    }
  }

  lemma AppendNewline(s: string)
    ensures Tail(s + ['\n']) == [] && Lines(s + ['\n']) == Lines(s) + [Tail(s)]
  {
    assert (s + ['\n'])[..|s|] == s;
  }

  /** A newline after plain text at the start of a line ends that text as a line. */
  lemma EndLine(base: string, plain: string)
    requires Tail(base) == [] && '\n' !in plain
    ensures Tail(base + plain + ['\n']) == [] && Lines(base + plain + ['\n']) == Lines(base) + [plain]
  {
    AppendPlain(base, plain);
    AppendNewline(base + plain);
    assert [] + plain == plain;
  }

  /** Up to the start of its tail a stream has the same lines and no tail. */
  lemma {:induction false} StartOfTail(s: string)
    ensures Tail(Joined(Lines(s))) == [] && Lines(Joined(Lines(s))) == Lines(s)
  {
    if s != [] {
      var rest, c := s[..|s| - 1], s[|s| - 1];
      StartOfTail(rest);
      if c == '\n' {
        LinesSplitStream(rest);
        var base := Joined(Lines(rest));
        JoinedSnoc(Lines(rest), Tail(rest));
        EndLine(base, Tail(rest));
      }
    }
  }

  // ----- Records -----

  datatype Record = Record(level: Level, text: string)

  /** Trailing carriage returns and spaces are dropped. */
  function Trimmed(line: string): string {
    if line != [] && (line[|line| - 1] == '\r' || line[|line| - 1] == ' ') then Trimmed(line[..|line| - 1]) else line
  }

  /** What a C string holds of it: everything before the first NUL. */
  function CString(s: string): string {
    if s == [] || s[0] == '\0' then [] else [s[0]] + CString(s[1..])
  }

  lemma {:induction false} CStringIsWholeIff(s: string)
    ensures CString(s) == s <==> '\0' !in s
  {
    if s != [] && s[0] != '\0' {
      CStringIsWholeIff(s[1..]);
      assert s == [s[0]] + s[1..];
    }
  }

  lemma {:induction false} TrimmedIsPrefix(line: string)
    ensures Trimmed(line) <= line
  {
    if line != [] && (line[|line| - 1] == '\r' || line[|line| - 1] == ' ') {
      TrimmedIsPrefix(line[..|line| - 1]);
    }
  }

  lemma {:induction false} CStringIsPrefix(s: string)
    ensures CString(s) <= s
  {
    if s != [] && s[0] != '\0' {
      CStringIsPrefix(s[1..]);
      assert s == [s[0]] + s[1..];
    }
  }

  /** The one beginning of the line that is followed by nothing but what is trimmed, and ends in none of it. */
  lemma {:induction false} TrimmedIs(line: string, text: string)
    requires text <= line && forall k :: |text| <= k < |line| ==> line[k] == '\r' || line[k] == ' '
    requires text == [] || (text[|text| - 1] != '\r' && text[|text| - 1] != ' ')
    ensures Trimmed(line) == text
  {
    if |text| < |line| {
      TrimmedIs(line[..|line| - 1], text);
    }
  }

  /** Everything before the first NUL. */
  lemma {:induction false} CStringIs(s: string, written: string)
    requires written <= s && '\0' !in written && (written == s || s[|written|] == '\0')
    ensures CString(s) == written
  {
    if written != [] {
      assert written[0] == s[0] && written == [written[0]] + written[1..];
      CStringIs(s[1..], written[1..]);
    }
  }

  /** Nothing in the line is lost on its way to the report: no NUL, no trailing carriage return or space. */
  predicate Survives(line: string) {
    '\0' !in line && (line == [] || (line[|line| - 1] != '\r' && line[|line| - 1] != ' '))
  }

  /** What is written of a line is the line if and only if it survives. */
  lemma TextIsVerbatimIff(line: string)
    ensures CString(Trimmed(line)) == line <==> Survives(line)
  {
    var text := Trimmed(line);
    TrimmedIsPrefix(line);
    CStringIsPrefix(text);
    if line != [] && (line[|line| - 1] == '\r' || line[|line| - 1] == ' ') {
      TrimmedIsPrefix(line[..|line| - 1]);
      assert |text| < |line|;
    } else {
      CStringIsWholeIff(line);
    }
  }

  /** Classified as a whole, written as a C string. */
  ghost function RecordOf(line: string): Record { Record(LevelOf(line), CString(line)) }

  /** One record a line that is not blank after trimming. */
  ghost function RecordsOf(lines: seq<string>): seq<Record> {
    if lines == [] then [] else
    var line := Trimmed(lines[|lines| - 1]);
    RecordsOf(lines[..|lines| - 1]) + if line == [] then [] else [RecordOf(line)]
  }

  /** The whole report of a stream: its lines, then a tail that never got its newline, untrimmed. */
  ghost function Report(stream: string): seq<Record> {
    RecordsOf(Lines(stream)) + if Tail(stream) == [] then [] else [RecordOf(Tail(stream))]
  }

  lemma RecordsSnoc(lines: seq<string>, line: string)
    ensures RecordsOf(lines + [line])
         == RecordsOf(lines) + if Trimmed(line) == [] then [] else [RecordOf(Trimmed(line))]
  {
    assert (lines + [line])[..|lines|] == lines;
  }

  /**
    What a completed line adds to the report: nothing when it is all carriage returns and spaces, and
    otherwise its text without those at its end, as far as the first NUL, with the level of the text.
   */
  lemma LineRecord(lines: seq<string>, line: string, text: string, written: string)
    requires text <= line && forall k :: |text| <= k < |line| ==> line[k] == '\r' || line[k] == ' '
    requires text == [] || (text[|text| - 1] != '\r' && text[|text| - 1] != ' ')
    requires written <= text && '\0' !in written && (written == text || text[|written|] == '\0')
    ensures RecordsOf(lines + [line]) == RecordsOf(lines) + if text == [] then [] else [Record(LevelOf(text), written)]
  {
    hide LevelOf;
    RecordsSnoc(lines, line);
    TrimmedIs(line, text);
    CStringIs(text, written);
  }

  /** What a tail that never got its newline adds: itself, as far as its first NUL. */
  lemma TailRecord(base: string, tail: string, written: string)
    requires Tail(base) == [] && tail != [] && '\n' !in tail
    requires written <= tail && '\0' !in written && (written == tail || tail[|written|] == '\0')
    ensures Report(base + tail) == Report(base) + [Record(LevelOf(tail), written)]
  {
    hide LevelOf, RecordsOf, Lines, Tail;
    AppendPlain(base, tail);
    CStringIs(tail, written);
    assert [] + tail == tail;
  }

  /** A line ended the Windows way is recorded as its text. */
  lemma CrlfLineIsItsText(base: string, text: string)
    requires Tail(base) == [] && '\n' !in text && text != [] && Survives(text)
    ensures Report(base + text + "\r\n") == Report(base) + [Record(LevelOf(text), text)]
  {
    hide LevelOf, RecordsOf, Lines, Tail, Trimmed, CString;
    var line := text + ['\r'];
    assert base + text + "\r\n" == base + line + ['\n'];
    EndLine(base, line);
    LineRecord(Lines(base), line, text, text);
  }

  function Texts(records: seq<Record>): (texts: seq<string>)
    ensures |texts| == |records| && forall i :: 0 <= i < |records| ==> texts[i] == records[i].text
  {
    seq(|records|, i requires 0 <= i < |records| => records[i].text)
  }

  lemma {:induction false} NoMoreRecordsThanLines(lines: seq<string>)
    ensures |RecordsOf(lines)| <= |lines|
  {
    if lines != [] {
      NoMoreRecordsThanLines(lines[..|lines| - 1]);
    }
  }

  lemma LastIsVerbatimIff(rest: seq<string>, line: string)
    requires |RecordsOf(rest)| <= |rest|
    requires CString(Trimmed(line)) == line <==> Survives(line)
    ensures Texts(RecordsOf(rest + [line])) == rest + [line]
       <==> Texts(RecordsOf(rest)) == rest && line != [] && Survives(line)
  {
    RecordsSnoc(rest, line);
    hide RecordsOf, Survives, LevelOf;
    var all, before, text := Texts(RecordsOf(rest + [line])), Texts(RecordsOf(rest)), Trimmed(line);
    if text == [] {
      assert |all| == |before|;
    } else {
      assert all == before + [CString(text)];
      if |before| == |rest| {
        assert all == rest + [line] <==> before == rest && CString(text) == line by {
          assert (before + [CString(text)])[..|rest|] == before && (rest + [line])[..|rest|] == rest;
          assert (before + [CString(text)])[|rest|] == CString(text) && (rest + [line])[|rest|] == line;
        }
      }
    }
  }

  /**
    The completed lines of a stream are recorded verbatim, all of them, if and only if each survives
    and none is blank.
   */
  lemma {:induction false} LinesAreVerbatimIff(lines: seq<string>)
    ensures Texts(RecordsOf(lines)) == lines <==> forall line :: line in lines ==> line != [] && Survives(line)
  {
    if lines != [] {
      var rest, line := lines[..|lines| - 1], lines[|lines| - 1];
      LinesAreVerbatimIff(rest);
      TextIsVerbatimIff(line);
      NoMoreRecordsThanLines(rest);
      LastIsVerbatimIff(rest, line);
      hide Texts, RecordsOf, Survives, CString, Trimmed;
      assert lines == rest + [line];
      assert forall l :: l in lines <==> l in rest || l == line;
    }
  }

  /** A line is recorded, and verbatim, if and only if it survives and is not empty. */
  lemma LineIsVerbatimIff(line: string)
    ensures Texts(RecordsOf([line])) == [line] <==> line != [] && Survives(line)
  {
    hide CString, Trimmed, Survives, Texts, RecordsOf;
    LinesAreVerbatimIff([line]);
    assert line in [line];
  }

  method TrimLine(line: string) returns (text: string)
    ensures text == Trimmed(line)
    ensures text <= line && forall k :: |text| <= k < |line| ==> line[k] == '\r' || line[k] == ' '
    ensures text != [] ==> text[|text| - 1] != '\r' && text[|text| - 1] != ' '
  {
    text := line;
    while text != [] && (text[|text| - 1] == '\r' || text[|text| - 1] == ' ')
      invariant Trimmed(text) == Trimmed(line)
      invariant text <= line && forall k :: |text| <= k < |line| ==> line[k] == '\r' || line[k] == ' '
    {
      text := text[..|text| - 1];
    }
  }

  function CountLevel(records: seq<Record>, level: Level): nat {
    if records == [] then 0
    else CountLevel(records[..|records| - 1], level) + if records[|records| - 1].level == level then 1 else 0
  }

  /** The records of a level, by place. */
  ghost function PlacesOf(records: seq<Record>, level: Level): set<nat> {
    set i: nat | i < |records| && records[i].level == level
  }

  lemma PlacesSnoc(records: seq<Record>)
    requires records != []
    ensures var n := |records| - 1;
            forall level :: PlacesOf(records, level)
                            == PlacesOf(records[..n], level) + if records[n].level == level then {n} else {}
  {
  }

  /** The count is the number of records of that level. */
  lemma {:induction false} CountIsCardinality(records: seq<Record>, level: Level)
    ensures CountLevel(records, level) == |PlacesOf(records, level)|
  {
    if records == [] {
      assert PlacesOf(records, level) == {};
    } else {
      var n := |records| - 1;
      CountIsCardinality(records[..n], level);
      PlacesSnoc(records);
      assert n !in PlacesOf(records[..n], level);
      hide PlacesOf;
    }
  }

  /** No stretch without a newline is longer than the buffer keeps. */
  ghost predicate Bounded(stream: string) {
    forall k :: 0 <= k <= |stream| ==> |Tail(stream[..k])| <= 65536
  }

  /** Where the unfinished line of a stream begins. */
  lemma BaseOf(s: string)
    ensures Tail([]) == [] && Tail(Joined(Lines(s))) == [] && Lines(Joined(Lines(s))) == Lines(s)
    ensures Joined(Lines(s)) + Tail(s) == s
  {
    StartOfTail(s);
    LinesSplitStream(s);
  }

  lemma BoundedTail(s: string)
    requires Bounded(s)
    ensures |Tail(s)| <= MAX_PARTIAL
  {
    assert s[..|s|] == s;
  }

  lemma BoundedPrefix(s: string, more: string)
    requires Bounded(s + more)
    ensures Bounded(s)
  {
    forall k | 0 <= k <= |s| ensures |Tail(s[..k])| <= MAX_PARTIAL {
      assert (s + more)[..k] == s[..k];
    }
  }

  // ----- The pump -----

  function Concat(parts: seq<string>): string {
    if parts == [] then [] else Concat(parts[..|parts| - 1]) + parts[|parts| - 1]
  }

  lemma NoneLeft(whole: string, start: nat)
    requires start <= |whole| && forall k: nat :: start <= k ==> !OccursAt(whole, ['\n'], k)
    ensures '\n' !in whole[start..]
  {
    forall k | start <= k < |whole| ensures whole[k] != '\n' {
      assert !OccursAt(whole, ['\n'], k);
      assert whole[k..k + 1] == [whole[k]];
    }
  }

  lemma Between(whole: string, start: nat, nl: nat)
    requires start <= nl && OccursAt(whole, ['\n'], nl)
    requires forall k: nat :: start <= k < nl ==> !OccursAt(whole, ['\n'], k)
    ensures nl < |whole| && whole[nl] == '\n' && '\n' !in whole[start..nl]
  {
    assert whole[nl..nl + 1][0] == '\n';
    forall k | start <= k < nl ensures whole[k] != '\n' {
      assert !OccursAt(whole, ['\n'], k);
      assert whole[k..k + 1] == [whole[k]];
    }
  }

  /** The line from `start` to the next newline is the next line of the stream, and of its records. */
  lemma LineEnds(base: string, whole: string, start: nat, nl: nat)
    requires start <= nl && OccursAt(whole, ['\n'], nl) && Tail(base + whole[..start]) == []
    requires forall k: nat :: start <= k < nl ==> !OccursAt(whole, ['\n'], k)
    ensures nl < |whole| && Tail(base + whole[..nl + 1]) == []
    ensures var text := Trimmed(whole[start..nl]);
            RecordsOf(Lines(base + whole[..nl + 1]))
            == RecordsOf(Lines(base + whole[..start])) + if text == [] then [] else [RecordOf(text)]
  {
    hide Tail, Lines, RecordsOf, RecordOf, Trimmed;
    Between(whole, start, nl);
    var done, line := base + whole[..start], whole[start..nl];
    EndLine(done, line);
    RecordsSnoc(Lines(done), line);
    assert done + line + ['\n'] == base + whole[..nl + 1];
  }

  class Mirror {
    /** Bytes after the last newline seen so far. */
    var partial: string
    /** What has been written to the report. */
    var records: seq<Record>
    var errors: nat
    var warnings: nat

    /** Everything read so far. */
    ghost var stream: string

    /** The counters always agree with the records; the records agree with a bounded stream. */
    ghost predicate Valid()
      reads this
    {
      && errors == CountLevel(records, Error) && warnings == CountLevel(records, Warn)
      && '\n' !in partial
      && (Bounded(stream) ==> partial == Tail(stream) && records == RecordsOf(Lines(stream)))
    }

    constructor ()
      ensures Valid() && stream == [] && records == []
    {
      partial, records, errors, warnings, stream := [], [], 0, 0, [];
    }

    /** The level of a line, counted. */
    method Classify(line: string) returns (level: Level)
      modifies this`errors, this`warnings
      ensures level == LevelOf(line)
      ensures errors == old(errors) + (if level == Error then 1 else 0)
      ensures warnings == old(warnings) + (if level == Warn then 1 else 0)
    {
      var lower := Lowered(line);
      var failure := ContainsOneOf(lower, FAILURES);
      if failure {
        errors := errors + 1;
        return Error;
      }
      var caution := ContainsOneOf(lower, CAUTIONS);
      if caution {
        warnings := warnings + 1;
        return Warn;
      }
      level := Log;
    }

    /** Classify a line and write it. */
    method WriteLine(line: string)
      requires errors == CountLevel(records, Error) && warnings == CountLevel(records, Warn)
      modifies this`errors, this`warnings, this`records
      ensures records == old(records) + [RecordOf(line)]
      ensures errors == CountLevel(records, Error) && warnings == CountLevel(records, Warn)
    {
      var level := Classify(line);
      records := records + [Record(level, CString(line))];
      assert records[..|records| - 1] == old(records);
    }

    /**
      Every complete line of `whole`, which starts a line.  `base` is the stream before it, and
      `good` says that the records so far are those of `base`.
     */
    method EmitLines(whole: string, ghost base: string, ghost good: bool) returns (rest: string)
      requires errors == CountLevel(records, Error) && warnings == CountLevel(records, Warn)
      requires Tail(base) == [] && (good ==> records == RecordsOf(Lines(base)))
      modifies this`errors, this`warnings, this`records
      ensures errors == CountLevel(records, Error) && warnings == CountLevel(records, Warn)
      ensures '\n' !in rest
      ensures good ==> rest == Tail(base + whole) && records == RecordsOf(Lines(base + whole))
    {
      hide *;
      var start: nat := 0;
      assert base + whole[..0] == base;
      while true
        invariant start <= |whole|
        invariant errors == CountLevel(records, Error) && warnings == CountLevel(records, Warn)
        invariant Tail(base + whole[..start]) == []
        invariant good ==> records == RecordsOf(Lines(base + whole[..start]))
        decreases |whole| - start
      {
        var nl := Find(whole, ['\n'], start);
        if nl.None? {
          NoneLeft(whole, start);
          break;
        }
        LineEnds(base, whole, start, nl.value);
        var text := TrimLine(whole[start..nl.value]);
        if text != [] {
          WriteLine(text);
        }
        start := nl.value + 1;
      }
      rest := whole[start..];
      AppendPlain(base + whole[..start], rest);
      assert base + whole[..start] + rest == base + whole;
    }

    /** One pass of the pump: a read of `buf`, and every line it completes. */
    method Read(buf: string)
      requires Valid()
      modifies this
      ensures Valid() && stream == old(stream) + buf
    {
      ghost var good, before := Bounded(stream), stream;
      ghost var base := if good then Joined(Lines(stream)) else [];
      BaseOf(stream);
      hide Tail, Lines, RecordsOf, Joined, CountLevel, RecordOf, Bounded;
      var whole := partial + buf;
      assert good ==> base + whole == stream + buf by {
        assert base + partial + buf == base + whole;
      }
      partial := EmitLines(whole, base, good);
      stream := stream + buf;
      if |partial| > MAX_PARTIAL {
        WriteLine(partial);
        partial := [];
      }
      if Bounded(stream) {
        BoundedPrefix(before, buf);
        BoundedTail(stream);
      }
    }

    /** The end of the pipe: a tail that never got its newline is recorded too. */
    method Finish()
      requires Valid()
      modifies this`errors, this`warnings, this`records
      ensures Bounded(stream) ==> records == Report(stream)
      ensures errors == CountLevel(records, Error) && warnings == CountLevel(records, Warn)
    {
      if partial != [] {
        WriteLine(partial);
      }
    }

    /** The pump over a whole session, however the stream was cut into reads. */
    method Pump(pieces: seq<string>)
      requires Valid() && stream == [] && records == []
      modifies this
      ensures stream == Concat(pieces)
      ensures Bounded(stream) ==> records == Report(stream)
      ensures errors == CountLevel(records, Error) && warnings == CountLevel(records, Warn)
    {
      for i := 0 to |pieces|
        invariant Valid() && stream == Concat(pieces[..i])
      {
        assert pieces[..i + 1][..i] == pieces[..i];
        Read(pieces[i]);
      }
      assert pieces[..|pieces|] == pieces;
      Finish();
    }
  }
}
