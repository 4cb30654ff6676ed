/** `upsert_env_var`: inserting or updating a KEY=VALUE line in the text of a `.env` file. */
module EnvFile {

  const LF: char := '\n'
  const CR: char := '\r'

  // ---------------------------------------------------------------------------------------------
  // The library functions the code calls

  /** The index of the first line feed, or the length. */
  function LineEnd(text: string): (n: nat)
    ensures n <= |text| && LF !in text[..n]
    ensures n < |text| ==> text[n] == LF
  {
    if text == [] || text[0] == LF then 0
    else
      var n := 1 + LineEnd(text[1..]);
      assert text[..n] == [text[0]] + text[1..][..n - 1];
      n
  }

  function StripCr(line: string): string {
    if line != [] && line[|line| - 1] == CR then line[..|line| - 1] else line
  }

  /** Rust's `str::lines`: a line ends at LF or CR LF; the last line's ending is optional, and a CR
      there belongs to the line. */
  function Lines(text: string): seq<string>
    decreases |text|
  {
    if text == [] then []
    else
      var n := LineEnd(text);
      if n == |text| then [text] else [StripCr(text[..n])] + Lines(text[n + 1..])
  }

  /** `join("\n")`. */
  function Join(lines: seq<string>): string {
    if lines == [] then ""
    else if |lines| == 1 then lines[0]
    else lines[0] + [LF] + Join(lines[1..])
  }

  predicate EndsWithLf(text: string) { text != [] && text[|text| - 1] == LF }

  predicate IsFor(line: string, key: string) { key + "=" <= line }

  // ---------------------------------------------------------------------------------------------
  // The update

  function NewLine(key: string, value: string): string { key + "=" + value }

  /** Every matching line replaced. */
  function Replace(lines: seq<string>, key: string, value: string): seq<string> {
    seq(|lines|, i requires 0 <= i < |lines| => if IsFor(lines[i], key) then NewLine(key, value) else lines[i])
  }

  predicate Mentions(lines: seq<string>, key: string) {
    exists i | 0 <= i < |lines| :: IsFor(lines[i], key)
  }

  function Terminated(content: string): string {
    if EndsWithLf(content) then content else content + [LF]
  }

  function Upsert(existing: string, key: string, value: string): string {
    var lines := Lines(existing);
    Terminated(if Mentions(lines, key) then Join(Replace(lines, key, value))
               else existing + [LF] + NewLine(key, value))
  }

  /** The code: a flag set while the lines are mapped, then a buffer that grows. */
  method UpsertEnvVar(existing: string, key: string, value: string) returns (content: string)
    ensures content == Upsert(existing, key, value)
  {
    var prefix := key + "=";
    var newLine := key + "=" + value;
    var found := false;
    var lines := Lines(existing);
    var updated: seq<string> := [];
    for i := 0 to |lines|
      invariant |updated| == i && (found <==> exists k | 0 <= k < i :: IsFor(lines[k], key))
      invariant forall k | 0 <= k < i :: updated[k] == if IsFor(lines[k], key) then newLine else lines[k]
    {
      if prefix <= lines[i] {
        found := true;
        updated := updated + [newLine];
      } else {
        updated := updated + [lines[i]];
      }
    }
    assert updated == Replace(lines, key, value);
    content := if found then Join(updated) else existing + [LF] + newLine;
    if !EndsWithLf(content) { content := content + [LF]; }
  }

  // ---------------------------------------------------------------------------------------------
  // Splitting what was joined

  predicate NoLf(lines: seq<string>) { forall i | 0 <= i < |lines| :: LF !in lines[i] }

  lemma {:induction false} LinesHaveNoLf(text: string)
    ensures NoLf(Lines(text))
    decreases |text|
  {
    if text != [] {
      var n := LineEnd(text);
      if n == |text| {
        assert text[..n] == text;
      } else {
        LinesHaveNoLf(text[n + 1..]);
      }
    }
  }

  lemma {:induction false} LineEndAt(line: string, rest: string)
    requires LF !in line
    ensures LineEnd(line + [LF] + rest) == |line|
  {
    if line != [] {
      assert (line + [LF] + rest)[1..] == line[1..] + [LF] + rest;
      LineEndAt(line[1..], rest);
    }
  }

  /** Splitting takes off a terminated line as a whole. */
  lemma {:induction false} LinesOfTerminated(line: string, rest: string)
    requires LF !in line
    ensures Lines(line + [LF] + rest) == [StripCr(line)] + Lines(rest)
  {
    var text := line + [LF] + rest;
    LineEndAt(line, rest);
    assert text[..|line|] == line && text[|line| + 1..] == rest;
  }

  function StripAll(lines: seq<string>): seq<string> {
    seq(|lines|, i requires 0 <= i < |lines| => StripCr(lines[i]))
  }

  /** Joining lines and terminating the last one splits back into the same lines, each without its
      trailing carriage return. */
  lemma {:induction false} LinesOfJoin(lines: seq<string>)
    requires lines != [] && NoLf(lines)
    ensures Lines(Join(lines) + [LF]) == StripAll(lines)
  {
    if |lines| == 1 {
      assert Join(lines) + [LF] == lines[0] + [LF] + "";
      LinesOfTerminated(lines[0], "");
    } else {
      var rest := lines[1..];
      assert Join(lines) + [LF] == lines[0] + [LF] + (Join(rest) + [LF]);
      LinesOfTerminated(lines[0], Join(rest) + [LF]);
      LinesOfJoin(rest);
      assert StripAll(lines) == [StripCr(lines[0])] + StripAll(rest);
    }
  }

  function Last(lines: seq<string>): string
    requires lines != []
  {
    lines[|lines| - 1]
  }

  /** The lines, without a blank one at the end. */
  function DropBlank(lines: seq<string>): seq<string> {
    if lines != [] && Last(lines) == "" then lines[..|lines| - 1] else lines
  }

  lemma {:induction false} JoinEnding(lines: seq<string>)
    requires |lines| >= 2 && Last(lines) == ""
    ensures Join(lines) == Join(lines[..|lines| - 1]) + [LF]
  {
    var front := lines[..|lines| - 1];
    if |lines| == 2 {
      assert lines[1..] == [""];
      assert Join(lines) == lines[0] + [LF] + "";
    } else {
      assert front[1..] == lines[1..][..|lines| - 2];
      JoinEnding(lines[1..]);
    }
  }

  lemma {:induction false} JoinNotEnding(lines: seq<string>)
    requires lines != [] && NoLf(lines) && Last(lines) != ""
    ensures Join(lines) != "" && !EndsWithLf(Join(lines))
  {
    if |lines| > 1 {
      JoinNotEnding(lines[1..]);
    } else {
      assert lines[0][|lines[0]| - 1] in lines[0];
    }
  }

  /** Writing lines out and reading them back loses one trailing blank line and the carriage returns,
      nothing else. */
  lemma {:induction false} LinesOfTerminatedJoin(lines: seq<string>)
    requires lines != [] && NoLf(lines) && lines != [""]
    ensures Lines(Terminated(Join(lines))) == StripAll(DropBlank(lines))
  {
    if Last(lines) == "" {
      JoinEnding(lines);
      LinesOfJoin(DropBlank(lines));
    } else {
      JoinNotEnding(lines);
      LinesOfJoin(lines);
    }
  }

  /** The lines of a text once a line feed is appended: a terminated or empty text gets a blank line,
      an unterminated one loses its last carriage return. */
  function LinesPlusLf(text: string): seq<string> {
    PlusLf(Lines(text), text == "" || EndsWithLf(text))
  }

  function PlusLf(lines: seq<string>, ended: bool): seq<string> {
    if ended || lines == [] then lines + [""] else lines[..|lines| - 1] + [StripCr(Last(lines))]
  }

  lemma {:induction false} PlusLfCons(line: string, lines: seq<string>, ended: bool)
    requires ended || lines != []
    ensures PlusLf([line] + lines, ended) == [line] + PlusLf(lines, ended)
  {
    if !ended {
      assert ([line] + lines)[..|lines|] == [line] + lines[..|lines| - 1];
    }
  }

  lemma {:induction false} LinesPlusLfTail(line: string, tail: string)
    requires LF !in line
    ensures LinesPlusLf(line + [LF] + tail) == [StripCr(line)] + LinesPlusLf(tail)
  {
    LinesOfTerminated(line, tail);
    assert EndsWithLf(line + [LF] + tail) <==> tail == "" || EndsWithLf(tail);
    PlusLfCons(StripCr(line), Lines(tail), tail == "" || EndsWithLf(tail));
  }

  lemma {:induction false} LinesOfAppendedLf(text: string, rest: string)
    ensures Lines(text + [LF] + rest) == LinesPlusLf(text) + Lines(rest)
    decreases |text|
  {
    var n := LineEnd(text);
    if text == "" {
      assert text + [LF] + rest == "" + [LF] + rest;
      LinesOfTerminated("", rest);
    } else if n == |text| {
      assert text[..n] == text;
      assert !EndsWithLf(text) by { assert text[|text| - 1] in text; }
      LinesOfTerminated(text, rest);
    } else {
      var line, tail := text[..n], text[n + 1..];
      assert text == line + [LF] + tail;
      assert text + [LF] + rest == line + [LF] + (tail + [LF] + rest);
      LinesOfTerminated(line, tail + [LF] + rest);
      LinesPlusLfTail(line, tail);
      LinesOfAppendedLf(tail, rest);
    }
  }

  // ---------------------------------------------------------------------------------------------
  // Line structure

  /** A key and value that make up one line. */
  predicate OneLine(key: string, value: string) { LF !in key && LF !in value }

  lemma {:induction false} NewLineShape(key: string, value: string)
    requires OneLine(key, value)
    ensures LF !in NewLine(key, value) && NewLine(key, value) != ""
    ensures StripCr(NewLine(key, value)) == NewLine(key, StripCr(value))
    ensures IsFor(NewLine(key, value), key)
  {
    if value == "" || value[|value| - 1] != CR {
      assert NewLine(key, value)[|NewLine(key, value)| - 1] != CR;
    } else {
      assert NewLine(key, value)[..|NewLine(key, value)| - 1] == NewLine(key, value[..|value| - 1]);
    }
  }

  /** The exact line structure, for every text. If the key was there, the new lines are the old ones
      with every matching line replaced, minus one trailing blank line; otherwise they are the old
      lines of the text, terminated by one more line feed, plus the new line. Any carriage return
      that a line still ended with is gone, and the result ends in a line feed. */
  lemma {:induction false} UpsertLines(existing: string, key: string, value: string)
    requires OneLine(key, value)
    ensures var after := Upsert(existing, key, value); var lines := Lines(existing);
      && EndsWithLf(after)
      && (Mentions(lines, key) ==> Lines(after) == StripAll(DropBlank(Replace(lines, key, value))))
      && (!Mentions(lines, key) ==> Lines(after) == LinesPlusLf(existing) + [NewLine(key, StripCr(value))])
  {
    var lines, added := Lines(existing), NewLine(key, value);
    NewLineShape(key, value);
    LinesHaveNoLf(existing);
    if Mentions(lines, key) {
      var i :| 0 <= i < |lines| && IsFor(lines[i], key);
      assert Replace(lines, key, value)[i] == added;
      LinesOfTerminatedJoin(Replace(lines, key, value));
    } else {
      assert added[|added| - 1] in added;
      assert (existing + [LF] + added)[|existing| + 1 + |added| - 1] == added[|added| - 1];
      assert existing + [LF] + added + [LF] == existing + [LF] + (added + [LF] + "");
      LinesOfAppendedLf(existing, added + [LF] + "");
      LinesOfTerminated(added, "");
    }
  }

  /** Lines written out, each ended by a line feed. */
  function Text(lines: seq<string>): string {
    if lines == [] then "" else lines[0] + [LF] + Text(lines[1..])
  }

  lemma {:induction false} TextIsJoin(lines: seq<string>)
    requires lines != []
    ensures Text(lines) == Join(lines) + [LF]
  {
    if |lines| > 1 { TextIsJoin(lines[1..]); }
  }

  lemma {:induction false} TerminatedIsText(lines: seq<string>)
    requires lines != [] && NoLf(lines) && lines != [""]
    ensures Terminated(Join(lines)) == Text(DropBlank(lines))
  {
    if Last(lines) == "" {
      JoinEnding(lines);
      TextIsJoin(DropBlank(lines));
    } else {
      JoinNotEnding(lines);
      TextIsJoin(lines);
    }
  }

  /** The exact text. If the key was there: the old lines with every match replaced, minus one trailing
      blank line, each ended by a line feed alone. Otherwise the old text untouched, a line feed, and
      the new line ended by one. */
  lemma {:induction false} UpsertText(existing: string, key: string, value: string)
    requires OneLine(key, value)
    ensures Upsert(existing, key, value) ==
              if Mentions(Lines(existing), key) then Text(DropBlank(Replace(Lines(existing), key, value)))
              else existing + [LF] + Text([NewLine(key, value)])
  {
    var lines := Lines(existing);
    NewLineShape(key, value);
    LinesHaveNoLf(existing);
    if Mentions(lines, key) {
      var i :| 0 <= i < |lines| && IsFor(lines[i], key);
      assert Replace(lines, key, value)[i] == NewLine(key, value);
      TerminatedIsText(Replace(lines, key, value));
    } else {
      EndsWithLine(existing + [LF], NewLine(key, value));
      assert Text([NewLine(key, value)]) == NewLine(key, value) + [LF];
    }
  }

  lemma {:induction false} EndsWithLine(text: string, line: string)
    requires line != "" && LF !in line
    ensures !EndsWithLf(text + line)
  {
    assert line[|line| - 1] in line;
  }

  // ---------------------------------------------------------------------------------------------
  // Lookup

  /** The values a key has in the lines, in order; a reader takes the first or the last. */
  function ValuesIn(lines: seq<string>, key: string): seq<string> {
    if lines == [] then []
    else
      var n := |lines| - 1;
      ValuesIn(lines[..n], key) + if IsFor(lines[n], key) then [lines[n][|key| + 1..]] else []
  }

  function Values(text: string, key: string): seq<string> { ValuesIn(Lines(text), key) }

  /** A line without '=' in front of the key's '=' is for that key only. */
  lemma {:induction false} OneKeyPerLine(line: string, key: string, other: string)
    requires '=' !in key && '=' !in other && IsFor(line, key) && IsFor(line, other)
    ensures key == other
  {
    assert line[|key|] == '=' && line[|other|] == '=';
    assert forall i | 0 <= i < |key| :: line[i] == key[i] && key[i] in key;
    assert forall i | 0 <= i < |other| :: line[i] == other[i] && other[i] in other;
    assert |key| == |other|;
    assert line[..|key|] == key && line[..|key|] == other;
  }

  lemma {:induction false} StripCrKeepsKey(line: string, key: string)
    ensures IsFor(StripCr(line), key) <==> IsFor(line, key)
    ensures IsFor(line, key) ==> StripCr(line)[|key| + 1..] == StripCr(line[|key| + 1..])
  {
    if line != [] && line[|line| - 1] == CR {
      var prefix := key + "=";
      if IsFor(line, key) {
        assert line[|key|] == '=';
        assert line[..|line| - 1][..|prefix|] == line[..|prefix|];
      }
    }
  }

  /** Stripping carriage returns strips the values. */
  lemma {:induction false} ValuesOfStripped(lines: seq<string>, key: string)
    ensures ValuesIn(StripAll(lines), key) == StripAll(ValuesIn(lines, key))
  {
    if lines != [] {
      var n := |lines| - 1;
      ValuesOfStripped(lines[..n], key);
      StripCrKeepsKey(lines[n], key);
      assert StripAll(lines)[..n] == StripAll(lines[..n]);
    }
  }

  lemma {:induction false} ValuesDropBlank(lines: seq<string>, key: string)
    ensures ValuesIn(DropBlank(lines), key) == ValuesIn(lines, key)
  {
  }

  lemma {:induction false} ValuesOfReplaced(lines: seq<string>, key: string, value: string, other: string)
    requires '=' !in key && '=' !in other
    ensures |ValuesIn(Replace(lines, key, value), other)| == |ValuesIn(lines, other)|
    ensures other != key ==> ValuesIn(Replace(lines, key, value), other) == ValuesIn(lines, other)
    ensures other == key ==> forall i | 0 <= i < |ValuesIn(lines, key)| ::
              ValuesIn(Replace(lines, key, value), key)[i] == value
  {
    if lines != [] {
      var n := |lines| - 1;
      ValuesOfReplaced(lines[..n], key, value, other);
      assert Replace(lines, key, value)[..n] == Replace(lines[..n], key, value);
      var line := Replace(lines, key, value)[n];
      if IsFor(lines[n], key) && IsFor(lines[n], other) { OneKeyPerLine(lines[n], key, other); }
      if IsFor(line, key) && IsFor(line, other) { OneKeyPerLine(line, key, other); }
    }
  }

  lemma {:induction false} ValuesMention(lines: seq<string>, key: string)
    ensures ValuesIn(lines, key) != [] <==> Mentions(lines, key)
  {
    if lines != [] {
      var n := |lines| - 1;
      ValuesMention(lines[..n], key);
      if Mentions(lines[..n], key) {
        var i :| 0 <= i < n && IsFor(lines[..n][i], key);
        assert IsFor(lines[i], key);
      }
      if Mentions(lines, key) && !IsFor(lines[n], key) {
        var i :| 0 <= i < |lines| && IsFor(lines[i], key);
        assert lines[..n][i] == lines[i];
      }
    }
  }

  lemma {:induction false} ValuesSnoc(lines: seq<string>, line: string, key: string)
    ensures ValuesIn(lines + [line], key) == ValuesIn(lines, key) + if IsFor(line, key) then [line[|key| + 1..]] else []
  {
    assert (lines + [line])[..|lines|] == lines;
  }

  /** Upsert as an update of a key-value store, when the key was there: every value of the key becomes
      the new one, so first and last match agree, and every other key keeps its values, up to
      carriage returns that ended a value. For every text. */
  lemma {:induction false} UpsertExisting(existing: string, key: string, value: string, other: string)
    requires OneLine(key, value) && '=' !in key && '=' !in other && Mentions(Lines(existing), key)
    ensures var after := Upsert(existing, key, value);
      && Values(after, key) != []
      && (forall i | 0 <= i < |Values(after, key)| :: Values(after, key)[i] == StripCr(value))
      && (other != key ==> Values(after, other) == StripAll(Values(existing, other)))
  {
    var lines := Lines(existing);
    var replaced := Replace(lines, key, value);
    UpsertLines(existing, key, value);
    forall k | k == key || k == other
      ensures Values(Upsert(existing, key, value), k) == StripAll(ValuesIn(replaced, k))
    {
      ValuesOfStripped(DropBlank(replaced), k);
      ValuesDropBlank(replaced, k);
    }
    ValuesOfReplaced(lines, key, value, key);
    ValuesOfReplaced(lines, key, value, other);
    ValuesMention(lines, key);
  }

  /** When the key was absent it gets exactly the new value; every other key keeps its values, but
      for a carriage return at the very end of the text. For every text. */
  lemma {:induction false} UpsertAbsent(existing: string, key: string, value: string, other: string)
    requires OneLine(key, value) && '=' !in key && '=' !in other && !Mentions(Lines(existing), key)
    ensures var after := Upsert(existing, key, value);
      && Values(after, key) == [StripCr(value)]
      && (other != key ==> Values(after, other) == ValuesIn(LinesPlusLf(existing), other))
  {
    var added := NewLine(key, StripCr(value));
    UpsertLines(existing, key, value);
    ValuesSnoc(LinesPlusLf(existing), added, key);
    ValuesSnoc(LinesPlusLf(existing), added, other);
    NewLineShape(key, StripCr(value));
    if IsFor(added, other) { OneKeyPerLine(added, key, other); }
    ValuesPlusLf(existing, key);
    ValuesMention(Lines(existing), key);
  }

  lemma {:induction false} ValuesPlusLf(text: string, key: string)
    ensures var before, after := Values(text, key), ValuesIn(LinesPlusLf(text), key);
      || after == before
      || (before != [] && after == before[..|before| - 1] + [StripCr(Last(before))] && !EndsWithLf(text))
  {
    var lines := Lines(text);
    if text == "" || EndsWithLf(text) || lines == [] {
      ValuesSnoc(lines, "", key);
    } else {
      ValuesSnoc(lines[..|lines| - 1], StripCr(Last(lines)), key);
      StripCrKeepsKey(Last(lines), key);
    }
  }

  /** No value of the key ends in a carriage return. */
  predicate CleanValues(text: string, key: string) {
    forall i | 0 <= i < |Values(text, key)| :: StripCr(Values(text, key)[i]) == Values(text, key)[i]
  }

  lemma {:induction false} CleanIffKept(values: seq<string>)
    ensures StripAll(values) == values <==> forall i | 0 <= i < |values| :: StripCr(values[i]) == values[i]
  {
    assert forall i | 0 <= i < |values| :: StripAll(values)[i] == StripCr(values[i]);
  }

  /** The key-value law: afterwards the key has the new value, first and last match alike, and every
      other key looks up as before, for every text in which no value of that key ends in a carriage
      return (so for any text with LF or CR LF line endings only). When the key was there, that
      condition is exact. */
  lemma {:induction false} UpsertIsAnUpdate(existing: string, key: string, value: string, other: string)
    requires OneLine(key, value) && '=' !in key && '=' !in other && other != key
    requires StripCr(value) == value
    ensures var after := Upsert(existing, key, value);
      && Values(after, key) != []
      && Values(after, key)[0] == value && Last(Values(after, key)) == value
      && (CleanValues(existing, other) ==> Values(after, other) == Values(existing, other))
      && (Mentions(Lines(existing), key) ==>
            (Values(after, other) == Values(existing, other) <==> CleanValues(existing, other)))
  {
    if Mentions(Lines(existing), key) {
      UpsertExisting(existing, key, value, other);
      CleanIffKept(Values(existing, other));
    } else {
      UpsertAbsent(existing, key, value, other);
      if CleanValues(existing, other) { CleanPlusLf(existing, other); }
    }
  }

  lemma {:induction false} CleanPlusLf(text: string, key: string)
    requires CleanValues(text, key)
    ensures ValuesIn(LinesPlusLf(text), key) == Values(text, key)
  {
    var before := Values(text, key);
    ValuesPlusLf(text, key);
    if before != [] {
      assert StripCr(before[|before| - 1]) == before[|before| - 1];
      assert before == before[..|before| - 1] + [Last(before)];
    }
  }

  /** Running it again with the same arguments changes nothing but a blank line at the end of the
      first result, which the second run removes (and stray carriage returns). */
  lemma {:induction false} UpsertTwice(existing: string, key: string, value: string)
    requires OneLine(key, value) && StripCr(value) == value && '=' !in key
    ensures var once := Upsert(existing, key, value);
      Lines(Upsert(once, key, value)) == StripAll(DropBlank(Lines(once)))
  {
    var once := Upsert(existing, key, value);
    UpsertLines(once, key, value);
    ReplacedOnce(existing, key, value);
    ReplaceIsIdentity(Lines(once), key, value);
  }

  /** Every line for the key is already the new one. */
  predicate UpToDate(lines: seq<string>, key: string, value: string) {
    forall i | 0 <= i < |lines| :: IsFor(lines[i], key) ==> lines[i] == NewLine(key, value)
  }

  lemma {:induction false} ReplaceIsIdentity(lines: seq<string>, key: string, value: string)
    requires UpToDate(lines, key, value)
    ensures Replace(lines, key, value) == lines
  {
  }

  lemma {:induction false} ValuesUpToDate(lines: seq<string>, key: string, value: string)
    requires forall i | 0 <= i < |ValuesIn(lines, key)| :: ValuesIn(lines, key)[i] == value
    ensures UpToDate(lines, key, value)
  {
    if lines != [] {
      var n := |lines| - 1;
      var before := ValuesIn(lines[..n], key);
      assert forall i | 0 <= i < |before| :: before[i] == ValuesIn(lines, key)[i];
      ValuesUpToDate(lines[..n], key, value);
      if IsFor(lines[n], key) {
        assert ValuesIn(lines, key)[|before|] == value;
        assert lines[n] == lines[n][..|key| + 1] + lines[n][|key| + 1..];
      }
      assert forall i | 0 <= i < n :: lines[..n][i] == lines[i];
    }
  }

  lemma {:induction false} ReplacedOnce(existing: string, key: string, value: string)
    requires OneLine(key, value) && StripCr(value) == value && '=' !in key
    ensures var lines := Lines(Upsert(existing, key, value));
      Mentions(lines, key) && UpToDate(lines, key, value)
  {
    if Mentions(Lines(existing), key) {
      UpsertExisting(existing, key, value, key);
    } else {
      UpsertAbsent(existing, key, value, key);
    }
    ValuesUpToDate(Lines(Upsert(existing, key, value)), key, value);
    ValuesMention(Lines(Upsert(existing, key, value)), key);
  }
}
