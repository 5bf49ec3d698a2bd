/**
 * The namelist reader: each line of a Fortran namelist file is matched
 * against the pattern `^\s*(.*?)\s*=\s*['"]*(.*?)['"]*\s*\n`, the matches
 * are folded into a dictionary from key to raw value, and the accessors look
 * values up in it.
 *
 * The pattern is not run by a regular-expression engine here. `ParseLine`
 * computes the two groups directly, and `RegexMatch` states declaratively
 * what a match of the pattern is, with the choices that the greedy and lazy
 * operators make; `ParseLineIffRegexMatch` proves that the two agree.
 */
module Namelist {
  import opened Wrappers
  import Seqs

  /** Python's `\s` in a `str` pattern: the characters for which
      `str.isspace()` holds. */
  predicate IsSpace(c: char)
  {
    || c == ' '
    || ('\t' <= c <= '\r')
    || ('\U{1c}' <= c <= '\U{1f}')
    || c == '\U{85}' || c == '\U{a0}' || c == '\U{1680}'
    || ('\U{2000}' <= c <= '\U{200a}')
    || c == '\U{2028}' || c == '\U{2029}' || c == '\U{202f}' || c == '\U{205f}' || c == '\U{3000}'
  }

  /** The quote characters the pattern strips, `'` and `"`. */
  predicate IsQuote(c: char)
  {
    c == '\'' || c == '"'
  }

  /** The character classes the pattern's operators consume. */
  datatype Class = Space | Quote | NotEquals | NotNewline

  predicate In(c: char, k: Class)
  {
    match k
    case Space => IsSpace(c)
    case Quote => IsQuote(c)
    case NotEquals => c != '='
    case NotNewline => c != '\n'
  }

  /** One line as iterating over a text file yields it: a newline, if any,
      only as its last character. */
  ghost predicate IsLine(line: string)
  {
    forall i :: 0 <= i < |line| - 1 ==> line[i] != '\n'
  }

  // ---------------------------------------------------------------------
  // Runs of one class of characters
  // ---------------------------------------------------------------------

  /** The end of the run of `k` characters that starts at `i`, scanning no
      further than `hi`. */
  function SkipFrom(s: string, i: nat, hi: nat, k: Class): (j: nat)
    requires i <= hi <= |s|
    ensures i <= j <= hi
    ensures forall x :: i <= x < j ==> In(s[x], k)
    ensures j == hi || !In(s[j], k)
    decreases hi - i
  {
    if i == hi || !In(s[i], k) then i else SkipFrom(s, i + 1, hi, k)
  }

  /** The start of the run of `k` characters that ends at `hi`, scanning no
      further back than `lo`. */
  function SkipBack(s: string, lo: nat, hi: nat, k: Class): (j: nat)
    requires lo <= hi <= |s|
    ensures lo <= j <= hi
    ensures forall x :: j <= x < hi ==> In(s[x], k)
    ensures j == lo || !In(s[j - 1], k)
    decreases hi - lo
  {
    if hi == lo || !In(s[hi - 1], k) then hi else SkipBack(s, lo, hi - 1, k)
  }

  /** The end of a forward run is the first position that ends it. */
  lemma SkipFromIs(s: string, i: nat, hi: nat, k: Class, j: nat)
    requires i <= j <= hi <= |s|
    requires forall x :: i <= x < j ==> In(s[x], k)
    requires j == hi || !In(s[j], k)
    ensures SkipFrom(s, i, hi, k) == j
  {
  }

  /** The start of a backward run is the last position that starts it. */
  lemma SkipBackIs(s: string, lo: nat, hi: nat, k: Class, j: nat)
    requires lo <= j <= hi <= |s|
    requires forall x :: j <= x < hi ==> In(s[x], k)
    requires j == lo || !In(s[j - 1], k)
    ensures SkipBack(s, lo, hi, k) == j
  {
  }

  // ---------------------------------------------------------------------
  // One line
  // ---------------------------------------------------------------------

  /** The key and value the pattern captures on `line`, or `None` when it
      does not match: the line has no `=`, or no terminating newline. */
  function ParseLine(line: string): (r: Option<(string, string)>)
    requires IsLine(line)
    ensures r.Some? <==> |line| > 0 && line[|line| - 1] == '\n' && '=' in line
  {
    if |line| == 0 || line[|line| - 1] != '\n' then None
    else
      var eq := SkipFrom(line, 0, |line| - 1, NotEquals);
      if eq == |line| - 1 then
        None
      else
        var m := Measure(line, eq);
        Some((line[m.keyStart..m.keyEnd], line[m.valueStart..m.valueEnd]))
  }

  /** Where the parts of one match of the pattern lie in the line. The
      pieces, in order: the leading `\s*` is `[0, keyStart)`, the key group
      `[keyStart, keyEnd)`, the next `\s*` `[keyEnd, eq)`, the `=` at `eq`,
      the `\s*` after it `(eq, padEnd)`, the opening `['"]*`
      `[padEnd, valueStart)`, the value group `[valueStart, valueEnd)`, the
      closing `['"]*` `[valueEnd, closeEnd)`, and the last `\s*` runs from
      `closeEnd` to the newline. */
  datatype Spans = Spans(keyStart: nat, keyEnd: nat, eq: nat, padEnd: nat,
                         valueStart: nat, valueEnd: nat, closeEnd: nat)

  /** Every character of `s[lo..hi]` is of class `k`. */
  ghost predicate AllIn(s: string, lo: int, hi: int, k: Class)
    requires 0 <= lo <= hi <= |s|
  {
    forall x :: lo <= x < hi ==> In(s[x], k)
  }

  /** `m` is the match the pattern finds on `line`: the pieces cover the
      line up to its final newline, each piece holds only characters its
      operator accepts, and every greedy operator takes as much and every lazy
      group as little as the pattern allows. */
  ghost predicate RegexMatch(line: string, m: Spans)
  {
    MatchFrame(line, m) && KeyRuns(line, m) && ValueRuns(line, m)
  }

  /** The pieces lie in order before the final newline, around an `=`. */
  ghost predicate MatchFrame(line: string, m: Spans)
  {
    && |line| > 0 && line[|line| - 1] == '\n'
    && m.keyStart <= m.keyEnd <= m.eq < m.eq + 1 <= m.padEnd <= m.valueStart <= m.valueEnd <= m.closeEnd <= |line| - 1
    && line[m.eq] == '='
  }

  /** The pieces before the `=`. */
  ghost predicate KeyRuns(line: string, m: Spans)
    requires MatchFrame(line, m)
  {
    && AllIn(line, 0, m.keyStart, Space)
    && AllIn(line, m.keyStart, m.keyEnd, NotNewline)
    && AllIn(line, m.keyEnd, m.eq, Space)
    // the leading \s* is greedy
    && (if m.keyStart == m.keyEnd then m.keyEnd == m.eq else !IsSpace(line[m.keyStart]))
    // the key group is lazy: it stops at the first `=`, and leaves the
    // whitespace before it to the following \s*
    && AllIn(line, m.keyStart, m.keyEnd, NotEquals)
    && (m.keyStart == m.keyEnd || !IsSpace(line[m.keyEnd - 1]))
  }

  /** The pieces after the `=`. */
  ghost predicate ValueRuns(line: string, m: Spans)
    requires MatchFrame(line, m)
  {
    var nl := |line| - 1;
    && AllIn(line, m.eq + 1, m.padEnd, Space)
    && AllIn(line, m.padEnd, m.valueStart, Quote)
    && AllIn(line, m.valueStart, m.valueEnd, NotNewline)
    && AllIn(line, m.valueEnd, m.closeEnd, Quote)
    && AllIn(line, m.closeEnd, nl, Space)
    // the \s* after `=` and the opening ['"]* are greedy
    && (m.padEnd == nl || !IsSpace(line[m.padEnd]))
    && (m.valueStart == nl || !IsQuote(line[m.valueStart]))
    // the value group is lazy: it leaves the longest quotes-then-spaces
    // suffix to the closing operators
    && (m.valueStart == m.valueEnd ||
        (!IsQuote(line[m.valueEnd - 1]) && (!IsSpace(line[m.valueEnd - 1]) || m.valueEnd < m.closeEnd)))
  }

  /** `m` holds the runs `ParseLine` measures on `line`: the first `=`, the
      whitespace trimmed around the key, and the whitespace and quotes
      trimmed around the value. */
  ghost predicate Measured(line: string, m: Spans)
  {
    && |line| > 0 && line[|line| - 1] == '\n'
    && m.eq < |line| - 1 && SkipFrom(line, 0, |line| - 1, NotEquals) == m.eq
    && m.keyStart <= m.eq && SkipFrom(line, 0, m.eq, Space) == m.keyStart
    && m.keyEnd <= m.eq && SkipBack(line, m.keyStart, m.eq, Space) == m.keyEnd
    && m.eq + 1 <= m.padEnd <= |line| - 1 && SkipFrom(line, m.eq + 1, |line| - 1, Space) == m.padEnd
    && m.valueStart <= |line| - 1 && SkipFrom(line, m.padEnd, |line| - 1, Quote) == m.valueStart
    && m.valueStart <= m.closeEnd <= |line| - 1 && SkipBack(line, m.valueStart, |line| - 1, Space) == m.closeEnd
    && m.valueEnd <= m.closeEnd && SkipBack(line, m.valueStart, m.closeEnd, Quote) == m.valueEnd
  }

  /** The runs around the `=` at `eq`, the first of the line. */
  function Measure(line: string, eq: nat): (m: Spans)
    requires |line| > 0 && line[|line| - 1] == '\n'
    requires eq < |line| - 1 && SkipFrom(line, 0, |line| - 1, NotEquals) == eq
    ensures Measured(line, m) && m.eq == eq
    ensures m.keyStart <= m.keyEnd <= m.eq < m.valueStart <= m.valueEnd <= m.closeEnd < |line|
  {
    var nl := |line| - 1;
    var ks := SkipFrom(line, 0, eq, Space);
    var ke := SkipBack(line, ks, eq, Space);
    var ps := SkipFrom(line, eq + 1, nl, Space);
    var vs := SkipFrom(line, ps, nl, Quote);
    var ce := SkipBack(line, vs, nl, Space);
    var ve := SkipBack(line, vs, ce, Quote);
    Spans(ks, ke, eq, ps, vs, ve, ce)
  }

  /** The spans of the match that `ParseLine` computes. */
  function SpansOf(line: string): (m: Spans)
    requires IsLine(line) && ParseLine(line).Some?
    ensures RegexMatch(line, m)
    ensures ParseLine(line) == Some((line[m.keyStart..m.keyEnd], line[m.valueStart..m.valueEnd]))
  {
    var m := Measure(line, SkipFrom(line, 0, |line| - 1, NotEquals));
    SpansKeyRuns(line, m);
    SpansValueRuns(line, m);
    m
  }

  /** The runs `ParseLine` measures before the `=` form a match's key part. */
  lemma SpansKeyRuns(line: string, m: Spans)
    requires IsLine(line) && Measured(line, m)
    ensures MatchFrame(line, m) && KeyRuns(line, m)
  {
  }

  /** The runs `ParseLine` measures after the `=` form a match's value part. */
  lemma SpansValueRuns(line: string, m: Spans)
    requires IsLine(line) && Measured(line, m)
    ensures MatchFrame(line, m) && ValueRuns(line, m)
  {
  }

  /** The first `=` of a match's line is the match's `=`. */
  lemma MatchEquals(line: string, m: Spans)
    requires RegexMatch(line, m)
    ensures SkipFrom(line, 0, |line| - 1, NotEquals) == m.eq
  {
    forall x | 0 <= x < m.eq
      ensures In(line[x], NotEquals)
    {
      if x < m.keyStart || m.keyEnd <= x {
        assert IsSpace(line[x]);
      }
    }
    SkipFromIs(line, 0, |line| - 1, NotEquals, m.eq);
  }

  /** The runs `ParseLine` measures around the key are the match's. */
  lemma MatchKey(line: string, m: Spans)
    requires RegexMatch(line, m)
    ensures SkipFrom(line, 0, m.eq, Space) == m.keyStart
    ensures SkipBack(line, m.keyStart, m.eq, Space) == m.keyEnd
  {
    SkipFromIs(line, 0, m.eq, Space, m.keyStart);
    SkipBackIs(line, m.keyStart, m.eq, Space, m.keyEnd);
  }

  /** The runs `ParseLine` measures before the value are the match's. */
  lemma MatchValueStart(line: string, m: Spans)
    requires RegexMatch(line, m)
    ensures SkipFrom(line, m.eq + 1, |line| - 1, Space) == m.padEnd
    ensures SkipFrom(line, m.padEnd, |line| - 1, Quote) == m.valueStart
  {
    var nl := |line| - 1;
    SkipFromIs(line, m.eq + 1, nl, Space, m.padEnd);
    SkipFromIs(line, m.padEnd, nl, Quote, m.valueStart);
  }

  /** The runs `ParseLine` measures after the value are the match's. */
  lemma MatchValueEnd(line: string, m: Spans)
    requires RegexMatch(line, m)
    ensures SkipBack(line, m.valueStart, |line| - 1, Space) == m.closeEnd
    ensures SkipBack(line, m.valueStart, m.closeEnd, Quote) == m.valueEnd
  {
    SkipBackIs(line, m.valueStart, |line| - 1, Space, m.closeEnd);
    SkipBackIs(line, m.valueStart, m.closeEnd, Quote, m.valueEnd);
  }

  /** A match of the pattern is what `ParseLine` returns. */
  lemma RegexMatchParses(line: string, m: Spans)
    requires IsLine(line) && RegexMatch(line, m)
    ensures ParseLine(line) == Some((line[m.keyStart..m.keyEnd], line[m.valueStart..m.valueEnd]))
  {
    MatchEquals(line, m);
    MatchKey(line, m);
    MatchValueStart(line, m);
    MatchValueEnd(line, m);
    ParseLineAt(line, m);
  }

  /** `ParseLine` on a line whose runs are those of `m`. */
  lemma ParseLineAt(line: string, m: Spans)
    requires IsLine(line) && Measured(line, m)
    requires m.keyStart <= m.keyEnd && m.valueStart <= m.valueEnd
    ensures ParseLine(line) == Some((line[m.keyStart..m.keyEnd], line[m.valueStart..m.valueEnd]))
  {
    assert Measure(line, m.eq) == m;
  }

  /** `ParseLine` returns exactly the two groups of the pattern's match, and
      nothing when the pattern does not match. */
  lemma ParseLineIffRegexMatch(line: string, key: string, value: string)
    requires IsLine(line)
    ensures ParseLine(line) == Some((key, value)) <==>
            exists m :: RegexMatch(line, m) && line[m.keyStart..m.keyEnd] == key && line[m.valueStart..m.valueEnd] == value
  {
    if ParseLine(line) == Some((key, value)) {
      var m := SpansOf(line);
      assert RegexMatch(line, m) && line[m.keyStart..m.keyEnd] == key && line[m.valueStart..m.valueEnd] == value;
    }
    if exists m :: RegexMatch(line, m) && line[m.keyStart..m.keyEnd] == key && line[m.valueStart..m.valueEnd] == value {
      var m :| RegexMatch(line, m) && line[m.keyStart..m.keyEnd] == key && line[m.valueStart..m.valueEnd] == value;
      RegexMatchParses(line, m);
    }
  }

  /** The pattern knows nothing of Fortran `!` comments: a commented-out
      assignment matches, and its key keeps the `!`. */
  lemma CommentedAssignment(line: string)
    requires IsLine(line) && ParseLine(line).Some? && line[0] == '!'
    ensures |ParseLine(line).value.0| > 0 && ParseLine(line).value.0[0] == '!'
  {
  }

  // ---------------------------------------------------------------------
  // The file: lines, and the dictionary built from them
  // ---------------------------------------------------------------------

  /** The text a sequence of lines was cut from. */
  function Concat(lines: seq<string>): string
    decreases |lines|
  {
    if |lines| == 0 then [] else lines[0] + Concat(lines[1..])
  }

  /** The lines that iterating over a file with content `text` yields: each
      ends just after a newline, except a last line without one.
      An empty file yields no line and any other file at least one;
      `SplitLinesConcat` and `SplitLinesAreLines` state what they are. */
  function SplitLines(text: string): (lines: seq<string>)
    ensures |lines| == 0 <==> |text| == 0
    decreases |text|
  {
    var n := SkipFrom(text, 0, |text|, NotNewline);
    if n == |text| then
      (if |text| == 0 then [] else [text])
    else
      [text[..n + 1]] + SplitLines(text[n + 1..])
  }

  /** The lines put back together are the file. */
  lemma {:induction false} SplitLinesConcat(text: string)
    ensures Concat(SplitLines(text)) == text
    decreases |text|
  {
    var n := SkipFrom(text, 0, |text|, NotNewline);
    if n < |text| {
      SplitLinesConcat(text[n + 1..]);
      assert text == text[..n + 1] + text[n + 1..];
    }
  }

  /** Every line is non-empty and holds a newline only at its end, and every
      line but the last ends in one. */
  lemma {:induction false} SplitLinesAreLines(text: string)
    ensures forall i :: 0 <= i < |SplitLines(text)| ==> |SplitLines(text)[i]| > 0 && IsLine(SplitLines(text)[i])
    ensures forall i :: 0 <= i < |SplitLines(text)| - 1 ==> SplitLines(text)[i][|SplitLines(text)[i]| - 1] == '\n'
    decreases |text|
  {
    var n := SkipFrom(text, 0, |text|, NotNewline);
    if n < |text| {
      var rest := text[n + 1..];
      SplitLinesAreLines(rest);
      var lines := SplitLines(text);
      assert lines == [text[..n + 1]] + SplitLines(rest);
      forall i | 0 <= i < |lines|
        ensures |lines[i]| > 0 && IsLine(lines[i])
        ensures i < |lines| - 1 ==> lines[i][|lines[i]| - 1] == '\n'
      {
        if i > 0 {
          assert lines[i] == SplitLines(rest)[i - 1];
        }
      }
    }
  }

  /** What one line contributes: its (key, value) pair, or nothing. */
  type Entry = Option<(string, string)>

  /** Entry `i` sets `key`. */
  predicate Sets(entries: seq<Entry>, i: int, key: string)
    requires 0 <= i < |entries|
  {
    entries[i].Some? && entries[i].value.0 == key
  }

  /** Entry `i` is the last one that sets `key`. */
  ghost predicate LastSet(entries: seq<Entry>, key: string, i: int)
  {
    && 0 <= i < |entries|
    && Sets(entries, i, key)
    && forall j :: i < j < |entries| ==> !Sets(entries, j, key)
  }

  /** The dictionary the entries build, applied first to last. */
  function Fold(entries: seq<Entry>): (d: map<string, string>)
    ensures |entries| > 0 && entries[|entries| - 1].Some? ==>
              entries[|entries| - 1].value.0 in d && d[entries[|entries| - 1].value.0] == entries[|entries| - 1].value.1
    decreases |entries|
  {
    if |entries| == 0 then map[]
    else
      var prev := Fold(entries[..|entries| - 1]);
      match entries[|entries| - 1]
      case None => prev
      case Some((k, v)) => prev[k := v]
  }

  /** A key is in the dictionary exactly when some entry sets it. */
  lemma {:induction false} FoldKeys(entries: seq<Entry>, key: string)
    ensures key in Fold(entries) <==> exists i :: 0 <= i < |entries| && Sets(entries, i, key)
    decreases |entries|
  {
    if |entries| > 0 {
      var n := |entries| - 1;
      var init := entries[..n];
      FoldKeys(init, key);
      assert Fold(entries) == if entries[n].None? then Fold(init) else Fold(init)[entries[n].value.0 := entries[n].value.1];
      if key in Fold(entries) && !Sets(entries, n, key) {
        var i :| 0 <= i < n && Sets(init, i, key);
        assert init[i] == entries[i];
        assert Sets(entries, i, key);
      }
      if Sets(entries, n, key) {
        assert key in Fold(entries);
      }
      if exists i :: 0 <= i < |entries| && Sets(entries, i, key) {
        var i :| 0 <= i < |entries| && Sets(entries, i, key);
        if i < n {
          assert init[i] == entries[i];
          assert Sets(init, i, key);
        }
      }
    }
  }

  /** A key maps to the value of the last entry setting it: later entries
      overwrite earlier ones. */
  lemma {:induction false} FoldValues(entries: seq<Entry>, key: string, i: int)
    requires LastSet(entries, key, i)
    ensures key in Fold(entries) && Fold(entries)[key] == entries[i].value.1
    decreases |entries|
  {
    var n := |entries| - 1;
    if i < n {
      var init := entries[..n];
      forall j | i < j < n
        ensures !Sets(init, j, key)
      {
        assert init[j] == entries[j];
        assert !Sets(entries, j, key);
      }
      assert init[i] == entries[i];
      assert !Sets(entries, n, key);
      assert LastSet(init, key, i);
      FoldValues(init, key, i);
    }
  }

  /** The entry of each line, in order. */
  function Entries(lines: seq<string>): (entries: seq<Entry>)
    requires forall i :: 0 <= i < |lines| ==> IsLine(lines[i])
    ensures |entries| == |lines|
    decreases |lines|
  {
    if |lines| == 0 then [] else [ParseLine(lines[0])] + Entries(lines[1..])
  }

  /** Entry `i` is the parse of line `i`. */
  lemma {:induction false} EntriesAt(lines: seq<string>, i: nat)
    requires forall j :: 0 <= j < |lines| ==> IsLine(lines[j])
    requires i < |lines|
    ensures Entries(lines)[i] == ParseLine(lines[i])
    decreases i
  {
    if i > 0 {
      EntriesAt(lines[1..], i - 1);
    }
  }

  /** `line` is an assignment of `key`. */
  ghost predicate AssignsKey(line: string, key: string)
  {
    IsLine(line) && ParseLine(line).Some? && ParseLine(line).value.0 == key
  }

  /** Line `i` is the last of `lines` that assigns `key`. */
  ghost predicate LastAssignment(lines: seq<string>, key: string, i: int)
  {
    && 0 <= i < |lines|
    && AssignsKey(lines[i], key)
    && forall j :: i < j < |lines| ==> !AssignsKey(lines[j], key)
  }

  /** `convert_namelist_to_dict`'s loop: each line the pattern matches sets
      its key to its value, any other line is ignored. */
  function Convert(lines: seq<string>): (nml: map<string, string>)
    requires forall i :: 0 <= i < |lines| ==> IsLine(lines[i])
    ensures forall key :: key in nml <==> exists i :: 0 <= i < |lines| && AssignsKey(lines[i], key)
    ensures forall key, i :: LastAssignment(lines, key, i) ==> key in nml && nml[key] == ParseLine(lines[i]).value.1
  {
    var entries := Entries(lines);
    ConvertAgrees(lines, entries);
    Fold(entries)
  }

  /** The fold over the entries of `lines` has the keys and values of the
      lines' assignments. */
  lemma ConvertAgrees(lines: seq<string>, entries: seq<Entry>)
    requires forall i :: 0 <= i < |lines| ==> IsLine(lines[i])
    requires entries == Entries(lines)
    ensures forall key :: key in Fold(entries) <==> exists i :: 0 <= i < |lines| && AssignsKey(lines[i], key)
    ensures forall key, i :: LastAssignment(lines, key, i) ==> key in Fold(entries) && Fold(entries)[key] == ParseLine(lines[i]).value.1
  {
    forall i | 0 <= i < |lines|
      ensures entries[i] == ParseLine(lines[i])
    {
      EntriesAt(lines, i);
    }
    forall key
      ensures key in Fold(entries) <==> exists i :: 0 <= i < |lines| && AssignsKey(lines[i], key)
    {
      FoldKeys(entries, key);
      assert forall i :: 0 <= i < |lines| ==> (Sets(entries, i, key) <==> AssignsKey(lines[i], key));
    }
    forall key, i | LastAssignment(lines, key, i)
      ensures key in Fold(entries) && Fold(entries)[key] == ParseLine(lines[i]).value.1
    {
      assert LastSet(entries, key, i);
      FoldValues(entries, key, i);
    }
  }

  /** `convert_namelist_to_dict` on a file with content `text`: its keys are
      the keys assigned by the file's lines, each with the value of its last
      assignment. */
  function ConvertNamelist(text: string): (nml: map<string, string>)
    ensures forall key :: key in nml <==> exists i :: 0 <= i < |SplitLines(text)| && AssignsKey(SplitLines(text)[i], key)
    ensures forall key, i :: LastAssignment(SplitLines(text), key, i) ==> key in nml && nml[key] == ParseLine(SplitLines(text)[i]).value.1
  {
    SplitLinesAreLines(text);
    Convert(SplitLines(text))
  }

  /** One step of `SplitLines`: the first line runs through the first
      newline. */
  lemma SplitLinesStep(text: string, n: nat)
    requires n < |text| && SkipFrom(text, 0, |text|, NotNewline) == n
    ensures SplitLines(text) == [text[..n + 1]] + SplitLines(text[n + 1..])
  {
  }

  /** A run that stops inside `a` stops at the same place in `a + b`. */
  lemma SkipFromPrefix(a: string, b: string, k: Class, n: nat)
    requires n < |a| && SkipFrom(a, 0, |a|, k) == n
    ensures SkipFrom(a + b, 0, |a + b|, k) == n
  {
    var ab := a + b;
    assert forall x :: 0 <= x <= n ==> ab[x] == a[x];
    SkipFromIs(ab, 0, |ab|, k, n);
  }

  /** Cutting `a + b` after position `n` of `a`. */
  lemma CutPrefix(a: string, b: string, n: nat)
    requires n < |a|
    ensures (a + b)[..n + 1] == a[..n + 1]
    ensures (a + b)[n + 1..] == a[n + 1..] + b
  {
  }

  /** Text after the first line does not change where the first line ends. */
  lemma SplitLinesFirst(a: string, b: string, n: nat)
    requires n < |a| && SkipFrom(a, 0, |a|, NotNewline) == n
    ensures SplitLines(a) == [a[..n + 1]] + SplitLines(a[n + 1..])
    ensures SplitLines(a + b) == [a[..n + 1]] + SplitLines(a[n + 1..] + b)
  {
    SkipFromPrefix(a, b, NotNewline, n);
    SplitLinesStep(a, n);
    SplitLinesStep(a + b, n);
    CutPrefix(a, b, n);
  }

  /** Cutting a file after a newline cuts its lines there too. */
  lemma {:induction false} SplitLinesAppend(a: string, b: string)
    requires |a| == 0 || a[|a| - 1] == '\n'
    ensures SplitLines(a + b) == SplitLines(a) + SplitLines(b)
    decreases |a|
  {
    if |a| == 0 {
      assert a + b == b;
    } else {
      var n := SkipFrom(a, 0, |a|, NotNewline);
      var first, r := a[..n + 1], a[n + 1..];
      assert |r| == 0 || r[|r| - 1] == '\n' by {
        assert n < |a|;
      }
      SplitLinesFirst(a, b, n);
      SplitLinesAppend(r, b);
      Seqs.SeqAssoc([first], SplitLines(r), SplitLines(b));
    }
  }


  /** Folding two runs of entries one after the other: the second run's
      keys override the first's. */
  lemma {:induction false} FoldAppend(e1: seq<Entry>, e2: seq<Entry>)
    ensures Fold(e1 + e2) == Fold(e1) + Fold(e2)
    decreases |e2|
  {
    if |e2| == 0 {
      assert e1 + e2 == e1;
      assert Fold(e1) + map[] == Fold(e1);
    } else {
      var n := |e2| - 1;
      assert (e1 + e2)[..|e1 + e2| - 1] == e1 + e2[..n];
      assert (e1 + e2)[|e1 + e2| - 1] == e2[n];
      FoldAppend(e1, e2[..n]);
      match e2[n]
      case None =>
      case Some((k, v)) =>
        assert (Fold(e1) + Fold(e2[..n]))[k := v] == Fold(e1) + Fold(e2[..n])[k := v];
    }
  }

  /** The entries of two runs of lines are the runs' entries. */
  lemma {:induction false} EntriesAppend(la: seq<string>, lb: seq<string>)
    requires forall i :: 0 <= i < |la| ==> IsLine(la[i])
    requires forall i :: 0 <= i < |lb| ==> IsLine(lb[i])
    ensures forall i :: 0 <= i < |la + lb| ==> IsLine((la + lb)[i])
    ensures Entries(la + lb) == Entries(la) + Entries(lb)
    decreases |la|
  {
    if |la| == 0 {
      assert la + lb == lb;
    } else {
      var l := la + lb;
      assert l[0] == la[0] && l[1..] == la[1..] + lb;
      EntriesAppend(la[1..], lb);
      assert Entries(l) == [ParseLine(la[0])] + Entries(l[1..]);
      assert Entries(la) == [ParseLine(la[0])] + Entries(la[1..]);
    }
  }

  /** `ConvertNamelist` folds the entries of the file's lines. */
  lemma ConvertNamelistIsFold(text: string)
    ensures forall i :: 0 <= i < |SplitLines(text)| ==> IsLine(SplitLines(text)[i])
    ensures ConvertNamelist(text) == Fold(Entries(SplitLines(text)))
  {
    SplitLinesAreLines(text);
  }

  /** The namelist of a file that is one part after another, the first part
      ending in a newline: a key assigned in the second part takes its value
      there, any other key keeps its value from the first part. */
  lemma ConvertNamelistAppend(a: string, b: string)
    requires |a| == 0 || a[|a| - 1] == '\n'
    ensures ConvertNamelist(a + b) == ConvertNamelist(a) + ConvertNamelist(b)
  {
    var la, lb := SplitLines(a), SplitLines(b);
    SplitLinesAreLines(a);
    SplitLinesAreLines(b);
    SplitLinesAppend(a, b);
    EntriesAppend(la, lb);
    FoldAppend(Entries(la), Entries(lb));
    ConvertNamelistIsFold(a);
    ConvertNamelistIsFold(b);
    ConvertNamelistIsFold(a + b);
  }

  /** The quoting a namelist writer may put around a value: none, `'` or
      `"`. */
  predicate QuoteMark(q: string)
  {
    q == [] || q == ['\''] || q == ['"']
  }

  /** A line in the layout a namelist writer produces: `key = value`, with
      the value between two quote marks `q`. */
  function AssignmentLine(key: string, value: string, q: string): string
  {
    key + " = " + q + value + q + "\n"
  }

  /** A key the pattern reads back unchanged: no `=` or newline in it, and no
      whitespace at either end. */
  predicate PlainKey(key: string)
  {
    && (forall i :: 0 <= i < |key| ==> key[i] != '=' && key[i] != '\n')
    && (|key| == 0 || (!IsSpace(key[0]) && !IsSpace(key[|key| - 1])))
  }

  /** A value the pattern reads back unchanged from between the quote marks
      `q`: no newline, no quote at either end (the pattern strips those),
      and, when unquoted, no whitespace at either end. */
  predicate PlainValue(value: string, q: string)
  {
    && (forall i :: 0 <= i < |value| ==> value[i] != '\n')
    && (|value| == 0 || (!IsQuote(value[0]) && !IsQuote(value[|value| - 1])))
    && (q == [] && |value| > 0 ==> !IsSpace(value[0]) && !IsSpace(value[|value| - 1]))
  }

  /** Where the key, the value and the punctuation of an assignment line
      lie. */
  predicate Layout(line: string, key: string, value: string, q: string)
    requires QuoteMark(q)
  {
    var k, v, w := |key|, |value|, |q|;
    && |line| == k + v + 2 * w + 4
    && line[..k] == key
    && line[k] == ' ' && line[k + 1] == '=' && line[k + 2] == ' '
    && line[k + 3 + w..k + 3 + w + v] == value
    && (w == 1 ==> line[k + 3] == q[0] && line[k + 3 + w + v] == q[0])
    && line[k + 3 + 2 * w + v] == '\n'
  }

  /** An assignment line is laid out as written. */
  lemma AssignmentLayout(key: string, value: string, q: string)
    requires QuoteMark(q)
    ensures Layout(AssignmentLine(key, value, q), key, value, q)
  {
    var line := AssignmentLine(key, value, q);
    var k, v, w := |key|, |value|, |q|;
    assert line == key + [' ', '=', ' '] + q + value + q + ['\n'];
    assert line[..k] == key;
    assert line[k + 3 + w..k + 3 + w + v] == value;
  }

  /** The spans of the match on an assignment line. An empty key leaves the
      space before `=` to the leading run, and an empty value leaves both
      quote marks to the opening run. */
  function LayoutSpans(key: string, value: string, q: string): Spans
  {
    var k, v, w := |key|, |value|, |q|;
    var vs := if v == 0 then k + 3 + 2 * w else k + 3 + w;
    Spans(if k == 0 then 1 else 0, if k == 0 then 1 else k, k + 1, k + 3, vs, vs + v, k + 3 + 2 * w + v)
  }

  /** On an assignment line with a plain key, the pattern's pieces before
      the `=` hold the key. */
  lemma LayoutKeyRuns(line: string, key: string, value: string, q: string)
    requires QuoteMark(q) && PlainKey(key) && PlainValue(value, q) && Layout(line, key, value, q)
    ensures MatchFrame(line, LayoutSpans(key, value, q)) && KeyRuns(line, LayoutSpans(key, value, q))
    ensures line[LayoutSpans(key, value, q).keyStart..LayoutSpans(key, value, q).keyEnd] == key
  {
    var k := |key|;
    var m := LayoutSpans(key, value, q);
    assert forall x :: 0 <= x < k ==> line[x] == key[x] by {
      forall x | 0 <= x < k ensures line[x] == key[x] { assert line[..k][x] == line[x]; }
    }
    assert line[m.keyStart..m.keyEnd] == key;
  }

  /** On an assignment line with a plain value, the pattern's pieces after
      the `=` hold the value. */
  lemma LayoutValueRuns(line: string, key: string, value: string, q: string)
    requires QuoteMark(q) && PlainValue(value, q) && Layout(line, key, value, q)
    ensures MatchFrame(line, LayoutSpans(key, value, q)) && ValueRuns(line, LayoutSpans(key, value, q))
    ensures line[LayoutSpans(key, value, q).valueStart..LayoutSpans(key, value, q).valueEnd] == value
  {
    LayoutValueAt(line, key, value, q);
    var m := LayoutSpans(key, value, q);
    assert line[m.valueStart..m.valueEnd] == value;
  }

  /** On an assignment line, the value's characters sit after `key = ` and
      the opening quote mark. */
  lemma LayoutValueAt(line: string, key: string, value: string, q: string)
    requires QuoteMark(q) && Layout(line, key, value, q)
    ensures forall x :: |key| + 3 + |q| <= x < |key| + 3 + |q| + |value| ==> line[x] == value[x - |key| - 3 - |q|]
  {
    var k, v, w := |key|, |value|, |q|;
    forall x | k + 3 + w <= x < k + 3 + w + v
      ensures line[x] == value[x - k - 3 - w]
    {
      assert line[k + 3 + w..k + 3 + w + v][x - k - 3 - w] == line[x];
    }
  }

  /** An assignment line with a plain key and value is one line. */
  lemma LayoutIsLine(line: string, key: string, value: string, q: string)
    requires QuoteMark(q) && PlainKey(key) && PlainValue(value, q) && Layout(line, key, value, q)
    ensures IsLine(line)
  {
    var k, v, w := |key|, |value|, |q|;
    forall x | 0 <= x < |line| - 1
      ensures line[x] != '\n'
    {
      if x < k {
        assert line[..k][x] == line[x];
      } else if k + 3 + w <= x < k + 3 + w + v {
        assert line[k + 3 + w..k + 3 + w + v][x - k - 3 - w] == line[x];
      }
    }
  }

  /** Writing a key and a value as an assignment line, unquoted or between
      matching quotes, and reading the line back yields the key and the
      value. */
  lemma AssignmentRoundTrip(key: string, value: string, q: string)
    requires QuoteMark(q) && PlainKey(key) && PlainValue(value, q)
    ensures IsLine(AssignmentLine(key, value, q))
    ensures ParseLine(AssignmentLine(key, value, q)) == Some((key, value))
  {
    var line := AssignmentLine(key, value, q);
    AssignmentLayout(key, value, q);
    LayoutIsLine(line, key, value, q);
    LayoutKeyRuns(line, key, value, q);
    LayoutValueRuns(line, key, value, q);
    RegexMatchParses(line, LayoutSpans(key, value, q));
  }

  // ---------------------------------------------------------------------
  // Accessors
  // ---------------------------------------------------------------------

  /** The error a lookup of an absent key raises. */
  datatype NamelistError = KeyError(key: string)

  /** `get` and bracket access: the raw string stored for `key`. */
  function Get(nml: map<string, string>, key: string): (r: Result<string, NamelistError>)
    ensures r.Success? <==> key in nml
    ensures r.Success? ==> r.value == nml[key]
    ensures r.Failure? ==> r.error == KeyError(key)
  {
    if key in nml then Success(nml[key]) else Failure(KeyError(key))
  }

  /** `pat` occurs in `s` starting at index `i`. */
  predicate OccursAt(s: string, pat: string, i: int)
  {
    0 <= i && i + |pat| <= |s| && s[i..i + |pat|] == pat
  }

  /** `s` contains `pat` as a contiguous substring. */
  ghost predicate HasSubstring(s: string, pat: string)
  {
    exists i :: OccursAt(s, pat, i)
  }

  /** Python's `pat in s` on strings: try each starting position in turn.
      A prefix is found, and a pattern longer than the string never is;
      `ContainsIsSubstring` states the whole meaning. */
  function Contains(s: string, pat: string): (r: bool)
    ensures pat <= s ==> r
    ensures |pat| > |s| ==> !r
    decreases |s|
  {
    if pat <= s then true
    else if |s| == 0 then false
    else Contains(s[1..], pat)
  }

  /** The scan finds `pat` exactly when it occurs somewhere in `s`. */
  lemma {:induction false} ContainsIsSubstring(s: string, pat: string)
    ensures Contains(s, pat) <==> HasSubstring(s, pat)
    decreases |s|
  {
    if pat <= s {
      assert OccursAt(s, pat, 0);
    } else if |s| == 0 {
      assert !OccursAt(s, pat, 0);
    } else {
      ContainsIsSubstring(s[1..], pat);
      if HasSubstring(s[1..], pat) {
        var i :| OccursAt(s[1..], pat, i);
        assert OccursAt(s, pat, i + 1);
      }
      if HasSubstring(s, pat) {
        var i :| OccursAt(s, pat, i);
        assert i != 0;
        assert OccursAt(s[1..], pat, i - 1);
      }
    }
  }

  /** `getbool`: true exactly when the raw value contains `True` or `true`.
      Any other text, `TRUE` included, is false; only an absent key fails. */
  function GetBool(nml: map<string, string>, key: string): (r: Result<bool, NamelistError>)
    ensures r.Failure? <==> key !in nml
    ensures r.Failure? ==> r.error == KeyError(key)
    ensures r.Success? ==> (r.value <==> HasSubstring(nml[key], "True") || HasSubstring(nml[key], "true"))
  {
    match Get(nml, key)
    case Failure(e) => Failure(e)
    case Success(v) =>
      ContainsIsSubstring(v, "True");
      ContainsIsSubstring(v, "true");
      Success(Contains(v, "True") || Contains(v, "true"))
  }
}
