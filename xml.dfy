/** The XML tag checker: each line is scanned character by character; an
    opening tag is pushed on a `MyStack` of tag names, a closing tag is
    matched against the top of that stack, and every problem found is
    enqueued on a `MyQueue` of errors. The scan is specified by pure
    functions over the stack and queue contents (`TagClosed`, `ScanFrom`,
    `ProcessedLine`, `ParseFrom`); the parser's methods are proved to
    follow them, and the lemmas below state what a line does to the stack
    and the errors. */
module Xml {
  import opened Common
  import opened Stack
  import opened Queue

  // ---------------------------------------------------------------------
  // Errors and text helpers
  // ---------------------------------------------------------------------

  /** The errors the parser enqueues; each carries the line number it was
      reported at and the trimmed text of that line. */
  datatype XmlError =
    | InvalidCloseTag(lineNumber: int, line: string)              // a line holding ">>"
    | PackageLocationError(lineNumber: int, line: string)         // an open <PackageCreationLocation ...> line
    | InvalidFormat(lineNumber: int, line: string)                // a line lacking '<' or '>'
    | UnexpectedClosingTag(lineNumber: int, line: string)         // a closing tag with nothing open
    | MismatchedTags(lineNumber: int, expected: string, found: string, line: string)
    | InvalidTagName(lineNumber: int, line: string)               // an opening tag with a bad name

  /** What `String.trim` removes: a character no greater than a space. */
  predicate IsBlank(c: char)
  {
    c <= ' '
  }

  /** The text without its leading blanks. */
  function TrimStart(s: string): string
    decreases |s|
  {
    if s != [] && IsBlank(s[0]) then TrimStart(s[1..]) else s
  }

  /** The text without its trailing blanks. */
  function TrimEnd(s: string): string
    decreases |s|
  {
    if s != [] && IsBlank(s[|s| - 1]) then TrimEnd(s[..|s| - 1]) else s
  }

  /** `String.trim`: the text without its leading and trailing blanks. */
  function Trim(s: string): string
  {
    TrimEnd(TrimStart(s))
  }

  lemma {:induction false} TrimStartSpec(s: string)
    ensures |TrimStart(s)| <= |s| && TrimStart(s) == s[|s| - |TrimStart(s)|..]
    ensures forall i :: 0 <= i < |s| - |TrimStart(s)| ==> IsBlank(s[i])
    ensures TrimStart(s) == [] || !IsBlank(TrimStart(s)[0])
    decreases |s|
  {
    if s != [] && IsBlank(s[0]) {
      TrimStartSpec(s[1..]);
      forall i | 0 < i < |s| - |TrimStart(s)| ensures IsBlank(s[i]) {
        assert s[i] == s[1..][i - 1];
      }
    }
  }

  lemma {:induction false} TrimEndSpec(s: string)
    ensures |TrimEnd(s)| <= |s| && TrimEnd(s) == s[..|TrimEnd(s)|]
    ensures forall i :: |TrimEnd(s)| <= i < |s| ==> IsBlank(s[i])
    ensures TrimEnd(s) == [] || !IsBlank(TrimEnd(s)[|TrimEnd(s)| - 1])
    decreases |s|
  {
    if s != [] && IsBlank(s[|s| - 1]) {
      TrimEndSpec(s[..|s| - 1]);
      forall i | |TrimEnd(s)| <= i < |s| - 1 ensures IsBlank(s[i]) {
        assert s[i] == s[..|s| - 1][i];
      }
    }
  }

  /** What `trim` keeps: a slice of the text whose outside is all blanks
      and whose two ends are not blank; it is empty exactly when the text
      is all blanks. */
  lemma TrimSpec(s: string)
    ensures var r := Trim(s);
      exists a, b :: 0 <= a <= b <= |s| && r == s[a..b]
                     && (forall i :: 0 <= i < a ==> IsBlank(s[i]))
                     && (forall i :: b <= i < |s| ==> IsBlank(s[i]))
    ensures Trim(s) != [] ==> !IsBlank(Trim(s)[0]) && !IsBlank(Trim(s)[|Trim(s)| - 1])
    ensures (forall i :: 0 <= i < |s| ==> IsBlank(s[i])) <==> Trim(s) == []
  {
    var t := TrimStart(s);
    var r := TrimEnd(t);
    TrimStartSpec(s);
    TrimEndSpec(t);
    var a := |s| - |t|;
    var b := a + |r|;
    assert r == s[a..b];
    forall i | b <= i < |s| ensures IsBlank(s[i]) {
      assert s[i] == t[i - a];
    }
    if r != [] {
      assert r[0] == t[0];
    }
  }

  /** `String.startsWith`. */
  predicate StartsWith(s: string, prefix: string)
  {
    |prefix| <= |s| && s[..|prefix|] == prefix
  }

  /** `String.endsWith`. */
  predicate EndsWith(s: string, suffix: string)
  {
    |suffix| <= |s| && s[|s| - |suffix|..] == suffix
  }

  /** `line.contains(">>")`. */
  predicate HasDoubleClose(s: string)
  {
    exists i :: 0 <= i < |s| - 1 && s[i] == '>' && s[i + 1] == '>'
  }

  /** `tag.split(" ")[0]` on a trimmed, non-empty tag: the text before the
      first space, or the whole tag when it has none. */
  function FirstWord(s: string): string
    decreases |s|
  {
    if s == [] || s[0] == ' ' then [] else [s[0]] + FirstWord(s[1..])
  }

  /** The first word is a prefix without a space, followed by a space or
      the end of the text. */
  lemma {:induction false} FirstWordSpec(s: string)
    ensures StartsWith(s, FirstWord(s)) && ' ' !in FirstWord(s)
    ensures |FirstWord(s)| < |s| ==> s[|FirstWord(s)|] == ' '
    decreases |s|
  {
    if s != [] && s[0] != ' ' {
      FirstWordSpec(s[1..]);
      assert s == [s[0]] + s[1..];
    }
  }

  predicate IsAsciiLetter(c: char)
  {
    'a' <= c <= 'z' || 'A' <= c <= 'Z'
  }

  /** Whether `s` matches `^[a-zA-Z][a-zA-Z0-9_]*$`. */
  predicate IsTagName(s: string)
  {
    && |s| >= 1
    && IsAsciiLetter(s[0])
    && forall i :: 1 <= i < |s| ==> IsAsciiLetter(s[i]) || '0' <= s[i] <= '9' || s[i] == '_'
  }

  // ---------------------------------------------------------------------
  // What the scan does to the stack and the queue
  // ---------------------------------------------------------------------

  /** The contents of the tag stack (bottom first) and of the error queue
      (front first). */
  datatype Outcome = Outcome(stack: seq<string>, errors: seq<XmlError>)

  /** The scanner's variables: whether a tag is open, the text gathered
      since its `<`, and whether it began with `/`. */
  datatype Scan = Scan(insideTag: bool, currentTag: string, isClosingTag: bool)

  /** What reaching `>` does with the trimmed tag text. */
  function TagClosed(tag: string, isClosingTag: bool, lineNumber: int, line: string, st: Outcome): Outcome
  {
    if tag == [] then st
    else if isClosingTag then
      if st.stack == [] then Outcome(st.stack, st.errors + [UnexpectedClosingTag(lineNumber, line)])
      else
        var last := st.stack[|st.stack| - 1];
        if last == tag then Outcome(st.stack[..|st.stack| - 1], st.errors)
        else Outcome(st.stack, st.errors + [MismatchedTags(lineNumber, last, tag, line)])
    else if EndsWith(tag, "/") then st
    else
      var name := FirstWord(tag);
      if IsTagName(name) then Outcome(st.stack + [name], st.errors)
      else Outcome(st.stack, st.errors + [InvalidTagName(lineNumber, line)])
  }

  /** One character of the scan. */
  function Step(c: char, sc: Scan, lineNumber: int, line: string, st: Outcome): (Scan, Outcome)
  {
    if c == '<' then (Scan(true, [], false), st)
    else if c == '>' then
      (sc.(insideTag := false), TagClosed(Trim(sc.currentTag), sc.isClosingTag, lineNumber, line, st))
    else if sc.insideTag then
      if c == '/' && sc.currentTag == [] then (sc.(isClosingTag := true), st)
      else (sc.(currentTag := sc.currentTag + [c]), st)
    else (sc, st)
  }

  /** The scan of `line` from position `i` on. */
  function ScanFrom(line: string, lineNumber: int, i: nat, sc: Scan, st: Outcome): Outcome
    decreases |line| - i
  {
    if i >= |line| then st
    else
      var (sc', st') := Step(line[i], sc, lineNumber, line, st);
      ScanFrom(line, lineNumber, i + 1, sc', st')
  }

  /** `processLine`: a line lacking `<` or `>` is one format error;
      otherwise the scan from a closed, empty tag. */
  function ProcessedLine(line: string, lineNumber: int, st: Outcome): Outcome
  {
    if '<' !in line || '>' !in line then Outcome(st.stack, st.errors + [InvalidFormat(lineNumber, line)])
    else ScanFrom(line, lineNumber, 0, Scan(false, [], false), st)
  }

  /** Whether `parse` passes over a trimmed line without a word: blank
      lines and the XML declaration. */
  predicate Skipped(line: string)
  {
    line == [] || StartsWith(line, "<?xml")
  }

  /** Whether `parse` reports a trimmed line as an unclosed
      `PackageCreationLocation` element. */
  predicate OpenPackageLocation(line: string)
  {
    StartsWith(line, "<PackageCreationLocation") && '>' in line && !EndsWith(line, "/>")
  }

  /** `parse` over the lines of a file: each is trimmed; skipped lines and
      the two rejected kinds do not advance the line number; every other
      line is processed and does. */
  function ParseFrom(lines: seq<string>, lineNumber: int, st: Outcome): Outcome
    decreases |lines|
  {
    if lines == [] then st
    else
      var line := Trim(lines[0]);
      if Skipped(line) then ParseFrom(lines[1..], lineNumber, st)
      else if HasDoubleClose(line) then
        ParseFrom(lines[1..], lineNumber, Outcome(st.stack, st.errors + [InvalidCloseTag(lineNumber, line)]))
      else if OpenPackageLocation(line) then
        ParseFrom(lines[1..], lineNumber, Outcome(st.stack, st.errors + [PackageLocationError(lineNumber, line)]))
      else ParseFrom(lines[1..], lineNumber + 1, ProcessedLine(line, lineNumber, st))
  }

  // ---------------------------------------------------------------------
  // Properties of the scan
  // ---------------------------------------------------------------------

  /** A line without both brackets adds one format error and leaves the
      stack alone. */
  lemma NoBracketsOneError(line: string, lineNumber: int, st: Outcome)
    requires '<' !in line || '>' !in line
    ensures ProcessedLine(line, lineNumber, st).stack == st.stack
    ensures ProcessedLine(line, lineNumber, st).errors == st.errors + [InvalidFormat(lineNumber, line)]
  {
  }

  /** What `>` does, case by case: an opening tag pushes its first word
      when that is a valid name and otherwise reports it; a self-closing tag
      changes nothing; a closing tag with nothing open is reported; a
      closing tag equal to the top pops it; any other closing tag is
      reported and the stack is left as it was. */
  lemma TagClosedCases(tag: string, closing: bool, lineNumber: int, line: string, st: Outcome)
    requires tag != []
    ensures var r := TagClosed(tag, closing, lineNumber, line, st);
      && (!closing && !EndsWith(tag, "/") && IsTagName(FirstWord(tag)) ==>
            r == Outcome(st.stack + [FirstWord(tag)], st.errors))
      && (!closing && !EndsWith(tag, "/") && !IsTagName(FirstWord(tag)) ==>
            r == Outcome(st.stack, st.errors + [InvalidTagName(lineNumber, line)]))
      && (!closing && EndsWith(tag, "/") ==> r == st)
      && (closing && st.stack == [] ==>
            r == Outcome([], st.errors + [UnexpectedClosingTag(lineNumber, line)]))
      && (closing && st.stack != [] && st.stack[|st.stack| - 1] == tag ==>
            r == Outcome(st.stack[..|st.stack| - 1], st.errors))
      && (closing && st.stack != [] && st.stack[|st.stack| - 1] != tag ==>
            r.stack == st.stack && |r.errors| == |st.errors| + 1)
  {
  }

  /** Every name on the stack is a valid tag name. */
  ghost predicate AllNames(stack: seq<string>)
  {
    forall i :: 0 <= i < |stack| ==> IsTagName(stack[i])
  }

  /** What `>` does keeps the stack to valid names and only appends
      errors. */
  lemma TagClosedKeeps(tag: string, closing: bool, lineNumber: int, line: string, st: Outcome)
    ensures var r := TagClosed(tag, closing, lineNumber, line, st);
      && (AllNames(st.stack) ==> AllNames(r.stack))
      && |st.errors| <= |r.errors| && r.errors[..|st.errors|] == st.errors
  {
    var r := TagClosed(tag, closing, lineNumber, line, st);
    assert r.errors == st.errors || r.errors == st.errors + [r.errors[|r.errors| - 1]];
  }

  /** One character of the scan keeps the stack to valid names and only
      appends errors. */
  lemma StepKeeps(c: char, sc: Scan, lineNumber: int, line: string, st: Outcome)
    ensures var r := Step(c, sc, lineNumber, line, st).1;
      && (AllNames(st.stack) ==> AllNames(r.stack))
      && |st.errors| <= |r.errors| && r.errors[..|st.errors|] == st.errors
  {
    if c == '>' {
      TagClosedKeeps(Trim(sc.currentTag), sc.isClosingTag, lineNumber, line, st);
    }
  }

  /** The scan keeps the stack to valid names and only appends errors. */
  lemma {:induction false} ScanKeeps(line: string, lineNumber: int, i: nat, sc: Scan, st: Outcome)
    ensures var r := ScanFrom(line, lineNumber, i, sc, st);
      && (AllNames(st.stack) ==> AllNames(r.stack))
      && |st.errors| <= |r.errors| && r.errors[..|st.errors|] == st.errors
    decreases |line| - i
  {
    if i < |line| {
      var next := Step(line[i], sc, lineNumber, line, st);
      assert ScanFrom(line, lineNumber, i, sc, st) == ScanFrom(line, lineNumber, i + 1, next.0, next.1);
      StepKeeps(line[i], sc, lineNumber, line, st);
      ScanKeeps(line, lineNumber, i + 1, next.0, next.1);
      var r := ScanFrom(line, lineNumber, i + 1, next.0, next.1);
      assert r.errors[..|st.errors|] == r.errors[..|next.1.errors|][..|st.errors|];
    }
  }

  /** Processing a line keeps the stack to valid names and only appends
      errors. */
  lemma ProcessedLineKeeps(line: string, lineNumber: int, st: Outcome)
    ensures var r := ProcessedLine(line, lineNumber, st);
      && (AllNames(st.stack) ==> AllNames(r.stack))
      && |st.errors| <= |r.errors| && r.errors[..|st.errors|] == st.errors
  {
    if '<' in line && '>' in line {
      ScanKeeps(line, lineNumber, 0, Scan(false, [], false), st);
    }
  }

  /** A whole parse keeps the stack to valid names, and errors once queued
      stay queued, in order. */
  lemma {:induction false} ParseKeeps(lines: seq<string>, lineNumber: int, st: Outcome)
    ensures var r := ParseFrom(lines, lineNumber, st);
      && (AllNames(st.stack) ==> AllNames(r.stack))
      && |st.errors| <= |r.errors| && r.errors[..|st.errors|] == st.errors
    decreases |lines|
  {
    if lines != [] {
      var line := Trim(lines[0]);
      var st': Outcome, n': int;
      if Skipped(line) {
        st', n' := st, lineNumber;
      } else if HasDoubleClose(line) {
        st', n' := Outcome(st.stack, st.errors + [InvalidCloseTag(lineNumber, line)]), lineNumber;
      } else if OpenPackageLocation(line) {
        st', n' := Outcome(st.stack, st.errors + [PackageLocationError(lineNumber, line)]), lineNumber;
      } else {
        ProcessedLineKeeps(line, lineNumber, st);
        st', n' := ProcessedLine(line, lineNumber, st), lineNumber + 1;
      }
      assert ParseFrom(lines, lineNumber, st) == ParseFrom(lines[1..], n', st');
      ParseKeeps(lines[1..], n', st');
      var r := ParseFrom(lines[1..], n', st');
      assert r.errors[..|st.errors|] == r.errors[..|st'.errors|][..|st.errors|];
    }
  }

  /** Text with no bracket and no slash, read inside a tag, is gathered
      into the tag unchanged. */
  lemma {:induction false} GatherWord(line: string, lineNumber: int, i: nat, w: string, cur: string, closing: bool, st: Outcome)
    requires i + |w| <= |line| && line[i..i + |w|] == w
    requires forall k :: 0 <= k < |w| ==> w[k] != '<' && w[k] != '>' && w[k] != '/'
    ensures ScanFrom(line, lineNumber, i, Scan(true, cur, closing), st)
         == ScanFrom(line, lineNumber, i + |w|, Scan(true, cur + w, closing), st)
    decreases |w|
  {
    if w == [] {
      assert cur + w == cur;
    } else {
      var c, rest := w[0], w[1..];
      assert line[i] == c;
      StepInside(line, lineNumber, i, cur, closing, st);
      assert line[i + 1..i + 1 + |rest|] == rest;
      GatherWord(line, lineNumber, i + 1, rest, cur + [c], closing, st);
      assert i + 1 + |rest| == i + |w|;
      assert cur + [c] + rest == cur + w;
      assert ScanFrom(line, lineNumber, i + 1, Scan(true, cur + [c], closing), st)
          == ScanFrom(line, lineNumber, i + |w|, Scan(true, cur + w, closing), st);
      assert ScanFrom(line, lineNumber, i, Scan(true, cur, closing), st)
          == ScanFrom(line, lineNumber, i + 1, Scan(true, cur + [c], closing), st);
    }
  }

  /** One character other than a bracket or a slash, inside a tag, is
      added to the tag text. */
  lemma StepInside(line: string, lineNumber: int, i: nat, cur: string, closing: bool, st: Outcome)
    requires i < |line| && line[i] != '<' && line[i] != '>' && line[i] != '/'
    ensures ScanFrom(line, lineNumber, i, Scan(true, cur, closing), st)
         == ScanFrom(line, lineNumber, i + 1, Scan(true, cur + [line[i]], closing), st)
  {
  }

  /** Text with no bracket, read outside a tag, is passed over. */
  lemma {:induction false} SkipText(line: string, lineNumber: int, i: nat, t: string, sc: Scan, st: Outcome)
    requires !sc.insideTag
    requires i + |t| <= |line| && line[i..i + |t|] == t
    requires '<' !in t && '>' !in t
    ensures ScanFrom(line, lineNumber, i, sc, st) == ScanFrom(line, lineNumber, i + |t|, sc, st)
    decreases |t|
  {
    if t != [] {
      assert line[i] == t[0];
      assert ScanFrom(line, lineNumber, i, sc, st) == ScanFrom(line, lineNumber, i + 1, sc, st);
      assert line[i + 1..i + 1 + |t[1..]|] == t[1..];
      SkipText(line, lineNumber, i + 1, t[1..], sc, st);
    }
  }

  /** A tag name has no blank, bracket, slash or space in it, so trimming
      it and taking its first word both give it back. */
  lemma NameIsPlain(n: string)
    requires IsTagName(n)
    ensures forall k :: 0 <= k < |n| ==> n[k] != '<' && n[k] != '>' && n[k] != '/' && !IsBlank(n[k])
    ensures Trim(n) == n && FirstWord(n) == n && !EndsWith(n, "/")
  {
    NameTrimmed(n);
    FirstWordWhole(n);
    assert n[|n| - 1] != '/';
  }

  lemma NameTrimmed(n: string)
    requires IsTagName(n)
    ensures Trim(n) == n
  {
    assert TrimStart(n) == n;
    assert !IsBlank(n[|n| - 1]);
    assert TrimEnd(n) == n;
  }

  lemma {:induction false} FirstWordWhole(s: string)
    requires ' ' !in s
    ensures FirstWord(s) == s
    decreases |s|
  {
    if s != [] {
      FirstWordWhole(s[1..]);
      assert s == [s[0]] + s[1..];
    }
  }

  /** `<n>` with a valid name `n` pushes `n`. */
  lemma OpenTagPushes(line: string, lineNumber: int, i: nat, n: string, sc: Scan, st: Outcome)
    requires IsTagName(n)
    requires i + |n| + 2 <= |line| && line[i] == '<' && line[i + 1..i + 1 + |n|] == n && line[i + 1 + |n|] == '>'
    ensures ScanFrom(line, lineNumber, i, sc, st)
         == ScanFrom(line, lineNumber, i + |n| + 2, Scan(false, n, false), Outcome(st.stack + [n], st.errors))
  {
    NameIsPlain(n);
    assert ScanFrom(line, lineNumber, i, sc, st) == ScanFrom(line, lineNumber, i + 1, Scan(true, [], false), st);
    GatherWord(line, lineNumber, i + 1, n, [], false, st);
    assert [] + n == n;
  }

  /** `</n>` with `n` on top of the stack pops it. */
  lemma CloseTagPops(line: string, lineNumber: int, i: nat, n: string, sc: Scan, st: Outcome)
    requires IsTagName(n) && st.stack != [] && st.stack[|st.stack| - 1] == n
    requires i + |n| + 3 <= |line| && line[i] == '<' && line[i + 1] == '/'
    requires line[i + 2..i + 2 + |n|] == n && line[i + 2 + |n|] == '>'
    ensures ScanFrom(line, lineNumber, i, sc, st)
         == ScanFrom(line, lineNumber, i + |n| + 3, Scan(false, n, true), Outcome(st.stack[..|st.stack| - 1], st.errors))
  {
    NameIsPlain(n);
    assert ScanFrom(line, lineNumber, i, sc, st) == ScanFrom(line, lineNumber, i + 2, Scan(true, [], true), st);
    GatherWord(line, lineNumber, i + 2, n, [], true, st);
    assert [] + n == n;
  }

  /** An element opened and closed on one line, around text with no
      bracket, leaves the stack and the errors as they were. */
  lemma Balanced(n: string, text: string, lineNumber: int, st: Outcome)
    requires IsTagName(n)
    requires '<' !in text && '>' !in text
    ensures ProcessedLine("<" + n + ">" + text + "</" + n + ">", lineNumber, st) == st
  {
    var line := "<" + n + ">" + text + "</" + n + ">";
    ElementLayout(n, text, n);
    BalancedScan(line, n, text, lineNumber, st);
    assert line[0] == '<' && line[|n| + 1] == '>';
  }

  /** Where the pieces of `<a>text</b>` sit. */
  lemma ElementLayout(a: string, text: string, b: string)
    ensures var line := "<" + a + ">" + text + "</" + b + ">";
      var m, u := |a|, |a| + 2 + |text|;
      && |line| == u + |b| + 3
      && line[0] == '<' && line[1..1 + m] == a && line[m + 1] == '>'
      && line[m + 2..u] == text
      && line[u] == '<' && line[u + 1] == '/' && line[u + 2..u + 2 + |b|] == b && line[u + 2 + |b|] == '>'
  {
  }

  lemma BalancedScan(line: string, n: string, text: string, lineNumber: int, st: Outcome)
    requires IsTagName(n)
    requires '<' !in text && '>' !in text
    requires var m, u := |n|, |n| + 2 + |text|;
      && |line| == u + m + 3
      && line[0] == '<' && line[1..1 + m] == n && line[m + 1] == '>'
      && line[m + 2..u] == text
      && line[u] == '<' && line[u + 1] == '/' && line[u + 2..u + 2 + m] == n && line[u + 2 + m] == '>'
    ensures ScanFrom(line, lineNumber, 0, Scan(false, [], false), st) == st
  {
    var m, u := |n|, |n| + 2 + |text|;
    var pushed := Outcome(st.stack + [n], st.errors);
    OpenTagPushes(line, lineNumber, 0, n, Scan(false, [], false), st);
    SkipText(line, lineNumber, m + 2, text, Scan(false, n, false), pushed);
    CloseTagPops(line, lineNumber, u, n, Scan(false, n, false), pushed);
    assert pushed.stack[..|pushed.stack| - 1] == st.stack;
  }

  /** The closing `>` does not forget the tag it closed: a second `>` later
      on the line, outside any tag, closes the same tag again, so
      `<n> >` pushes `n` twice. */
  lemma StrayCloseRepeatsTag(n: string, lineNumber: int, st: Outcome)
    requires IsTagName(n)
    ensures ProcessedLine("<" + n + "> >", lineNumber, st) == Outcome(st.stack + [n, n], st.errors)
  {
    var line := "<" + n + "> >";
    var m := |n|;
    assert |line| == m + 4 && line[0] == '<' && line[1..1 + m] == n && line[m + 1] == '>';
    assert line[m + 2] == ' ' && line[m + 3] == '>';
    StrayScan(line, n, lineNumber, st);
  }

  lemma StrayScan(line: string, n: string, lineNumber: int, st: Outcome)
    requires IsTagName(n)
    requires var m := |n|;
      && |line| == m + 4 && line[0] == '<' && line[1..1 + m] == n && line[m + 1] == '>'
      && line[m + 2] == ' ' && line[m + 3] == '>'
    ensures ScanFrom(line, lineNumber, 0, Scan(false, [], false), st) == Outcome(st.stack + [n, n], st.errors)
  {
    var m := |n|;
    var once := Outcome(st.stack + [n], st.errors);
    OpenTagPushes(line, lineNumber, 0, n, Scan(false, [], false), st);
    NameIsPlain(n);
    var sc := Scan(false, n, false);
    assert ScanFrom(line, lineNumber, m + 2, sc, once) == ScanFrom(line, lineNumber, m + 3, sc, once);
    var twice := Outcome(once.stack + [n], once.errors);
    assert TagClosed(Trim(n), false, lineNumber, line, once) == twice;
    assert ScanFrom(line, lineNumber, m + 3, sc, once) == ScanFrom(line, lineNumber, m + 4, sc, twice);
    assert once.stack + [n] == st.stack + [n, n];
  }

  /** `</n>` at position `i` hands `n` to the closing branch, whatever the
      stack holds. */
  lemma CloseTagCloses(line: string, lineNumber: int, i: nat, n: string, sc: Scan, st: Outcome)
    requires IsTagName(n)
    requires i + |n| + 3 <= |line| && line[i] == '<' && line[i + 1] == '/'
    requires line[i + 2..i + 2 + |n|] == n && line[i + 2 + |n|] == '>'
    ensures ScanFrom(line, lineNumber, i, sc, st)
         == ScanFrom(line, lineNumber, i + |n| + 3, Scan(false, n, true), TagClosed(n, true, lineNumber, line, st))
  {
    NameIsPlain(n);
    assert ScanFrom(line, lineNumber, i, sc, st) == ScanFrom(line, lineNumber, i + 2, Scan(true, [], true), st);
    GatherWord(line, lineNumber, i + 2, n, [], true, st);
    assert [] + n == n;
  }

  /** A self-closing element `<n/>` leaves the stack and the errors as they
      were. */
  lemma SelfClosingKeeps(n: string, lineNumber: int, st: Outcome)
    requires IsTagName(n)
    ensures ProcessedLine("<" + n + "/>", lineNumber, st) == st
  {
    var line := "<" + n + "/>";
    var m := |n|;
    assert |line| == m + 3 && line[0] == '<' && line[1..1 + m] == n && line[m + 1] == '/' && line[m + 2] == '>';
    SelfClosingScan(line, n, lineNumber, st);
  }

  lemma SelfClosingScan(line: string, n: string, lineNumber: int, st: Outcome)
    requires IsTagName(n)
    requires var m := |n|;
      |line| == m + 3 && line[0] == '<' && line[1..1 + m] == n && line[m + 1] == '/' && line[m + 2] == '>'
    ensures ScanFrom(line, lineNumber, 0, Scan(false, [], false), st) == st
  {
    var m := |n|;
    NameIsPlain(n);
    assert ScanFrom(line, lineNumber, 0, Scan(false, [], false), st) == ScanFrom(line, lineNumber, 1, Scan(true, [], false), st);
    GatherWord(line, lineNumber, 1, n, [], false, st);
    assert [] + n == n;
    var tag := n + "/";
    assert ScanFrom(line, lineNumber, m + 1, Scan(true, n, false), st)
        == ScanFrom(line, lineNumber, m + 2, Scan(true, tag, false), st);
    SlashTagTrimmed(n);
    assert TagClosed(Trim(tag), false, lineNumber, line, st) == st;
    assert ScanFrom(line, lineNumber, m + 2, Scan(true, tag, false), st)
        == ScanFrom(line, lineNumber, m + 3, Scan(false, tag, false), st);
  }

  /** `n/` keeps its ends under trimming and ends in a slash. */
  lemma SlashTagTrimmed(n: string)
    requires IsTagName(n)
    ensures Trim(n + "/") == n + "/" && EndsWith(n + "/", "/")
  {
    var t := n + "/";
    assert t[0] == n[0];
    assert TrimStart(t) == t;
    assert t[|t| - 1] == '/';
    assert TrimEnd(t) == t;
  }

  /** `</n>` with no element open adds exactly one unexpected-closing-tag
      error and leaves the stack empty. */
  lemma UnexpectedClose(n: string, lineNumber: int, errors: seq<XmlError>)
    requires IsTagName(n)
    ensures ProcessedLine("</" + n + ">", lineNumber, Outcome([], errors))
         == Outcome([], errors + [UnexpectedClosingTag(lineNumber, "</" + n + ">")])
  {
    var line := "</" + n + ">";
    var m := |n|;
    assert |line| == m + 3 && line[0] == '<' && line[1] == '/' && line[2..2 + m] == n && line[m + 2] == '>';
    CloseTagCloses(line, lineNumber, 0, n, Scan(false, [], false), Outcome([], errors));
  }

  /** `<a>text</b>` with two different valid names keeps `a` open and adds
      exactly one mismatch error naming `a` as expected and `b` as found. */
  lemma Mismatched(a: string, text: string, b: string, lineNumber: int, st: Outcome)
    requires IsTagName(a) && IsTagName(b) && a != b
    requires '<' !in text && '>' !in text
    ensures var line := "<" + a + ">" + text + "</" + b + ">";
      ProcessedLine(line, lineNumber, st)
      == Outcome(st.stack + [a], st.errors + [MismatchedTags(lineNumber, a, b, line)])
  {
    var line := "<" + a + ">" + text + "</" + b + ">";
    ElementLayout(a, text, b);
    MismatchedScan(line, a, text, b, lineNumber, st);
    assert line[0] == '<' && line[|a| + 1] == '>';
  }

  lemma MismatchedScan(line: string, a: string, text: string, b: string, lineNumber: int, st: Outcome)
    requires IsTagName(a) && IsTagName(b) && a != b
    requires '<' !in text && '>' !in text
    requires var m, u := |a|, |a| + 2 + |text|;
      && |line| == u + |b| + 3
      && line[0] == '<' && line[1..1 + m] == a && line[m + 1] == '>'
      && line[m + 2..u] == text
      && line[u] == '<' && line[u + 1] == '/' && line[u + 2..u + 2 + |b|] == b && line[u + 2 + |b|] == '>'
    ensures ScanFrom(line, lineNumber, 0, Scan(false, [], false), st)
         == Outcome(st.stack + [a], st.errors + [MismatchedTags(lineNumber, a, b, line)])
  {
    var m, u := |a|, |a| + 2 + |text|;
    var pushed := Outcome(st.stack + [a], st.errors);
    OpenTagPushes(line, lineNumber, 0, a, Scan(false, [], false), st);
    SkipText(line, lineNumber, m + 2, text, Scan(false, a, false), pushed);
    CloseTagCloses(line, lineNumber, u, b, Scan(false, a, false), pushed);
    NameIsPlain(b);
    assert pushed.stack[|pushed.stack| - 1] == a;
  }

  /** `/` makes a closing tag only right after `<`; later it is part of the
      tag text. */
  lemma SlashOnlyFirst(c: char, sc: Scan, lineNumber: int, line: string, st: Outcome)
    requires c == '/' && sc.insideTag
    ensures sc.currentTag == [] ==> Step(c, sc, lineNumber, line, st) == (sc.(isClosingTag := true), st)
    ensures sc.currentTag != [] ==> Step(c, sc, lineNumber, line, st) == (sc.(currentTag := sc.currentTag + "/"), st)
  {
  }

  /** Lines `parse` passes over leave everything as it was and do not
      advance the line number; the two rejected kinds each add their error
      and do not advance it either. */
  lemma ParseSkips(line: string, rest: seq<string>, lineNumber: int, st: Outcome)
    ensures Skipped(Trim(line)) ==>
              ParseFrom([line] + rest, lineNumber, st) == ParseFrom(rest, lineNumber, st)
    ensures !Skipped(Trim(line)) && HasDoubleClose(Trim(line)) ==>
              ParseFrom([line] + rest, lineNumber, st)
              == ParseFrom(rest, lineNumber, Outcome(st.stack, st.errors + [InvalidCloseTag(lineNumber, Trim(line))]))
    ensures !Skipped(Trim(line)) && !HasDoubleClose(Trim(line)) && OpenPackageLocation(Trim(line)) ==>
              ParseFrom([line] + rest, lineNumber, st)
              == ParseFrom(rest, lineNumber, Outcome(st.stack, st.errors + [PackageLocationError(lineNumber, Trim(line))]))
  {
    assert ([line] + rest)[0] == line && ([line] + rest)[1..] == rest;
  }

  // ---------------------------------------------------------------------
  // The parser
  // ---------------------------------------------------------------------

  class XMLParser {
    const tagStack: MyStack<string>
    const errorQueue: MyQueue<XmlError>
    ghost var Repr: set<object>

    /** The parser owns its stack and queue, which share nothing. */
    ghost predicate Valid()
      reads this, Repr
    {
      && this in Repr
      && tagStack in Repr && tagStack.Repr <= Repr && this !in tagStack.Repr
      && errorQueue in Repr && errorQueue.Repr <= Repr && this !in errorQueue.Repr
      && tagStack.Repr !! errorQueue.Repr
      && tagStack.Valid() && errorQueue.Valid()
    }

    /** The stack and queue contents together. */
    ghost function State(): Outcome
      reads this, tagStack, errorQueue
    {
      Outcome(tagStack.Contents, errorQueue.Contents)
    }

    /** A parser with an empty stack and no errors. */
    constructor ()
      ensures Valid() && fresh(Repr) && State() == Outcome([], [])
    {
      tagStack := new MyStack();
      errorQueue := new MyQueue();
      new;
      Repr := {this} + tagStack.Repr + errorQueue.Repr;
    }

    /** `errorQueue.enqueue(error)`. */
    method Report(error: XmlError)
      requires Valid()
      modifies Repr
      ensures Valid() && fresh(Repr - old(Repr))
      ensures State() == Outcome(old(State()).stack, old(State()).errors + [error])
    {
      var _ := errorQueue.Enqueue(Some(error));
      Repr := Repr + errorQueue.Repr;
    }

    /** `tagStack.push(tag)`. */
    method PushTag(tag: string)
      requires Valid()
      modifies Repr
      ensures Valid() && fresh(Repr - old(Repr))
      ensures State() == Outcome(old(State()).stack + [tag], old(State()).errors)
    {
      var _ := tagStack.Push(Some(tag));
      Repr := Repr + tagStack.Repr;
    }

    /** Reads the lines of a file in order, passing over blank lines and
        the declaration, reporting the two rejected kinds of line, and
        processing the rest with a running line number. */
    method Parse(lines: seq<string>)
      requires Valid()
      modifies Repr
      ensures Valid() && fresh(Repr - old(Repr))
      ensures State() == ParseFrom(lines, 1, old(State()))
    {
      var lineNumber := 1;
      for i := 0 to |lines|
        invariant Valid() && fresh(Repr - old(Repr))
        invariant ParseFrom(lines[i..], lineNumber, State()) == ParseFrom(lines, 1, old(State()))
      {
        assert lines[i..][1..] == lines[i + 1..];
        var line := Trim(lines[i]);
        if line == [] || StartsWith(line, "<?xml") {
          continue;
        }
        if HasDoubleClose(line) {
          Report(InvalidCloseTag(lineNumber, line));
          continue;
        }
        if StartsWith(line, "<PackageCreationLocation") && '>' in line && !EndsWith(line, "/>") {
          Report(PackageLocationError(lineNumber, line));
          continue;
        }
        ProcessLine(line, lineNumber);
        lineNumber := lineNumber + 1;
      }
    }

    /** Scans one line, pushing opening tags, matching closing tags, and
        reporting what is wrong. */
    method ProcessLine(line: string, lineNumber: int)
      requires Valid()
      modifies Repr
      ensures Valid() && fresh(Repr - old(Repr))
      ensures State() == ProcessedLine(line, lineNumber, old(State()))
    {
      if '<' !in line || '>' !in line {
        Report(InvalidFormat(lineNumber, line));
        return;
      }
      var insideTag := false;
      var currentTag: string := [];
      var isClosingTag := false;
      for i := 0 to |line|
        invariant Valid() && fresh(Repr - old(Repr))
        invariant ScanFrom(line, lineNumber, i, Scan(insideTag, currentTag, isClosingTag), State())
               == ProcessedLine(line, lineNumber, old(State()))
      {
        var c := line[i];
        if c == '<' {
          insideTag := true;
          currentTag := [];
          isClosingTag := false;
        } else if c == '>' {
          insideTag := false;
          var tag := Trim(currentTag);
          CloseTag(tag, isClosingTag, lineNumber, line);
        } else if insideTag {
          if c == '/' && |currentTag| == 0 {
            isClosingTag := true;
          } else {
            currentTag := currentTag + [c];
          }
        }
      }
    }

    /** What `processLine` does on reaching `>` with the trimmed tag. */
    method CloseTag(tag: string, isClosingTag: bool, lineNumber: int, line: string)
      requires Valid()
      modifies Repr
      ensures Valid() && fresh(Repr - old(Repr))
      ensures State() == TagClosed(tag, isClosingTag, lineNumber, line, old(State()))
    {
      if tag == [] {
        return;
      }
      if isClosingTag {
        if tagStack.IsEmpty() {
          Report(UnexpectedClosingTag(lineNumber, line));
        } else {
          var popped := tagStack.Pop();
          var lastOpenedTag := popped.value;
          if lastOpenedTag != tag {
            Report(MismatchedTags(lineNumber, lastOpenedTag, tag, line));
            PushTag(lastOpenedTag);
          }
        }
      } else if !EndsWith(tag, "/") {
        var name := FirstWord(tag);
        if !IsTagName(name) {
          Report(InvalidTagName(lineNumber, line));
        } else {
          PushTag(name);
        }
      }
    }
  }
}
